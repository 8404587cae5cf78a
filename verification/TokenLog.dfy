/** Continuation tokens over reconnects and overlapping replays (sync/sync.go, Run and stream). */
module TokenLog {
  import opened AuthModel
  import opened Keys
  import opened Store

  datatype Mutation = Write(t: Tuple) | Delete(t: Tuple) | Other

  /** The store's tuples after a mutation, which takes or empties a slot whatever tuple was in it. */
  ghost function Apply(ts: set<Tuple>, m: Mutation): set<Tuple> {
    match m
    case Write(t) => Overwrite(ts, t)
    case Delete(t) => Evict(ts, t)
    case Other => ts
  }

  ghost function Fold(ts: set<Tuple>, ms: seq<Mutation>): set<Tuple> {
    if ms == [] then ts else Apply(Fold(ts, ms[..|ms| - 1]), ms[|ms| - 1])
  }

  /** The log entries at the given positions, in that order. */
  function Pick(log: seq<Mutation>, d: seq<nat>): seq<Mutation>
    requires forall k | 0 <= k < |d| :: d[k] < |log|
  {
    seq(|d|, k requires 0 <= k < |d| => log[d[k]])
  }

  // ---- the client and its server ----

  /**
   * A client holding the token that resumes after `token` entries, its open stream's next entry if any, and the
   * entries applied so far, in order.
   */
  datatype State = State(token: nat, next: Option<nat>, applied: seq<nat>)

  datatype Step =
    | Connect(start: nat)
    | Receive(withToken: bool)
    | Disconnect

  const INITIAL := State(0, None, [])

  /** Whether the server may take the step: a stream starts at or before the offered token and is then gapless. */
  predicate Enabled(s: State, a: Step, log: nat) {
    match a
    case Connect(start) => start <= s.token
    case Receive(_) => s.next.Some? && s.next.value < log
    case Disconnect => true
  }

  function After(s: State, a: Step): State
    requires a.Receive? ==> s.next.Some?
  {
    match a
    case Connect(start) => s.(next := Some(start))
    case Receive(withToken) =>
      State(if withToken then s.next.value + 1 else s.token, Some(s.next.value + 1), s.applied + [s.next.value])
    case Disconnect => s.(next := None)
  }

  /** The state a run of steps leads to, if every step was enabled. */
  function Reach(log: nat, steps: seq<Step>): Option<State> {
    if steps == [] then Some(INITIAL) else
      var before, a := Reach(log, steps[..|steps| - 1]), steps[|steps| - 1];
      if before.Some? && Enabled(before.value, a, log) then Some(After(before.value, a)) else None
  }

  /** One more than the latest entry ever applied. */
  function High(d: seq<nat>): nat {
    if d == [] then 0 else
      var h := High(d[..|d| - 1]);
      if d[|d| - 1] >= h then d[|d| - 1] + 1 else h
  }

  /** One more than the entry applied last. */
  function Position(d: seq<nat>): nat {
    if d == [] then 0 else d[|d| - 1] + 1
  }

  lemma {:induction false} HighBounds(d: seq<nat>)
    ensures forall k | 0 <= k < |d| :: d[k] < High(d)
    ensures Position(d) <= High(d)
  {
    if d != [] { HighBounds(d[..|d| - 1]); }
  }

  /** Nothing up to the token was ever skipped, whatever the server does with tokens and replays. */
  lemma {:induction false} AppliedUpToToken(log: nat, steps: seq<Step>)
    requires Reach(log, steps).Some?
    ensures
      var s := Reach(log, steps).value;
      && s.token <= High(s.applied) <= log
      && (s.next.Some? ==> s.next.value <= High(s.applied))
      && forall i: nat | i < High(s.applied) :: i in s.applied
  {
    if steps != [] {
      var front, a := steps[..|steps| - 1], steps[|steps| - 1];
      AppliedUpToToken(log, front);
      var s, s' := Reach(log, front).value, Reach(log, steps).value;
      hide Reach, High;
      if a.Receive? {
        HighOf(s.applied, s.next.value);
        assert s'.applied == s.applied + [s.next.value];
        assert forall i: nat :: i in s'.applied <==> i in s.applied || i == s.next.value;
      }
    }
  }

  /** Every re-sent entry the client already holds a token for carries its token again. */
  predicate ReplaysCarryTokens(log: nat, steps: seq<Step>) {
    steps == [] ||
    (&& ReplaysCarryTokens(log, steps[..|steps| - 1])
     && var before := Reach(log, steps[..|steps| - 1]);
        (steps[|steps| - 1] == Receive(false) && before.Some? && before.value.next.Some? ==>
           before.value.next.value >= before.value.token))
  }

  /** Whatever was applied at step k, every later entry below h was applied again after it. */
  ghost predicate Settled(d: seq<nat>, h: nat) {
    forall k, j | 0 <= k < |d| && d[k] < j < h :: OccursAfter(d, k, j)
  }

  ghost predicate OccursAfter(d: seq<nat>, k: nat, j: nat) {
    exists l :: k < l < |d| && d[l] == j
  }

  /** The entries below h, all of them and no others, applied so that the later ones had the last word. */
  ghost predicate Converged(d: seq<nat>, h: nat) {
    Settled(d, h) && (forall k | 0 <= k < |d| :: d[k] < h) && (forall i: nat | i < h :: i in d)
  }

  lemma {:induction false} TokenNeverAhead(log: nat, steps: seq<Step>)
    requires Reach(log, steps).Some? && ReplaysCarryTokens(log, steps)
    ensures
      var s := Reach(log, steps).value;
      && s.token <= Position(s.applied)
      && (s.next.Some? ==> s.next.value <= Position(s.applied))
      && Settled(s.applied, Position(s.applied))
  {
    if steps != [] {
      var front, a := steps[..|steps| - 1], steps[|steps| - 1];
      TokenNeverAhead(log, front);
      var s := Reach(log, front).value;
      if a.Receive? {
        SettledBelow(s.applied, Position(s.applied), s.next.value);
        ReceiveSettles(s.applied, s.next.value);
      }
    }
  }

  /** With tokens on replays, delivery at its high-water mark has converged. */
  lemma TokenedReplaysConverge(log: nat, steps: seq<Step>)
    requires Reach(log, steps).Some? && ReplaysCarryTokens(log, steps)
    requires var s := Reach(log, steps).value; Position(s.applied) == High(s.applied)
    ensures Converged(Reach(log, steps).value.applied, High(Reach(log, steps).value.applied))
  {
    AppliedUpToToken(log, steps);
    TokenNeverAhead(log, steps);
    HighBounds(Reach(log, steps).value.applied);
  }

  // ---- what convergence means for the tuples ----

  /** m is about t's slot. */
  predicate Touches(m: Mutation, t: Tuple) {
    !m.Other? && SameSlot(m.t, t)
  }

  /** The last entry of ms about t, or -1. */
  function LastTouch(ms: seq<Mutation>, t: Tuple): (k: int)
    ensures -1 <= k < |ms|
    ensures k >= 0 ==> Touches(ms[k], t)
    ensures forall i | k < i < |ms| :: !Touches(ms[i], t)
  {
    if ms == [] then -1
    else if Touches(ms[|ms| - 1], t) then |ms| - 1
    else LastTouch(ms[..|ms| - 1], t)
  }

  lemma {:induction false} FoldByLastTouch(ts: set<Tuple>, ms: seq<Mutation>, t: Tuple)
    ensures
      var k := LastTouch(ms, t);
      t in Fold(ts, ms) <==> if k < 0 then t in ts else ms[k] == Write(t)
  {
    hide SlotKey, TupleKey;
    if ms != [] { FoldByLastTouch(ts, ms[..|ms| - 1], t); }
  }

  lemma LastTouchIs(ms: seq<Mutation>, t: Tuple, k: int)
    requires -1 <= k < |ms| && (k >= 0 ==> Touches(ms[k], t)) && forall i | k < i < |ms| :: !Touches(ms[i], t)
    ensures LastTouch(ms, t) == k
  {
    hide LastTouch;
    var l := LastTouch(ms, t);
    assert l <= k && k <= l;
  }

  lemma ConvergedFolds(ts: set<Tuple>, log: seq<Mutation>, d: seq<nat>, h: nat)
    requires Converged(d, h) && h <= |log|
    ensures Fold(ts, Pick(log, d)) == Fold(ts, log[..h])
  {
    hide Fold, LastTouch, Settled;
    forall t ensures t in Fold(ts, Pick(log, d)) <==> t in Fold(ts, log[..h]) {
      FoldByLastTouch(ts, Pick(log, d), t);
      FoldByLastTouch(ts, log[..h], t);
      SameLastTouch(log, d, h, t);
    }
  }

  lemma SameLastTouch(log: seq<Mutation>, d: seq<nat>, h: nat, t: Tuple)
    requires Converged(d, h) && h <= |log|
    ensures
      var k, i := LastTouch(Pick(log, d), t), LastTouch(log[..h], t);
      (k < 0 <==> i < 0) && (k >= 0 ==> Pick(log, d)[k] == log[..h][i])
  {
    hide LastTouch, Touches;
    var ms := Pick(log, d);
    var k, i := LastTouch(ms, t), LastTouch(log[..h], t);
    assert forall l | 0 <= l < |d| :: ms[l] == log[..h][d[l]];
    if i >= 0 {
      var i': nat := i;
      assert i' in d;
      var at :| 0 <= at < |d| && d[at] == i;
      assert ms[at] == log[i] == log[..h][i];
      assert at <= k;
    }
    if k >= 0 {
      assert ms[k] == log[d[k]] == log[..h][d[k]];
      assert d[k] <= i;
      var last: nat := i;
      assert forall l: nat | l < |d| && d[l] < last :: OccursAfter(d, l, last);
      assert d[k] == i;
    }
  }

  ghost predicate FoldsAlike(d: seq<nat>, h: nat, n: nat)
    requires h <= n && forall k | 0 <= k < |d| :: d[k] < n
  {
    forall ts: set<Tuple>, log: seq<Mutation> | |log| == n :: Fold(ts, Pick(log, d)) == Fold(ts, log[..h])
  }

  /** A schedule reproduces the log's prefix for every log and snapshot exactly when it has converged. */
  lemma ConvergenceIsExact(d: seq<nat>, h: nat, n: nat)
    requires h <= n && forall k | 0 <= k < |d| :: d[k] < n
    ensures Converged(d, h) <==> FoldsAlike(d, h, n)
  {
    if Converged(d, h) {
      forall ts: set<Tuple>, log: seq<Mutation> | |log| == n ensures Fold(ts, Pick(log, d)) == Fold(ts, log[..h]) {
        ConvergedFolds(ts, log, d, h);
      }
    } else {
      var ts, log := Distinguish(d, h, n);
    }
  }

  /** A log on which an unconverged schedule goes wrong. */
  lemma Distinguish(d: seq<nat>, h: nat, n: nat) returns (ts: set<Tuple>, log: seq<Mutation>)
    requires h <= n && (forall k | 0 <= k < |d| :: d[k] < n) && !Converged(d, h)
    ensures |log| == n && Fold(ts, Pick(log, d)) != Fold(ts, log[..h])
  {
    hide Fold, LastTouch;
    ts := {};
    var t := Tuple("doc", "1", "viewer", "user", "u", "");
    var quiet := seq(n, i => Other);
    if i: nat :| i < h && i !in d {
      log := quiet[i := Write(t)];
      LastTouchIs(log[..h], t, i);
      LastTouchIs(Pick(log, d), t, -1);
    } else if k :| 0 <= k < |d| && d[k] >= h {
      log := quiet[d[k] := Write(t)];
      LastTouchIs(log[..h], t, -1);
      assert Pick(log, d)[k] == Write(t);
      WrittenAtLast(log, d, t);
    } else {
      var k, j :| 0 <= k < |d| && d[k] < j < h && !OccursAfter(d, k, j);
      log := quiet[d[k] := Write(t)][j := Delete(t)];
      LastTouchIs(log[..h], t, j);
      var ms := Pick(log, d);
      assert ms[k] == Write(t);
      assert LastTouch(ms, t) >= k;
      assert ms[LastTouch(ms, t)] == Write(t) by {
        var l := LastTouch(ms, t);
        if l > k { assert d[l] != j; }
      }
    }
    FoldByLastTouch(ts, log[..h], t);
    FoldByLastTouch(ts, Pick(log, d), t);
  }

  lemma WrittenAtLast(log: seq<Mutation>, d: seq<nat>, t: Tuple)
    requires forall k | 0 <= k < |d| :: d[k] < |log|
    requires (forall m <- log :: m == Other || m == Write(t)) && exists k :: 0 <= k < |d| && log[d[k]] == Write(t)
    ensures LastTouch(Pick(log, d), t) >= 0 && Pick(log, d)[LastTouch(Pick(log, d), t)] == Write(t)
  {
    hide LastTouch;
    var ms := Pick(log, d);
    var k :| 0 <= k < |d| && log[d[k]] == Write(t);
    assert ms[k] == Write(t);
    var l := LastTouch(ms, t);
    assert l >= k && ms[l] == log[d[l]] && log[d[l]] in log;
  }

  /** In every such run, at the high-water mark the tuples are the snapshot plus the log so far. */
  lemma ReplicaMatchesLog(snapshot: set<Tuple>, log: seq<Mutation>, steps: seq<Step>)
    requires Reach(|log|, steps).Some? && ReplaysCarryTokens(|log|, steps)
    requires var s := Reach(|log|, steps).value; Position(s.applied) == High(s.applied)
    ensures
      var d := Reach(|log|, steps).value.applied;
      && High(d) <= |log| && (forall k | 0 <= k < |d| :: d[k] < |log|)
      && Fold(snapshot, Pick(log, d)) == Fold(snapshot, log[..High(d)])
  {
    AppliedUpToToken(|log|, steps);
    TokenedReplaysConverge(|log|, steps);
    ConvergedFolds(snapshot, log, Reach(|log|, steps).value.applied, High(Reach(|log|, steps).value.applied));
  }

  // ---- which runs can still go wrong ----

  ghost predicate AtHighWater(s: State) {
    Position(s.applied) == High(s.applied)
  }

  /** However the run goes on with tokened frames, it has converged whenever it is at its high-water mark. */
  ghost predicate Recovers(log: nat, steps: seq<Step>) {
    forall more | Receive(false) !in more && Reach(log, steps + more).Some?
      && AtHighWater(Reach(log, steps + more).value) ::
      Converged(Reach(log, steps + more).value.applied, High(Reach(log, steps + more).value.applied))
  }

  /** What was re-applied last is not behind what the token or the open stream will send next. */
  ghost predicate InOrder(s: State) {
    && Settled(s.applied, s.token)
    && (s.next.Some? ==> Settled(s.applied, s.next.value))
    && (AtHighWater(s) ==> Settled(s.applied, High(s.applied)))
  }

  lemma SettledBelow(d: seq<nat>, h: nat, low: nat)
    requires Settled(d, h) && low <= h
    ensures Settled(d, low)
  {
  }

  lemma ReceiveSettles(d: seq<nat>, c: nat)
    requires Settled(d, c)
    ensures Settled(d + [c], c + 1)
  {
    var d' := d + [c];
    forall k, j | 0 <= k < |d'| && d'[k] < j < c + 1 ensures OccursAfter(d', k, j) {
      if j == c {
        assert d'[|d|] == c;
      } else {
        assert OccursAfter(d, k, j);
        var l :| k < l < |d| && d[l] == j;
        assert d'[l] == j;
      }
    }
  }

  lemma InOrderStep(s: State, a: Step, log: nat)
    requires InOrder(s) && Enabled(s, a, log) && a != Receive(false)
    ensures InOrder(After(s, a))
  {
    hide Settled, High;
    match a
    case Connect(start) => SettledBelow(s.applied, s.token, start);
    case Receive(_) =>
      ReceiveSettles(s.applied, s.next.value);
    case Disconnect =>
  }

  lemma {:induction false} StaysInOrder(log: nat, steps: seq<Step>, more: seq<Step>)
    requires Reach(log, steps).Some? && InOrder(Reach(log, steps).value)
    requires Receive(false) !in more && Reach(log, steps + more).Some?
    ensures InOrder(Reach(log, steps + more).value)
    decreases |more|
  {
    hide InOrder;
    if more == [] {
      assert steps + more == steps;
    } else {
      var front, a := more[..|more| - 1], more[|more| - 1];
      assert (steps + more)[..|steps + more| - 1] == steps + front;
      StaysInOrder(log, steps, front);
      InOrderStep(Reach(log, steps + front).value, a, log);
    }
  }

  /** The n positions from start on. */
  function From(start: nat, n: nat): seq<nat> {
    seq(n, k => start + k)
  }

  /** n tokened entries received on the open stream. */
  lemma {:induction false} CatchUp(log: nat, steps: seq<Step>, s: State, n: nat) returns (more: seq<Step>)
    requires Reach(log, steps) == Some(s) && s.next.Some? && s.next.value + n <= log
    ensures Receive(false) !in more && Reach(log, steps + more).Some?
    ensures
      var s' := Reach(log, steps + more).value;
      s'.applied == s.applied + From(s.next.value, n) && s'.next == Some(s.next.value + n)
    decreases n
  {
    hide Reach;
    if n == 0 {
      more := [];
      assert steps + more == steps;
      return;
    }
    var front := CatchUp(log, steps, s, n - 1);
    var s' := Reach(log, steps + front).value;
    var all := Extend(log, steps + front, Receive(true), s');
    more := front + [Receive(true)];
    assert all == steps + more;
    assert From(s.next.value, n) == From(s.next.value, n - 1) + [s.next.value + n - 1];
  }

  lemma {:induction false} HighFrom(d: seq<nat>, c: nat, n: nat)
    requires c + n >= High(d) && n >= 1
    ensures High(d + From(c, n)) == c + n == Position(d + From(c, n))
  {
    hide High;
    var front := d + From(c, n - 1);
    assert d + From(c, n) == front + [c + n - 1];
    HighOf(front, c + n - 1);
    HighAtMost(d, c, n - 1);
  }

  lemma {:induction false} HighAtMost(d: seq<nat>, c: nat, n: nat)
    ensures High(d + From(c, n)) <= if High(d) >= c + n then High(d) else c + n
    decreases n
  {
    hide High;
    if n == 0 {
      assert d + From(c, n) == d;
    } else {
      HighAtMost(d, c, n - 1);
      assert d + From(c, n) == (d + From(c, n - 1)) + [c + n - 1];
      HighOf(d + From(c, n - 1), c + n - 1);
    }
  }

  /** Out of order below where the stream goes on, a run can be led to a high-water mark with the wrong last word. */
  lemma UnsettledStaysWrong(log: nat, steps: seq<Step>, s: State) returns (more: seq<Step>)
    requires Reach(log, steps) == Some(s) && s.next.Some? && s.next.value < log && High(s.applied) <= log
    requires !Settled(s.applied, s.next.value)
    ensures Receive(false) !in more && Reach(log, steps + more).Some? && AtHighWater(Reach(log, steps + more).value)
    ensures
      var d := Reach(log, steps + more).value.applied;
      !Converged(d, High(d))
  {
    hide Reach, High;
    var c := s.next.value;
    var h := if High(s.applied) > c then High(s.applied) else c + 1;
    more := CatchUp(log, steps, s, h - c);
    var d := s.applied + From(c, h - c);
    HighFrom(s.applied, c, h - c);
    var k, j :| 0 <= k < |s.applied| && s.applied[k] < j < c && !OccursAfter(s.applied, k, j);
    assert forall l | 0 <= l < |d| :: d[l] == if l < |s.applied| then s.applied[l] else c + (l - |s.applied|);
    assert !OccursAfter(d, k, j);
  }

  /** A run that the server can still extend recovers in all tokened continuations exactly when it is in order. */
  lemma RecoversExactly(log: nat, steps: seq<Step>)
    requires Reach(log, steps).Some? && Reach(log, steps).value.token < log
    requires var s := Reach(log, steps).value; s.next.Some? ==> s.next.value < log
    ensures Recovers(log, steps) <==> InOrder(Reach(log, steps).value)
  {
    hide Reach, High, Settled;
    var s := Reach(log, steps).value;
    if InOrder(s) {
      forall more | Receive(false) !in more && Reach(log, steps + more).Some?
        && AtHighWater(Reach(log, steps + more).value)
        ensures Converged(Reach(log, steps + more).value.applied, High(Reach(log, steps + more).value.applied))
      {
        StaysInOrder(log, steps, more);
        AppliedUpToToken(log, steps + more);
        HighBounds(Reach(log, steps + more).value.applied);
      }
    } else {
      AppliedUpToToken(log, steps);
      if !Settled(s.applied, s.token) {
        var all := Extend(log, steps, Connect(s.token), s);
        var more := UnsettledStaysWrong(log, all, After(s, Connect(s.token)));
        assert all + more == steps + ([Connect(s.token)] + more);
        assert !Recovers(log, steps);
      } else if s.next.Some? && !Settled(s.applied, s.next.value) {
        var more := UnsettledStaysWrong(log, steps, s);
      } else {
        assert steps + [] == steps;
        assert !Converged(s.applied, High(s.applied));
        assert Receive(false) !in [];
      }
    }
  }

  /** A replay without a token of an entry at least two below the token leaves the run open to divergence. */
  lemma UntokenedReplayDiverges(log: nat, steps: seq<Step>)
    requires Reach(log, steps).Some?
    requires var s := Reach(log, steps).value; s.next.Some? && s.next.value + 2 <= s.token < log
    ensures Reach(log, steps + [Receive(false)]).Some? && !Recovers(log, steps + [Receive(false)])
  {
    hide Reach, Recovers;
    var s := Reach(log, steps).value;
    var replayed := Extend(log, steps, Receive(false), s);
    var s' := After(s, Receive(false));
    assert s'.applied[|s.applied|] == s.next.value && !OccursAfter(s'.applied, |s.applied|, s.next.value + 1);
    assert !Settled(s'.applied, s'.token);
    RecoversExactly(log, replayed);
  }

  /** Such runs exist: two entries with tokens and a reconnect that replays from the start. */
  lemma UntokenedRun() returns (steps: seq<Step>)
    ensures Reach(3, steps).Some? && Reach(3, steps).value.next == Some(0) && Reach(3, steps).value.token == 2
  {
    hide Reach;
    NoSteps(3);
    steps := Extend(3, [], Connect(0), INITIAL);
    steps := Extend(3, steps, Receive(true), Reach(3, steps).value);
    steps := Extend(3, steps, Receive(true), Reach(3, steps).value);
    steps := Extend(3, steps, Connect(0), Reach(3, steps).value);
  }

  lemma HighOf(d: seq<nat>, c: nat)
    ensures High(d + [c]) == if c >= High(d) then c + 1 else High(d)
  {
    assert (d + [c])[..|d|] == d;
  }

  lemma NoSteps(log: nat)
    ensures Reach(log, []) == Some(INITIAL)
  {
  }

  /** A step that is no untokened replay keeps replays tokened. */
  lemma ExtendTokened(log: nat, steps: seq<Step>, a: Step, s: State)
    requires Reach(log, steps) == Some(s)
    ensures ReplaysCarryTokens(log, steps) && (a == Receive(false) && s.next.Some? ==> s.next.value >= s.token)
      ==> ReplaysCarryTokens(log, steps + [a])
  {
    assert (steps + [a])[..|steps|] == steps;
  }

  lemma Extend(log: nat, steps: seq<Step>, a: Step, s: State) returns (steps': seq<Step>)
    requires Reach(log, steps) == Some(s) && Enabled(s, a, log)
    ensures steps' == steps + [a] && Reach(log, steps') == Some(After(s, a))
  {
    steps' := steps + [a];
    assert steps'[..|steps|] == steps;
  }
}
