/** The mutation stream applied to the engine, across connections (sync/sync.go, Run, stream and applyMutation). */
module SyncClient {
  import opened AuthModel
  import opened Keys
  import opened Store
  import opened Engine
  import opened Floors
  import TokenLog

  /**
   * What a frame asks for. A model update carries the compiled model, if its source compiles; policy and gate updates
   * are other changes, with the outcome they will have.
   */
  datatype Payload =
    | TupleWrite(user: string, relation: string, target: string)
    | TupleDelete(user: string, relation: string, target: string)
    | ModelUpdate(compiled: Option<Model>, revision: int)
    | NoChange
    | OtherChange(succeeds: bool)

  datatype Frame = Frame(tenantID: string, payload: Payload, token: string)

  function MutationOf(f: Frame): TokenLog.Mutation {
    match f.payload
    case TupleWrite(u, r, o) => TokenLog.Write(TupleOf(u, r, o))
    case TupleDelete(u, r, o) => TokenLog.Delete(TupleOf(u, r, o))
    case _ => TokenLog.Other
  }

  function Mutations(frames: seq<Frame>): seq<TokenLog.Mutation> {
    seq(|frames|, i requires 0 <= i < |frames| => MutationOf(frames[i]))
  }

  /** Whether a client of orgID applies the frame under model m when its engine holds ts. */
  ghost predicate Accepts(recorder: (bool, Tuple) -> bool, orgID: string, m: Option<Model>, ts: set<Tuple>, f: Frame) {
    && (f.tenantID == "" || f.tenantID == orgID)
    && match f.payload
       case TupleWrite(u, r, o) =>
         var t := TupleOf(u, r, o); ValidTuple(m, t) && recorder(true, t)
       case TupleDelete(u, r, o) =>
         var t := TupleOf(u, r, o); recorder(false, t) && !Refused(m, ts, t)
       case ModelUpdate(compiled, revision) => revision > 0 && compiled.Some?
       case NoChange => true
       case OtherChange(succeeds) => succeeds
  }

  /** The store's tuples after the frames were applied. */
  ghost function Effects(ts: set<Tuple>, frames: seq<Frame>): set<Tuple> {
    TokenLog.Fold(ts, Mutations(frames))
  }

  function ModelAfter(current: Fenced, f: Frame): Fenced {
    match f.payload
    case ModelUpdate(compiled, revision) => Fence(current, compiled, revision)
    case _ => current
  }

  /** The model in force after the frames were applied. */
  function ModelsAfter(current: Fenced, frames: seq<Frame>): Fenced {
    if frames == [] then current else ModelAfter(ModelsAfter(current, frames[..|frames| - 1]), frames[|frames| - 1])
  }

  /** The last token among the frames, or the one held before. */
  function LastToken(held: string, frames: seq<Frame>): string {
    if frames == [] then held
    else if frames[|frames| - 1].token != "" then frames[|frames| - 1].token
    else LastToken(held, frames[..|frames| - 1])
  }

  lemma NoFrames(ts: set<Tuple>, held: string, current: Fenced)
    ensures Effects(ts, []) == ts && LastToken(held, []) == held && ModelsAfter(current, []) == current
  {
  }

  lemma OneMoreFrame(ts: set<Tuple>, held: string, current: Fenced, frames: seq<Frame>, i: nat)
    requires i < |frames|
    ensures Effects(ts, frames[..i + 1]) == TokenLog.Apply(Effects(ts, frames[..i]), MutationOf(frames[i]))
    ensures ModelsAfter(current, frames[..i + 1]) == ModelAfter(ModelsAfter(current, frames[..i]), frames[i])
    ensures LastToken(held, frames[..i + 1]) ==
      if frames[i].token != "" then frames[i].token else LastToken(held, frames[..i])
  {
    hide TokenLog.Apply, MutationOf, ModelAfter;
    assert frames[..i + 1][..i] == frames[..i];
    assert Mutations(frames[..i + 1])[..i] == Mutations(frames[..i]);
  }

  // ---- the server ----

  /** What one connection delivers: log entries from start on, and whether it ends by refusing the token. */
  datatype Answer = Answer(start: nat, frames: seq<Frame>, refused: bool)

  type Server = (nat, string) -> Answer

  /** The token that resumes after p entries. */
  function TokenAt(origin: string, log: seq<Frame>, p: nat): string
    requires p <= |log|
  {
    if p == 0 then origin else log[p - 1].token
  }

  /** The frames are consecutive log entries, some without their tokens. */
  ghost predicate Sends(log: seq<Frame>, frames: seq<Frame>, start: nat) {
    && start + |frames| <= |log|
    && forall k | 0 <= k < |frames| :: frames[k] in {log[start + k], log[start + k].(token := "")}
  }

  /** Every connection starts at or before the offered token and leaves out nothing. */
  ghost predicate Honest(server: Server, origin: string, log: seq<Frame>) {
    && (forall e <- log :: e.token != "")
    && forall n, p: nat | p <= |log| ::
         var a := server(n, TokenAt(origin, log, p));
         a.start <= p && Sends(log, a.frames, a.start)
  }

  /** Entries re-sent from before the offered token carry their tokens. */
  ghost predicate RepeatsTokens(server: Server, origin: string, log: seq<Frame>) {
    forall n, p: nat | p <= |log| :: TokensBelow(server(n, TokenAt(origin, log, p)), p)
  }

  ghost predicate TokensBelow(a: Answer, p: nat) {
    forall k | 0 <= k < |a.frames| && a.start + k < p :: a.frames[k].token != ""
  }

  /** Whether the i-th frame is applied once those before it have been. */
  ghost predicate AcceptsNext(recorder: (bool, Tuple) -> bool, orgID: string, current: Fenced, before: set<Tuple>,
                              frames: seq<Frame>, i: nat)
    requires i < |frames|
  {
    Accepts(recorder, orgID, ModelsAfter(current, frames[..i]).model, Effects(before, frames[..i]), frames[i])
  }

  /** The frame names a tenant, and another one. */
  predicate Foreign(f: Frame, orgID: string) {
    f.tenantID != "" && f.tenantID != orgID
  }

  // ---- the client's side ----

  /** How many frames are applied from the i-th on, when those before it have been. */
  ghost function Taken(recorder: (bool, Tuple) -> bool, orgID: string, current: Fenced, before: set<Tuple>,
                       frames: seq<Frame>, i: nat): (k: nat)
    requires i <= |frames|
    ensures i <= k <= |frames|
    ensures forall j | i <= j < k :: AcceptsNext(recorder, orgID, current, before, frames, j)
    ensures k < |frames| ==> !AcceptsNext(recorder, orgID, current, before, frames, k)
    decreases |frames| - i
  {
    if i == |frames| || !AcceptsNext(recorder, orgID, current, before, frames, i) then i
    else Taken(recorder, orgID, current, before, frames, i + 1)
  }

  datatype ClientState = ClientState(token: string, tuples: set<Tuple>, current: Fenced, stopped: bool)

  /** A client after one connection: everything up to the first frame it does not accept. */
  ghost function Connected(recorder: (bool, Tuple) -> bool, orgID: string, retries: bool,
                           c: ClientState, answer: Answer): ClientState
  {
    var k := Taken(recorder, orgID, c.current, c.tuples, answer.frames, 0);
    var frames := answer.frames[..k];
    ClientState(LastToken(c.token, frames), Effects(c.tuples, frames), ModelsAfter(c.current, frames),
                !retries && (k < |answer.frames| || answer.refused))
  }

  /** A client after up to n connections, each offering the token held; it may stop before. */
  ghost function AfterConnections(recorder: (bool, Tuple) -> bool, orgID: string, retries: bool, server: Server,
                                  c: ClientState, n: nat): ClientState
  {
    if n == 0 then c else
      var held := AfterConnections(recorder, orgID, retries, server, c, n - 1);
      if held.stopped then held else Connected(recorder, orgID, retries, held, server(n - 1, held.token))
  }

  lemma {:induction false} StoppedStays(recorder: (bool, Tuple) -> bool, orgID: string, retries: bool, server: Server,
                                        c: ClientState, n: nat, m: nat)
    requires n <= m && (AfterConnections(recorder, orgID, retries, server, c, n).stopped || n == m)
    ensures AfterConnections(recorder, orgID, retries, server, c, m) ==
      AfterConnections(recorder, orgID, retries, server, c, n)
    decreases m
  {
    hide Connected;
    if n < m { StoppedStays(recorder, orgID, retries, server, c, n, m - 1); }
  }

  class StreamClient {
    const orgID: string
    const engine: TupleEngine
    var continuationToken: string

    constructor (orgID: string, engine: TupleEngine, token: string)
      ensures this.orgID == orgID && this.engine == engine && continuationToken == token
    {
      this.orgID := orgID;
      this.engine := engine;
      continuationToken := token;
    }

    method ApplyMutation(f: Frame) returns (ok: bool)
      requires engine.store.Valid()
      modifies engine, engine.store
      ensures engine.store.Valid() && engine.store.materialized == old(engine.store.materialized)
      ensures ok <==> Accepts(engine.recorder, orgID, old(engine.model), old(engine.store.Contents()), f)
      ensures engine.store.Contents() ==
        if ok then TokenLog.Apply(old(engine.store.Contents()), MutationOf(f)) else old(engine.store.Contents())
      ensures engine.Current() == if ok then ModelAfter(old(engine.Current()), f) else old(engine.Current())
      ensures f.tenantID != "" && f.tenantID != orgID ==>
        !ok && engine.store.Contents() == old(engine.store.Contents()) && engine.Current() == old(engine.Current())
      ensures f.tenantID == "" || f.tenantID == orgID ==>
        match f.payload
        case TupleWrite(u, r, o) => ok <==> ValidTuple(old(engine.model), TupleOf(u, r, o))
                                            && engine.recorder(true, TupleOf(u, r, o))
        case TupleDelete(u, r, o) =>
          ok <==> engine.recorder(false, TupleOf(u, r, o))
                  && !Refused(old(engine.model), old(engine.store.Contents()), TupleOf(u, r, o))
        case ModelUpdate(compiled, revision) =>
          && (ok <==> compiled.Some? && revision > 0)
          && (ok && (old(engine.model).None? || revision > old(engine.revision)) ==>
                engine.model == compiled && engine.revision == revision)
        case NoChange => ok
        case OtherChange(succeeds) => ok == succeeds
    {
      hide Overwrite, Evict, TupleOf, Stored, IndexOk, Step, Refused, ValidTuple, OnePerSlot;
      if f.tenantID != "" && f.tenantID != orgID { return false; }
      match f.payload
      case TupleWrite(u, r, o) =>
        var err := engine.WriteTuple(u, r, o);
        return err.None?;
      case TupleDelete(u, r, o) =>
        var err := engine.DeleteTuple(u, r, o);
        return err.None?;
      case ModelUpdate(compiled, revision) =>
        ok := engine.ActivateModel(compiled, revision);
      case NoChange => return true;
      case OtherChange(succeeds) => return succeeds;
    }

    /** Applies frames in order up to the first failure; the token never moves past a frame that was not applied. */
    method Stream(answer: Answer) returns (tokenRefused: bool, applied: nat)
      requires engine.store.Valid()
      modifies this, engine, engine.store
      ensures engine.store.Valid() && engine.store.materialized == old(engine.store.materialized)
      ensures applied <= |answer.frames| && (tokenRefused <==> applied < |answer.frames| || answer.refused)
      ensures
        var before, current, frames := old(engine.store.Contents()), old(engine.Current()), answer.frames;
        && (forall i | 0 <= i < applied :: AcceptsNext(engine.recorder, orgID, current, before, frames, i))
        && (applied < |frames| ==> !AcceptsNext(engine.recorder, orgID, current, before, frames, applied))
        && engine.store.Contents() == Effects(before, frames[..applied])
        && engine.Current() == ModelsAfter(current, frames[..applied])
        && continuationToken == LastToken(old(continuationToken), frames[..applied])
      ensures forall k | 0 <= k < |answer.frames| && Foreign(answer.frames[k], orgID) :: applied <= k && tokenRefused
      ensures applied ==
        Taken(engine.recorder, orgID, old(engine.Current()), old(engine.store.Contents()), answer.frames, 0)
    {
      hide Taken;
      hide TokenLog.Apply, Effects, LastToken, ModelAfter, ModelsAfter, MutationOf, Stored, IndexOk, Accepts;
      var frames := answer.frames;
      ghost var before, current := engine.store.Contents(), engine.Current();
      NoFrames(before, continuationToken, current);
      for i := 0 to |frames|
        invariant engine.store.Valid() && engine.store.materialized == old(engine.store.materialized)
        invariant engine.store.Contents() == Effects(before, frames[..i])
        invariant engine.Current() == ModelsAfter(current, frames[..i])
        invariant continuationToken == LastToken(old(continuationToken), frames[..i])
        invariant forall j | 0 <= j < i :: AcceptsNext(engine.recorder, orgID, current, before, frames, j)
        invariant forall j | 0 <= j < i :: !Foreign(frames[j], orgID)
      {
        OneMoreFrame(before, old(continuationToken), current, frames, i);
        var ok := ApplyMutation(frames[i]);
        if !ok { return true, i; }
        assert !Foreign(frames[i], orgID);
        if frames[i].token != "" { continuationToken := frames[i].token; }
      }
      assert frames[..|frames|] == frames;
      return answer.refused, |frames|;
    }

    /**
     * Connects again and again, offering the token it holds. A refusal or failed frame stops it unless a rebootstrap
     * callback is configured, whose attempts fail here. The client's token and store follow the state machine over
     * log positions, so at the high-water mark the store is the snapshot folded with the log so far.
     */
    method Run(server: Server, connections: nat, retries: bool, ghost log: seq<Frame>)
      returns (stopped: bool, ghost steps: seq<TokenLog.Step>)
      requires engine.store.Valid() && Honest(server, continuationToken, log)
      modifies this, engine, engine.store
      ensures engine.store.Valid() && engine.store.materialized == old(engine.store.materialized)
      ensures TokenLog.Reach(|log|, steps).Some?
      ensures
        var st, before := TokenLog.Reach(|log|, steps).value, old(engine.store.Contents());
        && Follows(log, st) && continuationToken == TokenAt(old(continuationToken), log, st.token)
        && (forall i: nat | i < st.token :: i in st.applied)
        && (forall i <- st.applied :: !Foreign(log[i], orgID))
        && ClientState(continuationToken, engine.store.Contents(), engine.Current(), stopped) ==
           AfterConnections(engine.recorder, orgID, retries, server,
                            ClientState(old(continuationToken), before, old(engine.Current()), false), connections)
        && engine.store.Contents() == TokenLog.Fold(before, TokenLog.Pick(Mutations(log), st.applied))
        && (RepeatsTokens(server, old(continuationToken), log) ==> TokenLog.ReplaysCarryTokens(|log|, steps))
        && (RepeatsTokens(server, old(continuationToken), log) && TokenLog.AtHighWater(st) ==>
              && TokenLog.High(st.applied) <= |log|
              && engine.store.Contents() == Effects(before, log[..TokenLog.High(st.applied)]))
    {
      hide Stored, IndexOk, Effects, LastToken, ModelsAfter, AcceptsNext, Honest, RepeatsTokens;
      hide TokenLog.High, TokenLog.Position, Taken;
      ghost var start := ClientState(continuationToken, engine.store.Contents(), engine.Current(), false);
      ghost var before, origin := engine.store.Contents(), continuationToken;
      steps := [];
      TokenLog.NoSteps(|log|);
      ghost var st := TokenLog.INITIAL;
      ghost var tokened := RepeatsTokens(server, origin, log);
      NothingApplied(before, log);
      var n := 0;
      stopped := false;
      while n < connections && !stopped
        invariant engine.store.Valid() && engine.store.materialized == old(engine.store.materialized)
        invariant TokenLog.Reach(|log|, steps) == Some(st) && Follows(log, st)
        invariant continuationToken == TokenAt(origin, log, st.token)
        invariant engine.store.Contents() == Effects(before, Entries(log, st.applied))
        invariant tokened ==> TokenLog.ReplaysCarryTokens(|log|, steps)
        invariant forall i <- st.applied :: !Foreign(log[i], orgID)
        invariant n <= connections
        invariant ClientState(continuationToken, engine.store.Contents(), engine.Current(), stopped) ==
          AfterConnections(engine.recorder, orgID, retries, server, start, n)
      {
        var answer := server(n, continuationToken);
        AnswerIsHonest(server, origin, log, n, st.token);
        var tokenRefused, applied := Stream(answer);
        ghost var st' := st;
        steps, st' := Session(origin, log, steps, st, answer, applied);
        SessionEffects(before, log, st.applied, answer, applied);
        SessionTenants(log, orgID, st.applied, answer, applied);
        st := st';
        if tokenRefused && !retries { stopped := true; }
        n := n + 1;
      }
      StoppedStays(engine.recorder, orgID, retries, server, start, n, connections);
      TokenLog.AppliedUpToToken(|log|, steps);
      EntriesAre(before, log, st.applied);
      if tokened && TokenLog.AtHighWater(st) { Converges(before, log, steps, st); }
    }
  }

  // ---- clean components ----

  /** Mutations by plain set union and difference, as if every tuple had a slot of its own. */
  ghost function PlainFold(ts: set<Tuple>, ms: seq<TokenLog.Mutation>): set<Tuple> {
    if ms == [] then ts else
      var before, m := PlainFold(ts, ms[..|ms| - 1]), ms[|ms| - 1];
      if m.Write? then before + {m.t} else if m.Delete? then before - {m.t} else before
  }

  /** On clean components slots do not matter. */
  lemma {:induction false} CleanFold(ts: set<Tuple>, ms: seq<TokenLog.Mutation>)
    requires AllClean(ts) && forall m <- ms :: m.Other? || Clean(m.t)
    ensures AllClean(TokenLog.Fold(ts, ms)) && TokenLog.Fold(ts, ms) == PlainFold(ts, ms)
  {
    hide Clean, Overwrite, Evict;
    if ms != [] {
      CleanFold(ts, ms[..|ms| - 1]);
      var m := ms[|ms| - 1];
      if !m.Other? { CleanSlots(PlainFold(ts, ms[..|ms| - 1]), m.t); }
    }
  }

  // ---- the client's side of a run over the log ----

  /** The state's positions lie within the log. */
  ghost predicate Follows(log: seq<Frame>, st: TokenLog.State) {
    st.token <= |log| && forall k | 0 <= k < |st.applied| :: st.applied[k] < |log|
  }

  /** The log entries at the given positions, in that order. */
  function Entries(log: seq<Frame>, d: seq<nat>): seq<Frame>
    requires forall k | 0 <= k < |d| :: d[k] < |log|
  {
    seq(|d|, k requires 0 <= k < |d| => log[d[k]])
  }

  lemma AnswerIsHonest(server: Server, origin: string, log: seq<Frame>, n: nat, p: nat)
    requires Honest(server, origin, log) && p <= |log|
    ensures
      var a := server(n, TokenAt(origin, log, p));
      && a.start <= p && Sends(log, a.frames, a.start) && (forall e <- log :: e.token != "")
      && (RepeatsTokens(server, origin, log) ==> TokensBelow(a, p))
  {
    hide Sends, TokensBelow;
  }

  lemma NothingApplied(ts: set<Tuple>, log: seq<Frame>)
    ensures Effects(ts, Entries(log, [])) == ts && TokenLog.ReplaysCarryTokens(|log|, [])
  {
  }

  lemma EntriesAre(ts: set<Tuple>, log: seq<Frame>, d: seq<nat>)
    requires forall k | 0 <= k < |d| :: d[k] < |log|
    ensures Effects(ts, Entries(log, d)) == TokenLog.Fold(ts, TokenLog.Pick(Mutations(log), d))
  {
    hide MutationOf, TokenLog.Fold;
    assert Mutations(Entries(log, d)) == TokenLog.Pick(Mutations(log), d);
  }

  lemma {:induction false} FoldJoin(ts: set<Tuple>, a: seq<TokenLog.Mutation>, b: seq<TokenLog.Mutation>)
    ensures TokenLog.Fold(TokenLog.Fold(ts, a), b) == TokenLog.Fold(ts, a + b)
    decreases |b|
  {
    hide TokenLog.Apply;
    if b == [] {
      assert a + b == a;
    } else {
      FoldJoin(ts, a, b[..|b| - 1]);
      assert (a + b)[..|a + b| - 1] == a + b[..|b| - 1];
    }
  }

  /** What a connection adds is the effect of the log entries it delivered. */
  lemma SessionEffects(ts: set<Tuple>, log: seq<Frame>, d: seq<nat>, answer: Answer, applied: nat)
    requires (forall k | 0 <= k < |d| :: d[k] < |log|) && Sends(log, answer.frames, answer.start)
    requires applied <= |answer.frames|
    ensures Effects(Effects(ts, Entries(log, d)), answer.frames[..applied]) ==
      Effects(ts, Entries(log, d + TokenLog.From(answer.start, applied)))
  {
    hide TokenLog.Fold;
    var frames, all := answer.frames[..applied], d + TokenLog.From(answer.start, applied);
    forall k | 0 <= k < applied ensures MutationOf(frames[k]) == MutationOf(log[answer.start + k]) {
      assert answer.frames[k] in {log[answer.start + k], log[answer.start + k].(token := "")};
    }
    hide MutationOf;
    FoldJoin(ts, Mutations(Entries(log, d)), Mutations(frames));
    assert Mutations(Entries(log, all)) == Mutations(Entries(log, d)) + Mutations(frames);
  }

  /** A log entry applied through a connection is for the tenant its frame was for. */
  lemma SessionTenants(log: seq<Frame>, orgID: string, d: seq<nat>, answer: Answer, applied: nat)
    requires (forall i <- d :: i < |log| && !Foreign(log[i], orgID)) && Sends(log, answer.frames, answer.start)
    requires applied <= |answer.frames|
    requires forall k | 0 <= k < |answer.frames| && Foreign(answer.frames[k], orgID) :: applied <= k
    ensures forall i <- d + TokenLog.From(answer.start, applied) :: i < |log| && !Foreign(log[i], orgID)
  {
    forall i | i in TokenLog.From(answer.start, applied) ensures i < |log| && !Foreign(log[i], orgID) {
      var k := i - answer.start;
      assert 0 <= k < applied && answer.frames[k] in {log[answer.start + k], log[answer.start + k].(token := "")};
    }
  }

  /** n frames received on an open connection, step by step. */
  lemma {:induction false} Receives(origin: string, log: seq<Frame>, steps: seq<TokenLog.Step>, st: TokenLog.State,
                                    answer: Answer, n: nat)
    returns (steps': seq<TokenLog.Step>, st': TokenLog.State)
    requires TokenLog.Reach(|log|, steps) == Some(st) && Follows(log, st) && st.next == Some(answer.start)
    requires Sends(log, answer.frames, answer.start) && n <= |answer.frames| && forall e <- log :: e.token != ""
    ensures TokenLog.Reach(|log|, steps') == Some(st') && Follows(log, st')
    ensures st'.applied == st.applied + TokenLog.From(answer.start, n) && st'.next == Some(answer.start + n)
    ensures TokenAt(origin, log, st'.token) == LastToken(TokenAt(origin, log, st.token), answer.frames[..n])
    ensures TokensBelow(answer, st.token) && TokenLog.ReplaysCarryTokens(|log|, steps) ==>
      TokenLog.ReplaysCarryTokens(|log|, steps') && (st'.token <= st.token || st'.token <= answer.start + n)
    decreases n
  {
    hide TokenLog.Reach, TokenLog.ReplaysCarryTokens;
    if n == 0 {
      return steps, st;
    }
    var before, s := Receives(origin, log, steps, st, answer, n - 1);
    var f := answer.frames[n - 1];
    var q := answer.start + n - 1;
    assert f in {log[q], log[q].(token := "")};
    steps' := TokenLog.Extend(|log|, before, TokenLog.Receive(f.token != ""), s);
    st' := TokenLog.After(s, TokenLog.Receive(f.token != ""));
    assert TokenLog.From(answer.start, n) == TokenLog.From(answer.start, n - 1) + [q];
    assert answer.frames[..n][..n - 1] == answer.frames[..n - 1];
    assert log[q] in log;
    if TokensBelow(answer, st.token) && TokenLog.ReplaysCarryTokens(|log|, steps) {
      TokenLog.ExtendTokened(|log|, before, TokenLog.Receive(f.token != ""), s);
    }
  }

  /** One connection: open, receive what was applied, close. */
  lemma Session(origin: string, log: seq<Frame>, steps: seq<TokenLog.Step>, st: TokenLog.State,
                answer: Answer, applied: nat)
    returns (steps': seq<TokenLog.Step>, st': TokenLog.State)
    requires TokenLog.Reach(|log|, steps) == Some(st) && Follows(log, st) && answer.start <= st.token
    requires Sends(log, answer.frames, answer.start) && applied <= |answer.frames| && forall e <- log :: e.token != ""
    ensures TokenLog.Reach(|log|, steps') == Some(st') && Follows(log, st')
    ensures st'.applied == st.applied + TokenLog.From(answer.start, applied)
    ensures TokenAt(origin, log, st'.token) == LastToken(TokenAt(origin, log, st.token), answer.frames[..applied])
    ensures TokensBelow(answer, st.token) && TokenLog.ReplaysCarryTokens(|log|, steps) ==>
      TokenLog.ReplaysCarryTokens(|log|, steps')
  {
    hide TokenLog.Reach, TokenLog.ReplaysCarryTokens, LastToken, TokensBelow;
    var open, s := TokenLog.Connect(answer.start), st.(next := Some(answer.start));
    var begun := TokenLog.Extend(|log|, steps, open, st);
    TokenLog.ExtendTokened(|log|, steps, open, st);
    var received, r := Receives(origin, log, begun, s, answer, applied);
    steps' := TokenLog.Extend(|log|, received, TokenLog.Disconnect, r);
    TokenLog.ExtendTokened(|log|, received, TokenLog.Disconnect, r);
    st' := r.(next := None);
  }

  /** At the high-water mark of a run whose replays carry tokens, the effects are those of the log so far. */
  lemma Converges(ts: set<Tuple>, log: seq<Frame>, steps: seq<TokenLog.Step>, st: TokenLog.State)
    requires TokenLog.Reach(|log|, steps) == Some(st) && Follows(log, st) && TokenLog.AtHighWater(st)
    requires TokenLog.ReplaysCarryTokens(|log|, steps)
    ensures TokenLog.High(st.applied) <= |log|
    ensures Effects(ts, Entries(log, st.applied)) == Effects(ts, log[..TokenLog.High(st.applied)])
  {
    hide TokenLog.Reach, TokenLog.ReplaysCarryTokens, TokenLog.Fold, TokenLog.High, MutationOf;
    TokenLog.ReplicaMatchesLog(ts, Mutations(log), steps);
    EntriesAre(ts, log, st.applied);
    var h := TokenLog.High(st.applied);
    assert Mutations(log[..h]) == Mutations(log)[..h];
  }
}
