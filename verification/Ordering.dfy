/** The full-key tuple order and sorted listings of tuple bags (zanzibar/store/store.go, insertBoundedPageTuple). */
module Ordering {
  import opened AuthModel

  predicate StringLess(a: string, b: string) {
    b != "" && (a == "" || a[0] < b[0] || (a[0] == b[0] && StringLess(a[1..], b[1..])))
  }

  function Fields(t: Tuple): seq<string> {
    [t.objectType, t.objectID, t.relation, t.userType, t.userID, t.userRelation]
  }

  /** The first field that differs decides. */
  predicate FieldsLess(a: seq<string>, b: seq<string>)
    requires |a| == |b|
  {
    a != [] && if a[0] != b[0] then StringLess(a[0], b[0]) else FieldsLess(a[1..], b[1..])
  }

  predicate TupleLess(a: Tuple, b: Tuple) {
    FieldsLess(Fields(a), Fields(b))
  }

  /** b continues a, or the two part company at k with a's character the smaller. */
  ghost predicate PartsAt(a: string, b: string, k: nat) {
    k <= |a| && k < |b| && a[..k] == b[..k] && (k == |a| || a[k] < b[k])
  }

  lemma SamePrefixHead<T>(a: seq<T>, b: seq<T>, k: nat)
    requires k <= |a| && k <= |b| && a[..k] == b[..k]
    ensures k == 0 || a[0] == b[0]
  {
    if k > 0 { assert a[..k][0] == b[..k][0]; }
  }

  lemma {:induction false} StringLessByFirstDifference(a: string, b: string)
    ensures StringLess(a, b) <==> exists k: nat :: PartsAt(a, b, k)
    decreases |a|
  {
    forall k: nat | PartsAt(a, b, k) ensures k == 0 || a[0] == b[0] { SamePrefixHead(a, b, k); }
    if a != "" && b != "" && a[0] == b[0] {
      StringLessByFirstDifference(a[1..], b[1..]);
      assert a == [a[0]] + a[1..] && b == [b[0]] + b[1..];
      if k: nat :| PartsAt(a[1..], b[1..], k) {
        assert a[..k + 1] == [a[0]] + a[1..][..k] && b[..k + 1] == [b[0]] + b[1..][..k];
        assert PartsAt(a, b, k + 1);
      }
      if k: nat :| PartsAt(a, b, k) {
        assert k > 0;
        assert a[1..][..k - 1] == a[..k][1..] && b[1..][..k - 1] == b[..k][1..];
        assert PartsAt(a[1..], b[1..], k - 1);
      }
    } else if b != "" && (a == "" || a[0] < b[0]) {
      assert PartsAt(a, b, 0);
    }
  }

  /** After a common front the smaller character decides, and the front alone comes first. */
  lemma {:induction false} StringOrder(front: string, c: char, x: string, d: char, y: string)
    ensures c != d ==> (StringLess(front + [c] + x, front + [d] + y) <==> c < d)
    ensures StringLess(front, front + [c] + x) && !StringLess(front + [c] + x, front)
    decreases |front|
  {
    var a, b := front + [c] + x, front + [d] + y;
    if front != "" {
      StringOrder(front[1..], c, x, d, y);
      assert front == [front[0]] + front[1..];
      assert a[1..] == front[1..] + [c] + x && b[1..] == front[1..] + [d] + y;
    }
  }

  /** Fields agree before k, and field k is the smaller. */
  ghost predicate DecidedAt(a: seq<string>, b: seq<string>, k: nat) {
    k < |a| && k < |b| && a[..k] == b[..k] && a[k] != b[k] && StringLess(a[k], b[k])
  }

  lemma {:induction false} FieldsLessByFirstDifference(a: seq<string>, b: seq<string>)
    requires |a| == |b|
    ensures FieldsLess(a, b) <==> exists k: nat :: DecidedAt(a, b, k)
    decreases |a|
  {
    hide StringLess;
    forall k: nat | DecidedAt(a, b, k) ensures k == 0 || a[0] == b[0] { SamePrefixHead(a, b, k); }
    if a != [] && a[0] == b[0] {
      FieldsLessByFirstDifference(a[1..], b[1..]);
      assert a == [a[0]] + a[1..] && b == [b[0]] + b[1..];
      if k: nat :| DecidedAt(a[1..], b[1..], k) {
        assert a[..k + 1] == [a[0]] + a[1..][..k] && b[..k + 1] == [b[0]] + b[1..][..k];
        assert DecidedAt(a, b, k + 1);
      }
      if k: nat :| DecidedAt(a, b, k) {
        assert k > 0;
        assert a[1..][..k - 1] == a[..k][1..] && b[1..][..k - 1] == b[..k][1..];
        assert DecidedAt(a[1..], b[1..], k - 1);
      }
    } else if a != [] {
      if StringLess(a[0], b[0]) { assert DecidedAt(a, b, 0); }
    }
  }

  lemma {:induction false} StringTotal(a: string, b: string)
    ensures a != b ==> (StringLess(a, b) <==> !StringLess(b, a))
    ensures !StringLess(a, a)
    decreases |a|
  {
    if a != "" { StringTotal(a[1..], a[1..]); }
    if a != "" && b != "" {
      StringTotal(a[1..], b[1..]);
      assert a == [a[0]] + a[1..] && b == [b[0]] + b[1..];
    }
  }

  lemma {:induction false} StringTransitive(a: string, b: string, c: string)
    requires StringLess(a, b) && StringLess(b, c)
    ensures StringLess(a, c)
    decreases |a|
  {
    if a != "" && a[0] == b[0] == c[0] { StringTransitive(a[1..], b[1..], c[1..]); }
  }

  lemma {:induction false} FieldsTotal(a: seq<string>, b: seq<string>)
    requires |a| == |b|
    ensures a != b ==> (FieldsLess(a, b) <==> !FieldsLess(b, a))
    ensures !FieldsLess(a, a)
    decreases |a|
  {
    if a != [] {
      StringTotal(a[0], b[0]);
      FieldsTotal(a[1..], b[1..]);
      FieldsTotal(a[1..], a[1..]);
      assert a == [a[0]] + a[1..] && b == [b[0]] + b[1..];
    }
  }

  lemma {:induction false} FieldsTransitive(a: seq<string>, b: seq<string>, c: seq<string>)
    requires |a| == |b| == |c| && FieldsLess(a, b) && FieldsLess(b, c)
    ensures FieldsLess(a, c)
    decreases |a|
  {
    if a[0] == b[0] == c[0] {
      FieldsTransitive(a[1..], b[1..], c[1..]);
    } else if a[0] != b[0] && b[0] != c[0] {
      StringTransitive(a[0], b[0], c[0]);
      StringTotal(a[0], a[0]);
      StringTotal(b[0], a[0]);
    }
  }

  /** TupleLess is a strict total order whose only equals are equal tuples. */
  lemma TupleLessIsTotalOrder()
    ensures forall a {:trigger TupleLess(a, a)} :: !TupleLess(a, a)
    ensures forall a, b {:trigger TupleLess(a, b)} :: a != b ==> (TupleLess(a, b) <==> !TupleLess(b, a))
    ensures forall a, b, c {:trigger TupleLess(a, b), TupleLess(b, c)} ::
      TupleLess(a, b) && TupleLess(b, c) ==> TupleLess(a, c)
  {
    forall a ensures !TupleLess(a, a) { FieldsTotal(Fields(a), Fields(a)); }
    forall a, b | a != b ensures TupleLess(a, b) <==> !TupleLess(b, a) {
      assert Fields(a) != Fields(b) by {
        var x, y := Fields(a), Fields(b);
        assert x[0] != y[0] || x[1] != y[1] || x[2] != y[2] || x[3] != y[3] || x[4] != y[4] || x[5] != y[5];
      }
      FieldsTotal(Fields(a), Fields(b));
    }
    forall a, b, c | TupleLess(a, b) && TupleLess(b, c) ensures TupleLess(a, c) {
      FieldsTransitive(Fields(a), Fields(b), Fields(c));
    }
  }

  /** By the tuples' own fields: object type, object ID, relation, user type, user ID, user relation, in that order. */
  lemma TupleLessByFields(a: Tuple, b: Tuple)
    ensures TupleLess(a, b) <==>
      if a.objectType != b.objectType then StringLess(a.objectType, b.objectType)
      else if a.objectID != b.objectID then StringLess(a.objectID, b.objectID)
      else if a.relation != b.relation then StringLess(a.relation, b.relation)
      else if a.userType != b.userType then StringLess(a.userType, b.userType)
      else if a.userID != b.userID then StringLess(a.userID, b.userID)
      else a.userRelation != b.userRelation && StringLess(a.userRelation, b.userRelation)
  {
    hide StringLess;
    var x, y := Fields(a), Fields(b);
    DropEqual(x, y, 1);
    DropEqual(x, y, 2);
    DropEqual(x, y, 3);
    DropEqual(x, y, 4);
    DropEqual(x, y, 5);
    DropEqual(x, y, 6);
  }

  /** Equal leading fields do not matter. */
  lemma {:induction false} DropEqual(x: seq<string>, y: seq<string>, n: nat)
    requires |x| == |y| && n <= |x|
    ensures x[..n] == y[..n] ==> (FieldsLess(x, y) <==> FieldsLess(x[n..], y[n..]))
    decreases n
  {
    hide StringLess;
    if n == 0 {
      assert x[0..] == x && y[0..] == y;
    } else if x[..n] == y[..n] {
      assert x[..n][..n - 1] == x[..n - 1] && y[..n][..n - 1] == y[..n - 1];
      DropEqual(x, y, n - 1);
      assert x[n - 1] == x[..n][n - 1] == y[..n][n - 1] == y[n - 1];
      assert x[n - 1..][1..] == x[n..] && y[n - 1..][1..] == y[n..];
    }
  }

  /** Rows in order come grouped by object type, and within one by object ID. */
  lemma SortedGroups(s: seq<Tuple>)
    requires Sorted(s)
    ensures forall i, j | 0 <= i < j < |s| ::
      && !StringLess(s[j].objectType, s[i].objectType)
      && (s[i].objectType == s[j].objectType ==> !StringLess(s[j].objectID, s[i].objectID))
  {
    hide StringLess, TupleLess;
    forall i, j | 0 <= i < j < |s|
      ensures !StringLess(s[j].objectType, s[i].objectType)
      ensures s[i].objectType == s[j].objectType ==> !StringLess(s[j].objectID, s[i].objectID)
    {
      TupleLessByFields(s[j], s[i]);
      StringTotal(s[i].objectType, s[i].objectType);
      StringTotal(s[i].objectID, s[i].objectID);
    }
  }

  lemma LessAsymmetric(a: Tuple, b: Tuple)
    requires TupleLess(a, b)
    ensures !TupleLess(b, a) && a != b
  {
    TupleLessIsTotalOrder();
  }

  lemma LessAsymmetricOr(a: Tuple, b: Tuple)
    ensures !TupleLess(a, a) && (a == b || TupleLess(a, b) || TupleLess(b, a))
  {
    TupleLessIsTotalOrder();
  }

  lemma LessNotMore(a: Tuple, b: Tuple, c: Tuple)
    requires TupleLess(a, b) && !TupleLess(c, b)
    ensures TupleLess(a, c)
  {
    TupleLessIsTotalOrder();
  }

  lemma NotMoreLess(a: Tuple, b: Tuple, c: Tuple)
    requires !TupleLess(b, a) && TupleLess(b, c)
    ensures TupleLess(a, c)
  {
    TupleLessIsTotalOrder();
  }

  ghost predicate Sorted(s: seq<Tuple>) {
    forall i, j | 0 <= i < j < |s| :: !TupleLess(s[j], s[i])
  }

  ghost predicate Increasing(s: seq<Tuple>) {
    forall i, j | 0 <= i < j < |s| :: TupleLess(s[i], s[j])
  }

  /** Where t goes: behind everything smaller. */
  function Position(s: seq<Tuple>, t: Tuple): (p: nat)
    ensures p <= |s|
    ensures forall i | 0 <= i < p :: TupleLess(s[i], t)
    ensures p < |s| ==> !TupleLess(s[p], t)
  {
    if s == [] || !TupleLess(s[0], t) then 0 else 1 + Position(s[1..], t)
  }

  function InsertSorted(s: seq<Tuple>, t: Tuple): seq<Tuple> {
    var p := Position(s, t);
    s[..p] + [t] + s[p..]
  }

  lemma InsertBag(s: seq<Tuple>, t: Tuple)
    ensures multiset(InsertSorted(s, t)) == multiset(s) + multiset{t}
  {
    hide Position;
    var p := Position(s, t);
    assert s == s[..p] + s[p..];
  }

  lemma InsertKeepsSorted(s: seq<Tuple>, t: Tuple)
    requires Sorted(s)
    ensures Sorted(InsertSorted(s, t))
  {
    hide TupleLess, Position;
    var p, r := Position(s, t), InsertSorted(s, t);
    forall k | p <= k < |s| ensures !TupleLess(s[k], t) {
      if k > p && TupleLess(s[k], t) { NotMoreLess(s[p], s[k], t); }
    }
    forall k | 0 <= k < p ensures !TupleLess(t, s[k]) { LessAsymmetric(s[k], t); }
    forall i, j | 0 <= i < j < |r| ensures !TupleLess(r[j], r[i]) {
      assert r[i] == if i < p then s[i] else if i == p then t else s[i - 1];
      assert r[j] == if j < p then s[j] else if j == p then t else s[j - 1];
    }
  }

  lemma SameHead(a: seq<Tuple>, b: seq<Tuple>)
    requires Sorted(a) && Sorted(b) && a != [] && b != [] && a[0] in b && b[0] in a
    ensures a[0] == b[0]
  {
    hide TupleLess;
    var i :| 0 <= i < |a| && a[i] == b[0];
    var j :| 0 <= j < |b| && b[j] == a[0];
    LessAsymmetricOr(a[0], b[0]);
    LessAsymmetricOr(b[0], a[0]);
  }

  lemma TailBag(s: seq<Tuple>)
    requires s != []
    ensures s == [s[0]] + s[1..] && multiset(s[1..]) == multiset(s) - multiset{s[0]}
  {
    assert s == [s[0]] + s[1..];
  }

  /** A sorted sequence is determined by its elements. */
  lemma {:induction false} SortedUnique(a: seq<Tuple>, b: seq<Tuple>)
    requires Sorted(a) && Sorted(b) && multiset(a) == multiset(b)
    ensures a == b
  {
    hide TupleLess;
    assert |multiset(a)| == |a| && |multiset(b)| == |b|;
    if a != [] {
      assert a[0] in multiset(b) && b[0] in multiset(a);
      SameHead(a, b);
      TailBag(a);
      TailBag(b);
      SortedUnique(a[1..], b[1..]);
    }
  }

  /** The sorted sequence of a bag. */
  ghost function Listing(bag: multiset<Tuple>): seq<Tuple>
    decreases |bag|
  {
    if bag == multiset{} then [] else
      var t :| t in bag;
      InsertSorted(Listing(bag - multiset{t}), t)
  }

  lemma NothingSorted()
    ensures Sorted([]) && Increasing([])
  {
  }

  lemma {:induction false} ListingSorts(bag: multiset<Tuple>)
    ensures Sorted(Listing(bag)) && multiset(Listing(bag)) == bag
    decreases |bag|
  {
    hide InsertSorted, Sorted;
    if bag == multiset{} {
      NothingSorted();
    } else {
      var t :| t in bag && Listing(bag) == InsertSorted(Listing(bag - multiset{t}), t);
      ListingSorts(bag - multiset{t});
      InsertBag(Listing(bag - multiset{t}), t);
      InsertKeepsSorted(Listing(bag - multiset{t}), t);
    }
  }

  function Take(n: nat, s: seq<Tuple>): seq<Tuple> {
    if |s| <= n then s else s[..n]
  }

  /** Only the capacity smallest ever matter. */
  lemma TakeOfInsert(capacity: nat, s: seq<Tuple>, t: Tuple)
    requires Sorted(s)
    ensures Take(capacity, InsertSorted(Take(capacity, s), t)) == Take(capacity, InsertSorted(s, t))
  {
    hide TupleLess;
    var front := Take(capacity, s);
    var p, q := Position(s, t), Position(front, t);
    assert forall i | 0 <= i < |front| :: front[i] == s[i];
    assert q == if p < |front| then p else |front|;
    var l, r := InsertSorted(front, t), InsertSorted(s, t);
    forall i | 0 <= i < capacity && i < |r| ensures i < |l| && l[i] == r[i] {
      assert r[i] == if i < p then s[i] else if i == p then t else s[i - 1];
    }
  }

  /** The elements keep selects, in order. */
  function Select(s: seq<Tuple>, keep: Tuple -> bool): seq<Tuple> {
    if s == [] then [] else (if keep(s[0]) then [s[0]] else []) + Select(s[1..], keep)
  }

  lemma {:induction false} SelectCounts(s: seq<Tuple>, keep: Tuple -> bool)
    ensures forall t :: multiset(Select(s, keep))[t] == if keep(t) then multiset(s)[t] else 0
  {
    if s != [] {
      assert s == [s[0]] + s[1..];
      SelectCounts(s[1..], keep);
    }
  }

  lemma SelectMembers(s: seq<Tuple>, keep: Tuple -> bool)
    ensures forall t :: t in Select(s, keep) <==> t in s && keep(t)
  {
    SelectCounts(s, keep);
    assert forall t :: t in s <==> t in multiset(s);
    assert forall t :: t in Select(s, keep) <==> t in multiset(Select(s, keep));
  }

  lemma HeadFirst(s: seq<Tuple>, t: Tuple)
    requires s != [] && t in s[1..]
    ensures Sorted(s) ==> !TupleLess(t, s[0])
    ensures Increasing(s) ==> TupleLess(s[0], t)
  {
    hide TupleLess;
    var j :| 0 <= j < |s[1..]| && s[1..][j] == t;
    assert s[1..][j] == s[j + 1];
  }

  lemma TailSorted(s: seq<Tuple>)
    requires s != []
    ensures Sorted(s) ==> Sorted(s[1..])
    ensures Increasing(s) ==> Increasing(s[1..])
  {
    hide TupleLess;
  }

  lemma PrependSorted(t: Tuple, s: seq<Tuple>)
    ensures Sorted(s) && (forall u <- s :: !TupleLess(u, t)) ==> Sorted([t] + s)
    ensures Increasing(s) && (forall u <- s :: TupleLess(t, u)) ==> Increasing([t] + s)
  {
    hide TupleLess;
  }

  lemma {:induction false} SelectSorted(s: seq<Tuple>, keep: Tuple -> bool)
    requires Sorted(s)
    ensures Sorted(Select(s, keep))
    ensures Increasing(s) ==> Increasing(Select(s, keep))
  {
    hide TupleLess, Sorted, Increasing;
    if s != [] {
      TailSorted(s);
      SelectSorted(s[1..], keep);
      SelectMembers(s[1..], keep);
      var rest := Select(s[1..], keep);
      forall u | u in rest ensures !TupleLess(u, s[0]) && (Increasing(s) ==> TupleLess(s[0], u)) { HeadFirst(s, u); }
      PrependSorted(s[0], rest);
      assert [] + rest == rest;
    } else {
      NothingSorted();
    }
  }

  /** How many leading elements do not come after a. */
  function Passed(s: seq<Tuple>, a: Tuple): (p: nat)
    ensures p <= |s|
    ensures forall i | 0 <= i < p :: !TupleLess(a, s[i])
    ensures p < |s| ==> TupleLess(a, s[p])
  {
    if s == [] || TupleLess(a, s[0]) then 0 else 1 + Passed(s[1..], a)
  }

  /** The part of a sorted sequence that lies strictly after a. */
  function After(s: seq<Tuple>, a: Tuple): seq<Tuple> {
    s[Passed(s, a)..]
  }

  lemma AfterIsRest(s: seq<Tuple>, a: Tuple)
    requires Sorted(s)
    ensures forall t :: multiset(After(s, a))[t] == if TupleLess(a, t) then multiset(s)[t] else 0
    ensures Sorted(After(s, a)) && (Increasing(s) ==> Increasing(After(s, a)))
  {
    hide TupleLess;
    var p := Passed(s, a);
    assert s == s[..p] + s[p..];
    forall i | p <= i < |s| ensures TupleLess(a, s[i]) {
      if i > p { LessNotMore(a, s[p], s[i]); }
    }
    forall t ensures multiset(s[p..])[t] == if TupleLess(a, t) then multiset(s)[t] else 0 {
      if TupleLess(a, t) { assert t !in s[..p]; } else { assert t !in s[p..]; }
    }
  }

  /** The first n of a sorted sequence and what lies strictly after them make up all of it, up to repetition. */
  lemma SplitAt(s: seq<Tuple>, n: nat)
    requires Sorted(s) && 0 < n < |s|
    ensures
      var rest := After(s, s[n - 1]);
      && |rest| <= |s| - n
      && (forall t :: t in s <==> t in s[..n] || t in rest)
      && (forall t, u | t in s[..n] && u in rest :: TupleLess(t, u))
      && (Increasing(s) ==> rest == s[n..])
  {
    hide TupleLess;
    var a := s[n - 1];
    var p := Passed(s, a);
    assert !TupleLess(a, a) by { TupleLessIsTotalOrder(); }
    assert p >= n;
    forall i | n <= i < p ensures s[i] == a { TupleLessIsTotalOrder(); assert !TupleLess(s[i], a); }
    forall i, j | 0 <= i < n && p <= j < |s| ensures TupleLess(s[i], s[j]) {
      if j > p { LessNotMore(a, s[p], s[j]); }
      if i < n - 1 { NotMoreLess(s[i], a, s[j]); }
    }
    forall t | t in s ensures t in s[..n] || t in s[p..] {
      var i :| 0 <= i < |s| && s[i] == t;
      if n <= i < p { assert t == s[..n][n - 1]; }
      else if i < n { assert t == s[..n][i]; }
      else { assert t == s[p..][i - p]; }
    }
    if Increasing(s) {
      assert TupleLess(a, s[n]);
      assert p == n;
    }
  }
}
