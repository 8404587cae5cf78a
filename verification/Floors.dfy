/** Holder floors over whole runs of writes and deletes, and exactly when they hold (zanzibar/zanzibar.go). */
module Floors {
  import opened AuthModel
  import opened Keys
  import opened Store

  /** u is a direct holder of relation r on object ot:id. */
  predicate IsHolder(u: Tuple, ot: string, id: string, r: string) {
    u.objectType == ot && u.objectID == id && u.relation == r && u.userRelation == ""
  }

  function Holders(ts: set<Tuple>, ot: string, id: string, r: string): set<Tuple> {
    set u | u in ts && IsHolder(u, ot, id, r)
  }

  ghost predicate Guarded(m: Option<Model>, t: Tuple) {
    MinHolders(m, t.objectType, t.relation) >= 1 && t.userRelation == ""
  }

  ghost predicate Present(ts: set<Tuple>, t: Tuple) {
    exists u <- ts :: SameSlot(u, t)
  }

  /** Whether a delete of t is refused, as the store decides it: by bucket. */
  ghost predicate Refused(m: Option<Model>, ts: set<Tuple>, t: Tuple) {
    Guarded(m, t) && Present(ts, t)
    && |HoldersInBucket(ts, SlotKey(t))| <= MinHolders(m, t.objectType, t.relation)
  }

  ghost function Deleted(m: Option<Model>, ts: set<Tuple>, t: Tuple): set<Tuple> {
    if Refused(m, ts, t) then ts else Evict(ts, t)
  }

  /** One engine call on the store: a write, a delete, or a call that failed. */
  ghost predicate Step(m: Option<Model>, before: set<Tuple>, after: set<Tuple>, t: Tuple) {
    after == before || after == Overwrite(before, t) || after == Deleted(m, before, t)
  }

  ghost predicate Over(ts: set<Tuple>, vocabulary: iset<Tuple>) {
    forall t <- ts :: t in vocabulary
  }

  /** Any interleaving of writes, raw writes and deletes of tuples of the vocabulary, under one model. */
  ghost predicate Run(m: Option<Model>, vocabulary: iset<Tuple>, states: seq<set<Tuple>>, ops: seq<Tuple>) {
    && |states| == |ops| + 1 && OnePerSlot(states[0]) && Over(states[0], vocabulary)
    && (forall i | 0 <= i < |ops| :: ops[i] in vocabulary && Step(m, states[i], states[i + 1], ops[i]))
  }

  /** Once the object has as many direct holders as its floor asks for it always does, in every run. */
  ghost predicate FloorKept(m: Option<Model>, vocabulary: iset<Tuple>, ot: string, id: string, r: string) {
    forall states, ops, i: nat, j: nat | Run(m, vocabulary, states, ops) && i <= j < |states|
      && |Holders(states[i], ot, id, r)| >= MinHolders(m, ot, r) ::
      |Holders(states[j], ot, id, r)| >= MinHolders(m, ot, r)
  }

  /** Not a holder, yet counted as one by the bucket or sitting in a holder's slot. */
  ghost predicate Intruder(u: Tuple, vocabulary: iset<Tuple>, ot: string, id: string, r: string) {
    && u in vocabulary && !IsHolder(u, ot, id, r)
    && (|| (SlotKey(u) == ObjectRelationKey(ot, id, r) && u.userRelation == "")
        || exists h <- vocabulary :: IsHolder(h, ot, id, r) && SameSlot(u, h))
  }

  ghost predicate Attainable(vocabulary: iset<Tuple>, ot: string, id: string, r: string, floor: nat) {
    exists ts: set<Tuple> :: OnePerSlot(ts) && Over(ts, vocabulary) && |Holders(ts, ot, id, r)| >= floor
  }

  ghost predicate Breachable(m: Option<Model>, vocabulary: iset<Tuple>, ot: string, id: string, r: string) {
    && MinHolders(m, ot, r) >= 1 && Attainable(vocabulary, ot, id, r, MinHolders(m, ot, r))
    && exists u :: Intruder(u, vocabulary, ot, id, r)
  }

  // ---- without intruders ----

  lemma Subset(a: set<Tuple>, b: set<Tuple>)
    requires a <= b
    ensures |a| <= |b|
  {
    assert b == a + (b - a);
  }

  lemma HolderSlotKey(h: Tuple, ot: string, id: string, r: string)
    requires IsHolder(h, ot, id, r)
    ensures SlotKey(h) == ObjectRelationKey(ot, id, r)
  {
  }

  /** Emptying one slot costs at most one holder, and none unless a holder sits there. */
  lemma SlotCostsOne(ts: set<Tuple>, t: Tuple, ot: string, id: string, r: string)
    requires OnePerSlot(ts)
    ensures
      var had, has := Holders(ts, ot, id, r), Holders(Evict(ts, t), ot, id, r);
      && has <= had && |had| - 1 <= |has|
      && (has == had <==> forall h <- had :: !SameSlot(h, t))
      && (has != had ==> |has| == |had| - 1)
  {
    hide SlotKey, TupleKey;
    var had, has := Holders(ts, ot, id, r), Holders(Evict(ts, t), ot, id, r);
    if h :| h in had && SameSlot(h, t) {
      assert has == had - {h};
      assert |has| == |had| - 1;
    } else {
      assert has == had;
    }
  }

  /** A write to a holder's slot by a tuple that is no holder removes exactly that holder, whatever the floor. */
  lemma WriteTakesSlot(ts: set<Tuple>, u: Tuple, h: Tuple, ot: string, id: string, r: string)
    requires OnePerSlot(ts) && h in Holders(ts, ot, id, r) && SameSlot(u, h) && !IsHolder(u, ot, id, r)
    ensures |Holders(Overwrite(ts, u), ot, id, r)| == |Holders(ts, ot, id, r)| - 1
  {
    hide SlotKey, TupleKey;
    SlotCostsOne(ts, u, ot, id, r);
    assert SameSlot(h, u);
    assert Holders(Overwrite(ts, u), ot, id, r) == Holders(Evict(ts, u), ot, id, r);
  }

  lemma WriteKeepsFloor(vocabulary: iset<Tuple>, ts: set<Tuple>, t: Tuple, ot: string, id: string, r: string)
    requires OnePerSlot(ts) && Over(ts, vocabulary) && t in vocabulary
    requires forall u :: !Intruder(u, vocabulary, ot, id, r)
    ensures |Holders(Overwrite(ts, t), ot, id, r)| >= |Holders(ts, ot, id, r)|
  {
    hide SlotKey, TupleKey;
    SlotCostsOne(ts, t, ot, id, r);
    var had, left := Holders(ts, ot, id, r), Holders(Evict(ts, t), ot, id, r);
    var has := Holders(Overwrite(ts, t), ot, id, r);
    if IsHolder(t, ot, id, r) {
      assert SameSlot(t, t) && t !in left && has == left + {t};
    } else {
      assert !Intruder(t, vocabulary, ot, id, r);
      forall h | h in had ensures !SameSlot(h, t) { assert h in vocabulary; }
      assert has == left;
    }
  }

  lemma DeleteKeepsFloor(m: Option<Model>, vocabulary: iset<Tuple>, ts: set<Tuple>, t: Tuple,
                         ot: string, id: string, r: string)
    requires OnePerSlot(ts) && Over(ts, vocabulary) && t in vocabulary
    requires forall u :: !Intruder(u, vocabulary, ot, id, r)
    requires |Holders(ts, ot, id, r)| >= MinHolders(m, ot, r)
    ensures |Holders(Deleted(m, ts, t), ot, id, r)| >= MinHolders(m, ot, r)
  {
    hide SlotKey, TupleKey, ObjectRelationKey;
    SlotCostsOne(ts, t, ot, id, r);
    var had := Holders(ts, ot, id, r);
    if MinHolders(m, ot, r) >= 1 && !Refused(m, ts, t) && exists h <- had :: SameSlot(h, t) {
      var h :| h in had && SameSlot(h, t);
      assert h in vocabulary && SameSlot(t, h);
      assert !Intruder(t, vocabulary, ot, id, r);
      HolderSlotKey(t, ot, id, r);
      var bucket := HoldersInBucket(ts, SlotKey(t));
      forall b | b in bucket ensures b in had { assert !Intruder(b, vocabulary, ot, id, r); }
      Subset(bucket, had);
    }
  }

  lemma StepStaysIndexed(m: Option<Model>, vocabulary: iset<Tuple>, before: set<Tuple>, after: set<Tuple>, t: Tuple)
    requires OnePerSlot(before) && Over(before, vocabulary) && t in vocabulary && Step(m, before, after, t)
    ensures OnePerSlot(after) && Over(after, vocabulary)
  {
    hide SlotKey, TupleKey, Refused;
  }

  /** One write or delete keeps the floor of every object that no tuple of the vocabulary intrudes on. */
  lemma StepKeepsFloor(m: Option<Model>, vocabulary: iset<Tuple>, before: set<Tuple>, after: set<Tuple>, t: Tuple,
                       ot: string, id: string, r: string)
    requires OnePerSlot(before) && Over(before, vocabulary) && t in vocabulary && Step(m, before, after, t)
    requires !Breachable(m, vocabulary, ot, id, r)
    requires |Holders(before, ot, id, r)| >= MinHolders(m, ot, r)
    ensures |Holders(after, ot, id, r)| >= MinHolders(m, ot, r)
  {
    hide Holders, Overwrite, Deleted, Over, OnePerSlot, Intruder;
    if MinHolders(m, ot, r) >= 1 && after != before {
      assert Attainable(vocabulary, ot, id, r, MinHolders(m, ot, r));
      if after == Overwrite(before, t) {
        WriteKeepsFloor(vocabulary, before, t, ot, id, r);
      } else {
        DeleteKeepsFloor(m, vocabulary, before, t, ot, id, r);
      }
    }
  }

  lemma {:induction false} RunStaysIndexed(m: Option<Model>, vocabulary: iset<Tuple>,
                                           states: seq<set<Tuple>>, ops: seq<Tuple>, i: nat)
    requires Run(m, vocabulary, states, ops) && i < |states|
    ensures OnePerSlot(states[i]) && Over(states[i], vocabulary)
  {
    hide OnePerSlot, Over, Step;
    if i > 0 {
      RunStaysIndexed(m, vocabulary, states, ops, i - 1);
      StepStaysIndexed(m, vocabulary, states[i - 1], states[i], ops[i - 1]);
    }
  }

  lemma {:induction false} FloorHoldsForever(m: Option<Model>, vocabulary: iset<Tuple>,
                                             states: seq<set<Tuple>>, ops: seq<Tuple>,
                                             i: nat, j: nat, ot: string, id: string, r: string)
    requires Run(m, vocabulary, states, ops) && i <= j < |states| && !Breachable(m, vocabulary, ot, id, r)
    requires |Holders(states[i], ot, id, r)| >= MinHolders(m, ot, r)
    ensures |Holders(states[j], ot, id, r)| >= MinHolders(m, ot, r)
    decreases j - i
  {
    hide OnePerSlot, Over, Step, Breachable;
    if i < j {
      RunStaysIndexed(m, vocabulary, states, ops, i);
      StepKeepsFloor(m, vocabulary, states[i], states[i + 1], ops[i], ot, id, r);
      FloorHoldsForever(m, vocabulary, states, ops, i + 1, j, ot, id, r);
    }
  }

  // ---- with an intruder ----

  lemma {:induction false} SomeOf(a: set<Tuple>, n: nat) returns (b: set<Tuple>)
    requires n <= |a|
    ensures b <= a && |b| == n
  {
    if |a| == n { return a; }
    var x :| x in a;
    b := SomeOf(a - {x}, n);
  }

  /** Exactly floor holders, one of them in h's slot. */
  lemma HoldersWithSlot(vocabulary: iset<Tuple>, ts: set<Tuple>, h: Tuple, ot: string, id: string, r: string, n: nat)
    returns (hs: set<Tuple>, x: Tuple)
    requires OnePerSlot(ts) && Over(ts, vocabulary) && n >= 1 && |Holders(ts, ot, id, r)| >= n
    requires h in vocabulary && IsHolder(h, ot, id, r)
    ensures OnePerSlot(hs) && Over(hs, vocabulary) && |hs| == n && Holders(hs, ot, id, r) == hs
    ensures x in hs && SameSlot(x, h)
  {
    hide SlotKey, TupleKey;
    hs := SomeOf(Holders(ts, ot, id, r), n);
    if y :| y in hs && SameSlot(y, h) {
      x := y;
    } else {
      var y :| y in hs;
      hs := hs - {y} + {h};
      x := h;
      assert SameSlot(h, h);
    }
    assert Holders(hs, ot, id, r) == hs;
  }

  /** With an intruder beside them in the bucket, one of exactly floor holders can be deleted. */
  lemma AddedIntruder(m: Option<Model>, hs: set<Tuple>, u: Tuple, x: Tuple, ot: string, id: string, r: string)
    requires OnePerSlot(hs) && Holders(hs, ot, id, r) == hs && |hs| == MinHolders(m, ot, r) && x in hs
    requires SlotKey(u) == ObjectRelationKey(ot, id, r) && u.userRelation == "" && !IsHolder(u, ot, id, r)
    requires forall y <- hs :: !SameSlot(u, y)
    ensures |Holders(Deleted(m, Overwrite(hs, u), x), ot, id, r)| == |hs| - 1
  {
    forall y | y in hs ensures SlotKey(y) == ObjectRelationKey(ot, id, r) {
      assert y in Holders(hs, ot, id, r);
      HolderSlotKey(y, ot, id, r);
    }
    hide SlotKey, TupleKey, ObjectRelationKey;
    var written := Overwrite(hs, u);
    assert written == hs + {u} && u !in hs;
    var bucket := HoldersInBucket(written, SlotKey(x));
    assert x in Holders(hs, ot, id, r);
    assert bucket == written;
    assert |written| == |hs| + 1;
    assert !Refused(m, written, x);
    assert SameSlot(x, x) && !SameSlot(u, x);
    assert OnePerSlot(written);
    SlotCostsOne(written, x, ot, id, r);
    assert Holders(written, ot, id, r) == hs;
  }

  /** Write the intruder; if that took no holder's slot, delete a holder that the bucket count no longer protects. */
  lemma IntruderBreaches(m: Option<Model>, vocabulary: iset<Tuple>, ot: string, id: string, r: string)
    requires Breachable(m, vocabulary, ot, id, r)
    ensures !FloorKept(m, vocabulary, ot, id, r)
  {
    hide SlotKey, TupleKey, ObjectRelationKey, OnePerSlot, HoldersInBucket;
    var floor := MinHolders(m, ot, r);
    var u :| Intruder(u, vocabulary, ot, id, r);
    var ts: set<Tuple> :| OnePerSlot(ts) && Over(ts, vocabulary) && |Holders(ts, ot, id, r)| >= floor;
    var h :| h in Holders(ts, ot, id, r);
    if g :| g in vocabulary && IsHolder(g, ot, id, r) && SameSlot(u, g) { h := g; }
    var hs, x := HoldersWithSlot(vocabulary, ts, h, ot, id, r, floor);
    hide Over, Overwrite, Deleted;
    var written := Overwrite(hs, u);
    assert Over(hs, vocabulary) && x in vocabulary by { VocabularyMember(hs, vocabulary, x); }
    if y :| y in hs && SameSlot(u, y) {
      assert y in Holders(hs, ot, id, r);
      WriteTakesSlot(hs, u, y, ot, id, r);
      BreachShown(m, vocabulary, [hs, written], [u], 1, ot, id, r);
    } else {
      assert SlotKey(u) == ObjectRelationKey(ot, id, r) && u.userRelation == "";
      AddedIntruder(m, hs, u, x, ot, id, r);
      BreachShown(m, vocabulary, [hs, written, Deleted(m, written, x)], [u, x], 2, ot, id, r);
    }
  }

  lemma VocabularyMember(ts: set<Tuple>, vocabulary: iset<Tuple>, t: Tuple)
    requires Over(ts, vocabulary) && t in ts
    ensures t in vocabulary
  {
  }

  lemma BreachShown(m: Option<Model>, vocabulary: iset<Tuple>, states: seq<set<Tuple>>, ops: seq<Tuple>, j: nat,
                    ot: string, id: string, r: string)
    requires Run(m, vocabulary, states, ops) && j < |states|
    requires |Holders(states[0], ot, id, r)| >= MinHolders(m, ot, r) > |Holders(states[j], ot, id, r)|
    ensures !FloorKept(m, vocabulary, ot, id, r)
  {
    hide Run, Holders;
  }

  /** For every vocabulary, runs keep the object's floor exactly when it cannot be reached or nothing intrudes. */
  lemma FloorIsExact(m: Option<Model>, vocabulary: iset<Tuple>, ot: string, id: string, r: string)
    ensures FloorKept(m, vocabulary, ot, id, r) <==> !Breachable(m, vocabulary, ot, id, r)
  {
    hide Run, Holders, Breachable;
    if Breachable(m, vocabulary, ot, id, r) {
      IntruderBreaches(m, vocabulary, ot, id, r);
    } else {
      forall states, ops, i: nat, j: nat | Run(m, vocabulary, states, ops) && i <= j < |states|
        && |Holders(states[i], ot, id, r)| >= MinHolders(m, ot, r)
        ensures |Holders(states[j], ot, id, r)| >= MinHolders(m, ot, r)
      {
        FloorHoldsForever(m, vocabulary, states, ops, i, j, ot, id, r);
      }
    }
  }

  // ---- what the engine's text operations can do ----

  /** Among parsed tuples only a direct tuple of another object or relation in the same bucket intrudes. */
  lemma ParsedIntruder(u: Tuple, vocabulary: iset<Tuple>, ot: string, id: string, r: string)
    requires forall t <- vocabulary :: Parsed(t)
    ensures Intruder(u, vocabulary, ot, id, r) <==>
      && u in vocabulary && !IsHolder(u, ot, id, r)
      && SlotKey(u) == ObjectRelationKey(ot, id, r) && u.userRelation == ""
  {
    if Intruder(u, vocabulary, ot, id, r) {
      if h :| h in vocabulary && IsHolder(h, ot, id, r) && SameSlot(u, h) {
        SameSubject(u, h);
        HolderSlotKey(h, ot, id, r);
      }
    }
  }

  /** The parsed tuples, as one vocabulary: everything that WriteTuple, WriteRawTuple and DeleteTuple can be given. */
  ghost function AllParsed(): iset<Tuple> {
    iset t | Parsed(t)
  }

  /** n direct holders of one object and relation. */
  function Crowd(ot: string, id: string, r: string, userType: string, n: nat): set<Tuple> {
    set k | 0 <= k < n :: Tuple(ot, id, r, userType, Repeat(k), "")
  }

  lemma {:induction false} CrowdSize(ot: string, id: string, r: string, userType: string, n: nat)
    ensures |Crowd(ot, id, r, userType, n)| == n
  {
    if n > 0 {
      CrowdSize(ot, id, r, userType, n - 1);
      var last := Tuple(ot, id, r, userType, Repeat(n - 1), "");
      assert forall k: nat :: |Repeat(k)| == k;
      assert last !in Crowd(ot, id, r, userType, n - 1);
      assert Crowd(ot, id, r, userType, n) == Crowd(ot, id, r, userType, n - 1) + {last};
    }
  }

  lemma CrowdPlain(ot: string, id: string, r: string, userType: string, n: nat)
    requires ':' !in ot && ':' !in userType
    ensures
      var ts := Crowd(ot, id, r, userType, n);
      && OnePerSlot(ts) && Over(ts, AllParsed())
      && forall t <- ts :: IsHolder(t, ot, id, r) && t.userType == userType
  {
    hide SlotKey, TupleKey;
    var ts := Crowd(ot, id, r, userType, n);
    forall t | t in ts ensures Parsed(t) && IsHolder(t, ot, id, r) && t.userType == userType {
      var k :| 0 <= k < n && t == Tuple(ot, id, r, userType, Repeat(k), "");
    }
    forall t, u | t in ts && u in ts && SameSlot(t, u) ensures t == u { SameSubject(t, u); }
  }

  /** Any number of holders can be written for an object whose type parses. */
  lemma CrowdAttains(ot: string, id: string, r: string, n: nat)
    requires ':' !in ot
    ensures Attainable(AllParsed(), ot, id, r, n)
  {
    hide OnePerSlot, Over;
    var ts := Crowd(ot, id, r, "user", n);
    CrowdSize(ot, id, r, "user", n);
    CrowdPlain(ot, id, r, "user", n);
    assert Holders(ts, ot, id, r) == ts;
  }

  lemma Unnameable(ot: string, id: string, r: string, n: nat)
    requires ':' in ot && n >= 1
    ensures !Attainable(AllParsed(), ot, id, r, n)
  {
    forall ts: set<Tuple> | Over(ts, AllParsed()) ensures Holders(ts, ot, id, r) == {} {}
  }

  /**
   * With everything the engine's text operations can name, an object's floor is kept in every run exactly when there
   * is none, or its type cannot be named, or neither its ID nor the relation contains `#`.
   */
  lemma FloorKeptExactly(m: Option<Model>, ot: string, id: string, r: string)
    ensures FloorKept(m, AllParsed(), ot, id, r) <==>
      MinHolders(m, ot, r) == 0 || ':' in ot || ('#' !in id && '#' !in r)
  {
    hide FloorKept, Attainable, Intruder;
    var vocabulary := AllParsed();
    FloorIsExact(m, vocabulary, ot, id, r);
    if ':' in ot {
      if MinHolders(m, ot, r) >= 1 { Unnameable(ot, id, r, MinHolders(m, ot, r)); }
    } else {
      CrowdAttains(ot, id, r, MinHolders(m, ot, r));
      if '#' in id || '#' in r {
        var id', r' := OtherSplit(id, r);
        var u := Tuple(ot, id', r', "user", "u", "");
        SharedKey(u, ot, id, r);
        ParsedIntruder(u, vocabulary, ot, id, r);
      } else {
        forall u ensures !Intruder(u, vocabulary, ot, id, r) {
          ParsedIntruder(u, vocabulary, ot, id, r);
          if Intruder(u, vocabulary, ot, id, r) {
            OnlySplit(u.objectType, u.objectID, u.relation, ot, id, r);
            assert false;
          }
        }
      }
    }
  }

  // ---- the verdict by the object's own holders and the store's ----

  /** t is stored and its object has no more than the required holders. */
  ghost predicate AtFloor(m: Option<Model>, ts: set<Tuple>, t: Tuple) {
    Guarded(m, t) && t in ts
    && |Holders(ts, t.objectType, t.objectID, t.relation)| <= MinHolders(m, t.objectType, t.relation)
  }

  /** The bucket holds more than the object does, or another tuple sits in the slot. */
  ghost predicate Misjudged(m: Option<Model>, ts: set<Tuple>, t: Tuple) {
    var own, counted := Holders(ts, t.objectType, t.objectID, t.relation), HoldersInBucket(ts, SlotKey(t));
    var floor := MinHolders(m, t.objectType, t.relation);
    Guarded(m, t) && if t in ts then |own| <= floor < |counted| else Present(ts, t) && |counted| <= floor
  }

  /** On every tuple set the two verdicts differ exactly where the bucket misjudges. */
  lemma VerdictsDiffer(m: Option<Model>, ts: set<Tuple>, t: Tuple)
    ensures (AtFloor(m, ts, t) <==> Refused(m, ts, t)) <==> !Misjudged(m, ts, t)
  {
    hide TupleKey;
    SlotKeyIs(t);
    hide SlotKey, ObjectRelationKey;
    if t in ts { assert SameSlot(t, t); }
    var own, counted := Holders(ts, t.objectType, t.objectID, t.relation), HoldersInBucket(ts, SlotKey(t));
    if Guarded(m, t) {
      forall h | h in own ensures h in counted { HolderSlotKey(h, t.objectType, t.objectID, t.relation); }
      Subset(own, counted);
    }
  }

  ghost predicate AlwaysAgree(m: Option<Model>, t: Tuple) {
    forall ts: set<Tuple> | OnePerSlot(ts) && Over(ts, AllParsed()) :: AtFloor(m, ts, t) <==> Refused(m, ts, t)
  }

  /** For a tuple the engine can name, the verdicts always agree exactly when its ID and relation have no `#`. */
  lemma VerdictsAgreeExactly(m: Option<Model>, t: Tuple)
    requires Parsed(t)
    ensures AlwaysAgree(m, t) <==> !Guarded(m, t) || ('#' !in t.objectID && '#' !in t.relation)
  {
    hide Parsed, OnePerSlot, AtFloor, Refused, Misjudged;
    if Guarded(m, t) && ('#' in t.objectID || '#' in t.relation) {
      var ts := Misjudging(m, t);
      VerdictsDiffer(m, ts, t);
    } else {
      forall ts: set<Tuple> | OnePerSlot(ts) && Over(ts, AllParsed())
        ensures AtFloor(m, ts, t) <==> Refused(m, ts, t)
      {
        VerdictsDiffer(m, ts, t);
        if Guarded(m, t) { PlainBucket(ts, t); }
        NotMisjudged(m, ts, t);
      }
    }
  }

  lemma NotMisjudged(m: Option<Model>, ts: set<Tuple>, t: Tuple)
    requires Guarded(m, t) ==> (Present(ts, t) <==> t in ts)
    requires Guarded(m, t) ==>
      HoldersInBucket(ts, SlotKey(t)) == Holders(ts, t.objectType, t.objectID, t.relation)
    ensures !Misjudged(m, ts, t)
  {
    hide SlotKey, Present;
  }

  /** A bucket that only its own object's tuples can share. */
  lemma PlainBucket(ts: set<Tuple>, t: Tuple)
    requires Parsed(t) && Over(ts, AllParsed()) && '#' !in t.objectID && '#' !in t.relation
    ensures Present(ts, t) <==> t in ts
    ensures HoldersInBucket(ts, SlotKey(t)) == Holders(ts, t.objectType, t.objectID, t.relation)
  {
    forall u | u in ts && SlotKey(u) == SlotKey(t)
      ensures u.objectType == t.objectType && u.objectID == t.objectID && u.relation == t.relation
    {
      OnlySplit(u.objectType, u.objectID, u.relation, t.objectType, t.objectID, t.relation);
    }
    forall u | u in ts && SameSlot(u, t) ensures u == t { SameSubject(u, t); }
    forall u | u in Holders(ts, t.objectType, t.objectID, t.relation) ensures SlotKey(u) == SlotKey(t) {
      HolderSlotKey(u, t.objectType, t.objectID, t.relation);
    }
    hide SlotKey, TupleKey;
    if t in ts { assert SameSlot(t, t); }
  }

  /** The last holder is deleted: t alone on its object, and as many strangers in its bucket as its floor asks for. */
  lemma Misjudging(m: Option<Model>, t: Tuple) returns (ts: set<Tuple>)
    requires Parsed(t) && Guarded(m, t) && ('#' in t.objectID || '#' in t.relation)
    ensures OnePerSlot(ts) && Over(ts, AllParsed()) && Misjudged(m, ts, t)
    ensures AtFloor(m, ts, t) && !Refused(m, ts, t)
  {
    var floor := MinHolders(m, t.objectType, t.relation);
    var id, r := OtherSplit(t.objectID, t.relation);
    var ut := if t.userType == "user" then "group" else "user";
    var crowd := Crowd(t.objectType, id, r, ut, floor);
    CrowdSize(t.objectType, id, r, ut, floor);
    CrowdPlain(t.objectType, id, r, ut, floor);
    hide Crowd, MinHolders, OnePerSlot;
    forall u | u in crowd ensures SlotKey(u) == SlotKey(t) && u.userType != t.userType && u.objectID != t.objectID {
      SharedKey(u, t.objectType, t.objectID, t.relation);
    }
    hide SlotKey;
    ts := crowd + {t};
    Joined(crowd, t);
    assert HoldersInBucket(ts, SlotKey(t)) == ts && |ts| == floor + 1;
    assert Holders(ts, t.objectType, t.objectID, t.relation) == {t};
    assert Misjudged(m, ts, t);
  }

  /** A subject of another type takes a slot of its own. */
  lemma Joined(ts: set<Tuple>, t: Tuple)
    requires OnePerSlot(ts) && Parsed(t) && forall u <- ts :: SubjectPartClean(u) && u.userType != t.userType
    ensures OnePerSlot(ts + {t})
  {
    hide SlotKey, TupleKey;
    forall u | u in ts ensures !SameSlot(u, t) && !SameSlot(t, u) {
      if SameSlot(u, t) || SameSlot(t, u) { SameSubject(t, u); }
    }
  }

  // ---- clean components ----

  ghost predicate Clean(t: Tuple) {
    ObjectPartClean(t) && SubjectPartClean(t)
  }

  ghost predicate AllClean(ts: set<Tuple>) {
    forall t <- ts :: Clean(t)
  }

  lemma CleanSlots(ts: set<Tuple>, t: Tuple)
    requires AllClean(ts) && Clean(t)
    ensures Overwrite(ts, t) == ts + {t} && Evict(ts, t) == ts - {t}
    ensures Present(ts, t) <==> t in ts
    ensures HoldersInBucket(ts, SlotKey(t)) == Holders(ts, t.objectType, t.objectID, t.relation)
  {
    hide SlotKey, TupleKey, ObjectPartClean, SubjectPartClean;
    forall u | u in ts && SameSlot(u, t) ensures u == t { SlotInjective(u, t); }
    forall u | u in ts && SlotKey(u) == SlotKey(t)
      ensures u.objectType == t.objectType && u.objectID == t.objectID && u.relation == t.relation
    {
      BucketOfOneObject(u, t);
    }
    forall u | u in ts && u.objectType == t.objectType && u.objectID == t.objectID && u.relation == t.relation
      ensures SlotKey(u) == SlotKey(t)
    {
      SlotKeyIs(u);
      SlotKeyIs(t);
    }
  }

  lemma BucketOfOneObject(u: Tuple, t: Tuple)
    requires ObjectPartClean(u) && ObjectPartClean(t) && SlotKey(u) == SlotKey(t)
    ensures u.objectType == t.objectType && u.objectID == t.objectID && u.relation == t.relation
  {
    ObjectRelationKeyInjective(u.objectType, u.objectID, u.relation, t.objectType, t.objectID, t.relation);
  }

  /** If all components are clean no floor is ever breached, whatever the relations are called. */
  lemma CleanVocabularyKeepsFloors(m: Option<Model>, vocabulary: iset<Tuple>, ot: string, id: string, r: string)
    requires forall t <- vocabulary :: Clean(t)
    ensures FloorKept(m, vocabulary, ot, id, r)
  {
    hide FloorKept, Clean;
    FloorIsExact(m, vocabulary, ot, id, r);
    if Breachable(m, vocabulary, ot, id, r) {
      var ts: set<Tuple> :| Over(ts, vocabulary) && |Holders(ts, ot, id, r)| >= MinHolders(m, ot, r);
      assert Holders(ts, ot, id, r) != {};
      var h :| h in Holders(ts, ot, id, r);
      VocabularyMember(ts, vocabulary, h);
      var u :| Intruder(u, vocabulary, ot, id, r);
      CleanIntruder(vocabulary, u, h, ot, id, r);
      assert false;
    }
  }

  lemma CleanIntruder(vocabulary: iset<Tuple>, u: Tuple, h: Tuple, ot: string, id: string, r: string)
    requires (forall t <- vocabulary :: Clean(t)) && h in vocabulary && IsHolder(h, ot, id, r)
    ensures !Intruder(u, vocabulary, ot, id, r)
  {
    hide SlotKey, TupleKey, ObjectRelationKey, ObjectPartClean, SubjectPartClean;
    if Intruder(u, vocabulary, ot, id, r) {
      HolderSlotKey(h, ot, id, r);
      if g :| g in vocabulary && IsHolder(g, ot, id, r) && SameSlot(u, g) {
        SlotInjective(u, g);
        assert false;
      }
      BucketOfOneObject(u, h);
      assert false;
    }
  }
}
