/** When a replacement leaves exactly what was asked for (ReplaceRelationships in zanzibar/relationships.go). */
module Replacement {
  import opened AuthModel
  import opened Keys
  import opened Store
  import opened Floors

  ghost predicate BoundedFilter(f: TupleFilter) {
    f.objectType != "" && f.objectID != "" && f.relation != ""
  }

  /** The matching tuples are the replacements and the others are those of before. */
  ghost predicate Replaced(before: set<Tuple>, f: TupleFilter, replacements: seq<Tuple>, after: set<Tuple>) {
    var wanted := set r | r in replacements;
    Matching(after, f) == wanted && after - wanted == before - Matching(before, f)
  }

  /** No other tuple sits in the slot of one that matches or is to match. */
  ghost predicate SlotsFree(before: set<Tuple>, f: TupleFilter, replacements: seq<Tuple>) {
    var wanted := set r | r in replacements;
    forall u <- before + wanted, w <- Matching(before, f) + wanted :: SameSlot(u, w) ==> u == w
  }

  /** The tuples after the change of keys was made. */
  ghost function Changed(before: set<Tuple>, writes: seq<Tuple>, deletes: seq<Tuple>): set<Tuple> {
    EvictAll(OverwriteAll(before, writes), deletes)
  }

  lemma OneBucket(f: TupleFilter, t: Tuple)
    requires BoundedFilter(f) && Matches(t, f)
    ensures SlotKey(t) == ObjectRelationKey(f.objectType, f.objectID, f.relation)
  {
  }

  /** With free slots the delta writes what is missing and deletes what is not wanted. */
  lemma FreeDelta(before: set<Tuple>, f: TupleFilter, replacements: seq<Tuple>, writes: seq<Tuple>, deletes: seq<Tuple>)
    requires BoundedFilter(f) && (forall r <- replacements :: Matches(r, f))
    requires Delta(before, f, replacements, writes, deletes) && SlotsFree(before, f, replacements)
    ensures (set w | w in writes) == (set r | r in replacements) - Matching(before, f)
    ensures (set d | d in deletes) == Matching(before, f) - (set r | r in replacements)
  {
    hide Matches, SlotKey, TupleKey, LastUnderKey, KeySorted, BoundedFilter;
    var wanted, now := (set r | r in replacements), Matching(before, f);
    forall w | w in writes ensures w in replacements { LastIsMember(replacements, w); }
    forall a, b | a in now + wanted && b in now + wanted && TupleKey(a) == TupleKey(b) ensures a == b {
      OneBucket(f, a);
      OneBucket(f, b);
      assert SameSlot(a, b);
    }
    OneSide(wanted, now, writes);
    OneSide(now, wanted, deletes);
  }

  lemma FreeSlotsReplace(before: set<Tuple>, f: TupleFilter, replacements: seq<Tuple>,
                         writes: seq<Tuple>, deletes: seq<Tuple>)
    requires BoundedFilter(f) && (forall r <- replacements :: Matches(r, f))
    requires Delta(before, f, replacements, writes, deletes) && SlotsFree(before, f, replacements)
    ensures Replaced(before, f, replacements, Changed(before, writes, deletes))
  {
    hide Matches, SlotKey, TupleKey, Delta, BoundedFilter, EvictAll, OverwriteAll;
    FreeDelta(before, f, replacements, writes, deletes);
    OwnSlotsWrite(before, writes);
    OwnSlotsDelete(before + (set w | w in writes), deletes);
  }

  lemma {:induction false} OverwritesOnly(ts: set<Tuple>, ws: seq<Tuple>)
    requires OnePerSlot(ts)
    ensures OnePerSlot(OverwriteAll(ts, ws)) && OverwriteAll(ts, ws) <= ts + (set w | w in ws)
  {
    hide SlotKey, TupleKey;
    if ws != [] {
      OverwritesOnly(ts, ws[..|ws| - 1]);
      assert ws == ws[..|ws| - 1] + [ws[|ws| - 1]];
    }
  }

  lemma {:induction false} EvictsOnly(ts: set<Tuple>, ds: seq<Tuple>)
    requires OnePerSlot(ts)
    ensures OnePerSlot(EvictAll(ts, ds)) && EvictAll(ts, ds) <= ts
  {
    hide SlotKey, TupleKey;
    if ds != [] { EvictsOnly(ts, ds[..|ds| - 1]); }
  }

  /** One call leaves exactly what was asked for if and only if the slots it is about are free of other tuples. */
  lemma ReplacedExactly(before: set<Tuple>, f: TupleFilter, replacements: seq<Tuple>,
                        writes: seq<Tuple>, deletes: seq<Tuple>)
    requires OnePerSlot(before) && BoundedFilter(f) && (forall r <- replacements :: Matches(r, f))
    requires Delta(before, f, replacements, writes, deletes)
    ensures Replaced(before, f, replacements, Changed(before, writes, deletes)) <==> SlotsFree(before, f, replacements)
  {
    hide Matches, SlotKey, TupleKey, BoundedFilter, EvictAll, OverwriteAll, OnePerSlot;
    if SlotsFree(before, f, replacements) {
      FreeSlotsReplace(before, f, replacements, writes, deletes);
    } else if Replaced(before, f, replacements, Changed(before, writes, deletes)) {
      OverwritesOnly(before, writes);
      EvictsOnly(OverwriteAll(before, writes), deletes);
      var wanted := set r | r in replacements;
      var u, w :| u in before + wanted && w in Matching(before, f) + wanted && SameSlot(u, w) && u != w;
      NoSharedSlot(before, f, replacements, writes, deletes, u, w);
      assert false;
    }
  }

  lemma NoSharedSlot(before: set<Tuple>, f: TupleFilter, replacements: seq<Tuple>,
                     writes: seq<Tuple>, deletes: seq<Tuple>, u: Tuple, w: Tuple)
    requires OnePerSlot(before) && Delta(before, f, replacements, writes, deletes)
    requires
      var after := Changed(before, writes, deletes);
      Replaced(before, f, replacements, after) && OnePerSlot(after) && after <= before + (set x | x in writes)
    requires u in before + (set r | r in replacements) && w in Matching(before, f) + (set r | r in replacements)
    requires SameSlot(u, w)
    ensures u == w
  {
    hide Matches, SlotKey, TupleKey, EvictAll, OverwriteAll, KeySorted, LastUnderKey;
    var wanted, now, after := (set r | r in replacements), Matching(before, f), Changed(before, writes, deletes);
    assert wanted <= after && before - now <= after;
    assert forall x <- writes :: TupleKey(x) in KeySet(writes);
    forall x, y | x in wanted && y in now && SameSlot(x, y) ensures x in before {
      assert TupleKey(y) in KeysOf(now);
    }
    assert SameSlot(w, u);
    if u in wanted {
      assert w in wanted || w in now;
    } else if w in wanted {
      assert u in now || u in before - now;
    }
  }

  lemma WellFormedSlotsFree(before: set<Tuple>, f: TupleFilter, replacements: seq<Tuple>)
    requires AllWellFormed(before) && AllWellFormedSeq(replacements)
    ensures SlotsFree(before, f, replacements)
  {
    hide SlotKey, TupleKey, WellFormed, Matches;
    var wanted := set r | r in replacements;
    forall u, w | u in before + wanted && w in Matching(before, f) + wanted && SameSlot(u, w) ensures u == w {
      TupleKeyInjective(u, w);
    }
  }

  // ---- what the filter's own text decides ----

  ghost predicate ParsedTuples(ts: seq<Tuple>) {
    forall t <- ts :: Parsed(t)
  }

  /** Every call with this filter, on any store and replacements that can be named, leaves what was asked for. */
  ghost predicate ReplacesSafely(f: TupleFilter) {
    forall before, replacements, writes, deletes |
      && OnePerSlot(before) && Over(before, AllParsed()) && ParsedTuples(replacements)
      && (forall r <- replacements :: Matches(r, f)) && Delta(before, f, replacements, writes, deletes) ::
      Replaced(before, f, replacements, Changed(before, writes, deletes))
  }

  /** Some nameable tuple matches the filter. */
  ghost predicate Nameable(f: TupleFilter) {
    ':' !in f.objectType && ':' !in f.userType && '#' !in f.userID
  }

  lemma UnnameableMatchesNothing(f: TupleFilter, t: Tuple)
    requires BoundedFilter(f) && Parsed(t) && Matches(t, f)
    ensures Nameable(f)
  {
  }

  /** One outsider in the slot of the one replacement: the write removes it. */
  lemma OutsiderLost(f: TupleFilter) returns (outsider: Tuple, wanted: Tuple)
    requires BoundedFilter(f) && Nameable(f) && ('#' in f.objectID || '#' in f.relation)
    ensures Parsed(outsider) && Parsed(wanted) && Matches(wanted, f) && !Matches(outsider, f)
    ensures SameSlot(outsider, wanted) && OnePerSlot({outsider}) && Delta({outsider}, f, [wanted], [wanted], [])
    ensures Changed({outsider}, [wanted], []) == {wanted}
  {
    var id, r := OtherSplit(f.objectID, f.relation);
    var ut := if f.userType == "" then "user" else f.userType;
    wanted := Tuple(f.objectType, f.objectID, f.relation, ut, f.userID, f.userRelation);
    outsider := wanted.(objectID := id, relation := r);
    SharedKey(outsider, f.objectType, f.objectID, f.relation);
    OneBucket(f, wanted);
    assert TupleKey(outsider) == SlotKey(outsider) + "@" + SubjectKey(wanted) + "#" + wanted.userRelation;
    LoneDelta(f, outsider, wanted);
  }

  lemma LoneDelta(f: TupleFilter, outsider: Tuple, wanted: Tuple)
    requires Matches(wanted, f) && !Matches(outsider, f) && SameSlot(outsider, wanted)
    ensures Delta({outsider}, f, [wanted], [wanted], []) && Changed({outsider}, [wanted], []) == {wanted}
  {
    hide Matches, SlotKey, TupleKey;
    assert [wanted][0] == wanted && LastUnderKey([wanted], wanted);
    assert Matching({outsider}, f) == {};
    assert [wanted][..0] == [];
    assert OverwriteAll({outsider}, []) == {outsider};
    assert OverwriteAll({outsider}, [wanted]) == Overwrite({outsider}, wanted) == {wanted};
  }

  /**
   * A filter is safe on every store and replacements that can be named exactly when it matches nothing nameable, or
   * neither its object ID nor its relation contains `#`.
   */
  lemma ReplacesSafelyExactly(f: TupleFilter)
    requires BoundedFilter(f)
    ensures ReplacesSafely(f) <==> !Nameable(f) || ('#' !in f.objectID && '#' !in f.relation)
  {
    hide Matches, SlotKey, TupleKey, OnePerSlot, Parsed, Delta, Changed, Replaced;
    if Nameable(f) && ('#' in f.objectID || '#' in f.relation) {
      var outsider, wanted := OutsiderLost(f);
      LosesOutsider(f, outsider, wanted);
    } else {
      forall before, replacements, writes, deletes |
        && OnePerSlot(before) && Over(before, AllParsed()) && ParsedTuples(replacements)
        && (forall r <- replacements :: Matches(r, f)) && Delta(before, f, replacements, writes, deletes)
        ensures Replaced(before, f, replacements, Changed(before, writes, deletes))
      {
        PlainSlotsFree(before, f, replacements);
        ReplacedExactly(before, f, replacements, writes, deletes);
      }
    }
  }

  lemma LosesOutsider(f: TupleFilter, outsider: Tuple, wanted: Tuple)
    requires Parsed(outsider) && Parsed(wanted) && Matches(wanted, f) && !Matches(outsider, f)
    requires OnePerSlot({outsider}) && Delta({outsider}, f, [wanted], [wanted], [])
    requires Changed({outsider}, [wanted], []) == {wanted}
    ensures !ReplacesSafely(f)
  {
    hide Matches, Delta, Changed, Parsed, OnePerSlot;
    assert outsider in {outsider} - Matching({outsider}, f) && outsider != wanted;
    assert !Replaced({outsider}, f, [wanted], {wanted});
  }

  lemma PlainSlotsFree(before: set<Tuple>, f: TupleFilter, replacements: seq<Tuple>)
    requires BoundedFilter(f) && (!Nameable(f) || ('#' !in f.objectID && '#' !in f.relation))
    requires Over(before, AllParsed()) && ParsedTuples(replacements) && forall r <- replacements :: Matches(r, f)
    ensures SlotsFree(before, f, replacements)
  {
    var wanted := set r | r in replacements;
    forall u, w | u in before + wanted && w in Matching(before, f) + wanted && SameSlot(u, w) ensures u == w {
      assert Parsed(u) && Parsed(w) && Matches(w, f);
      UnnameableMatchesNothing(f, w);
      OneBucket(f, w);
      OnlySplit(u.objectType, u.objectID, u.relation, f.objectType, f.objectID, f.relation);
      SameSubject(u, w);
    }
  }
}
