/** The indexed in-memory tuple store (zanzibar/store/memory.go). */
module Store {
  import opened AuthModel
  import opened Keys
  import opened Ordering
  import opened Paging

  type Bucket = map<string, Tuple>
  type Index = map<string, Bucket>

  /** Every tuple sits under its own two keys and no bucket is empty. */
  ghost predicate IndexOk(ix: Index) {
    forall k <- ix ::
      && ix[k] != map[]
      && forall tk <- ix[k] :: SlotKey(ix[k][tk]) == k && TupleKey(ix[k][tk]) == tk
  }

  ghost function Stored(ix: Index): set<Tuple> {
    set k, tk | k in ix && tk in ix[k] :: ix[k][tk]
  }

  ghost predicate Holds(ix: Index, t: Tuple) {
    SlotKey(t) in ix && TupleKey(t) in ix[SlotKey(t)] && ix[SlotKey(t)][TupleKey(t)] == t
  }

  lemma StoredIff(ix: Index)
    requires IndexOk(ix)
    ensures forall t :: t in Stored(ix) <==> Holds(ix, t)
  {
  }

  /** No two tuples compete for one entry. */
  ghost predicate OnePerSlot(ts: set<Tuple>) {
    forall t <- ts, u <- ts :: SameSlot(t, u) ==> t == u
  }

  /** What an index stores never holds two tuples of one slot. */
  lemma StoredOnePerSlot(ix: Index)
    requires IndexOk(ix)
    ensures OnePerSlot(Stored(ix))
  {
    StoredIff(ix);
  }

  ghost function KeysOfUser(ts: set<Tuple>, u: string): set<string> {
    set t | t in ts && SubjectKey(t) == u :: TupleKey(t)
  }

  lemma SlotsIndexed(ix: Index)
    requires IndexOk(ix)
    ensures forall t <- Stored(ix) :: SlotKey(t) in ix
  {
    StoredIff(ix);
  }

  /** What the secondary index must be for a given tuple set. */
  ghost function UserIndex(ts: set<Tuple>): map<string, set<string>> {
    map u | u in (set t | t in ts :: SubjectKey(t)) :: KeysOfUser(ts, u)
  }

  /** The tuple set after writing t: whatever shared its slot is gone. */
  ghost function Overwrite(ts: set<Tuple>, t: Tuple): set<Tuple> {
    Evict(ts, t) + {t}
  }

  ghost function Evict(ts: set<Tuple>, t: Tuple): set<Tuple> {
    set u | u in ts && !SameSlot(u, t)
  }

  ghost function OverwriteAll(ts: set<Tuple>, ws: seq<Tuple>): set<Tuple> {
    if ws == [] then ts else Overwrite(OverwriteAll(ts, ws[..|ws| - 1]), ws[|ws| - 1])
  }

  ghost function EvictAll(ts: set<Tuple>, ds: seq<Tuple>): set<Tuple> {
    if ds == [] then ts else Evict(EvictAll(ts, ds[..|ds| - 1]), ds[|ds| - 1])
  }

  /** No tuple of ts other than t itself carries t's key. */
  ghost predicate KeyFree(ts: set<Tuple>, t: Tuple) {
    forall u <- ts :: TupleKey(u) == TupleKey(t) ==> u == t
  }

  lemma KeyFreeUpdates(ts: set<Tuple>, t: Tuple)
    requires KeyFree(ts, t)
    ensures Overwrite(ts, t) == ts + {t} && Evict(ts, t) == ts - {t}
  {
  }

  lemma WellFormedKeysFree(ts: set<Tuple>, t: Tuple)
    requires AllWellFormed(ts) && WellFormed(t)
    ensures KeyFree(ts, t)
    ensures Overwrite(ts, t) == ts + {t} && Evict(ts, t) == ts - {t}
  {
    forall u | u in ts && TupleKey(u) == TupleKey(t) ensures u == t { TupleKeyInjective(u, t); }
  }

  /** The primary index with t entered. */
  function Put(ix: Index, t: Tuple): Index {
    ix[SlotKey(t) := (if SlotKey(t) in ix then ix[SlotKey(t)] else map[])[TupleKey(t) := t]]
  }

  /** The primary index with t's entry removed, and its bucket too if that was the last entry. */
  function Drop(ix: Index, t: Tuple): Index {
    if SlotKey(t) !in ix then ix else
      var rest := ix[SlotKey(t)] - {TupleKey(t)};
      if rest == map[] then ix - {SlotKey(t)} else ix[SlotKey(t) := rest]
  }

  lemma PutStores(ix: Index, t: Tuple)
    requires IndexOk(ix)
    ensures IndexOk(Put(ix, t)) && Stored(Put(ix, t)) == Overwrite(Stored(ix), t)
  {
    hide SlotKey, TupleKey;
    var ix' := Put(ix, t);
    assert forall k <- ix' :: k != SlotKey(t) ==> ix'[k] == ix[k];
    assert TupleKey(t) in ix'[SlotKey(t)];
    assert IndexOk(ix');
    StoredIff(ix);
    StoredIff(ix');
    forall u ensures Holds(ix', u) <==> u == t || (Holds(ix, u) && !SameSlot(u, t)) {}
  }

  lemma DropStores(ix: Index, t: Tuple)
    requires IndexOk(ix)
    ensures IndexOk(Drop(ix, t)) && Stored(Drop(ix, t)) == Evict(Stored(ix), t)
  {
    hide SlotKey, TupleKey;
    var ix' := Drop(ix, t);
    assert IndexOk(ix');
    StoredIff(ix);
    StoredIff(ix');
    forall u ensures Holds(ix', u) <==> Holds(ix, u) && !SameSlot(u, t) {
      if Holds(ix, u) && SlotKey(u) == SlotKey(t) && TupleKey(u) != TupleKey(t) {
        assert TupleKey(u) in ix[SlotKey(t)] - {TupleKey(t)};
      }
    }
  }

  ghost predicate AllWellFormedSeq(ts: seq<Tuple>) {
    forall t <- ts :: WellFormed(t)
  }

  /** No other tuple, of ts or ws, sits in a slot of ws. */
  ghost predicate OwnSlots(ts: set<Tuple>, ws: set<Tuple>) {
    forall u <- ts + ws, w <- ws :: SameSlot(u, w) ==> u == w
  }

  lemma WellFormedOwnSlots(ts: set<Tuple>, ws: set<Tuple>)
    requires AllWellFormed(ts) && AllWellFormed(ws)
    ensures OwnSlots(ts, ws)
  {
    hide SlotKey, TupleKey, WellFormed;
    forall u, w | u in ts + ws && w in ws && SameSlot(u, w) ensures u == w { TupleKeyInjective(u, w); }
  }

  lemma {:induction false} OwnSlotsWrite(ts: set<Tuple>, ws: seq<Tuple>)
    requires OwnSlots(ts, set w | w in ws)
    ensures OverwriteAll(ts, ws) == ts + (set w | w in ws)
  {
    hide SlotKey, TupleKey;
    if ws != [] {
      var front, w := ws[..|ws| - 1], ws[|ws| - 1];
      assert ws == front + [w];
      assert (set x | x in ws) == (set x | x in front) + {w};
      OwnSlotsWrite(ts, front);
    }
  }

  lemma {:induction false} OwnSlotsDelete(ts: set<Tuple>, ds: seq<Tuple>)
    requires OwnSlots(ts, set d | d in ds)
    ensures EvictAll(ts, ds) == ts - (set d | d in ds)
  {
    hide SlotKey, TupleKey;
    if ds != [] {
      var front, d := ds[..|ds| - 1], ds[|ds| - 1];
      assert ds == front + [d];
      assert (set x | x in ds) == (set x | x in front) + {d};
      OwnSlotsDelete(ts, front);
      assert SameSlot(d, d);
    }
  }

  /** All materialized tuples with their multiplicities, whatever the order of the names. */
  ghost function MaterialBag(m: map<string, seq<Tuple>>): multiset<Tuple>
    decreases |m|
  {
    if m == map[] then multiset{} else
      var n :| n in m;
      multiset(m[n]) + MaterialBag(m - {n})
  }

  lemma {:induction false} MaterialBagSplit(m: map<string, seq<Tuple>>, n: string)
    requires n in m
    ensures MaterialBag(m) == multiset(m[n]) + MaterialBag(m - {n})
    decreases |m|
  {
    var p :| p in m && MaterialBag(m) == multiset(m[p]) + MaterialBag(m - {p});
    if p != n {
      MaterialBagSplit(m - {p}, n);
      MaterialBagSplit(m - {n}, p);
      assert m - {p} - {n} == m - {n} - {p};
    }
  }

  /** The tuples of one materializer. */
  function Material(m: map<string, seq<Tuple>>, name: string): seq<Tuple> {
    if name in m then m[name] else []
  }

  lemma MaterialBagWithout(m: map<string, seq<Tuple>>, name: string)
    ensures MaterialBag(m) == multiset(Material(m, name)) + MaterialBag(m - {name})
  {
    hide MaterialBag;
    if name in m { MaterialBagSplit(m, name); } else { assert m - {name} == m; }
  }

  ghost function MaterialSet(m: map<string, seq<Tuple>>): set<Tuple> {
    set n, t | n in m && t in m[n] :: t
  }

  lemma {:induction false} MaterialBagMembers(m: map<string, seq<Tuple>>)
    ensures forall t :: t in MaterialBag(m) <==> t in MaterialSet(m)
    decreases |m|
  {
    if m != map[] {
      var n :| n in m && MaterialBag(m) == multiset(m[n]) + MaterialBag(m - {n});
      MaterialBagMembers(m - {n});
      forall t ensures t in MaterialBag(m) <==> t in MaterialSet(m) {
        assert t in MaterialBag(m) <==> t in m[n] || t in MaterialBag(m - {n});
        if t in MaterialSet(m) {
          var p :| p in m && t in m[p];
          assert p == n || (p in m - {n} && t in (m - {n})[p]);
        }
        if t in MaterialSet(m - {n}) {
          var p :| p in m - {n} && t in (m - {n})[p];
          assert t in m[p];
        }
      }
    }
  }

  /** result is a reordering of the part of bag that filter f selects. */
  ghost predicate Selects(result: seq<Tuple>, bag: multiset<Tuple>, f: TupleFilter) {
    forall t :: multiset(result)[t] == if Matches(t, f) then bag[t] else 0
  }

  lemma SelectsMembers(result: seq<Tuple>, bag: multiset<Tuple>, f: TupleFilter)
    requires Selects(result, bag, f)
    ensures forall t :: t in result <==> t in bag && Matches(t, f)
  {
    forall t ensures t in result <==> t in bag && Matches(t, f) {
      assert t in result <==> t in multiset(result);
    }
  }

  /** A tuple agrees with a filter in every field the filter names. */
  lemma MatchesMeans(t: Tuple, f: TupleFilter)
    ensures Matches(t, f) <==>
      && (f.objectType == "" || t.objectType == f.objectType)
      && (f.objectID == "" || t.objectID == f.objectID)
      && (f.relation == "" || t.relation == f.relation)
      && (f.userType == "" || t.userType == f.userType)
      && (f.userID == "" || t.userID == f.userID)
      && (f.userRelation == "" || t.userRelation == f.userRelation)
  {
  }

  /** One bucket holds all there is to match a filter that names object and relation. */
  lemma ReadsAll(f: TupleFilter, contents: set<Tuple>, candidates: seq<Tuple>, stored: seq<Tuple>,
                 material: multiset<Tuple>, overlay: seq<Tuple>)
    requires
      var full := f.objectType != "" && f.objectID != "" && f.relation != "";
      forall t :: multiset(candidates)[t] ==
        if t in contents && (full ==> SlotKey(t) == ObjectRelationKey(f.objectType, f.objectID, f.relation))
        then 1 else 0
    requires Selects(stored, multiset(candidates), f) && Selects(overlay, material, f)
    ensures Selects(stored + overlay, multiset(contents) + material, f)
  {
    forall t | f.objectType != "" && f.objectID != "" && f.relation != "" && Matches(t, f)
      ensures SlotKey(t) == ObjectRelationKey(f.objectType, f.objectID, f.relation)
    {
    }
    hide Matches, SlotKey, ObjectRelationKey;
    AppendBags(stored, overlay);
  }

  predicate OverlaidUserset(t: Tuple, objectType: string, objectID: string, relation: string) {
    t.objectType == objectType && t.objectID == objectID && t.relation == relation && t.userRelation != ""
  }

  lemma BagMembers(ts: seq<Tuple>)
    ensures forall t :: t in ts <==> multiset(ts)[t] > 0
  {
    assert forall t :: t in ts <==> t in multiset(ts);
  }

  class MemoryStore {
    var byObjectRelation: Index
    var byUser: map<string, set<string>>
    var materialized: map<string, seq<Tuple>>

    ghost predicate Valid() reads this {
      IndexOk(byObjectRelation)
    }

    ghost function Contents(): set<Tuple> reads this {
      Stored(byObjectRelation)
    }

    /** The secondary index is exactly the one the primary index calls for. */
    ghost predicate Mirrored() reads this {
      byUser == UserIndex(Contents())
    }

    /** Everything a read can return, with multiplicities. */
    ghost function Bag(): multiset<Tuple> reads this {
      multiset(Contents()) + MaterialBag(materialized)
    }

    ghost function Overlay(): set<Tuple> reads this {
      MaterialSet(materialized)
    }

    constructor ()
      ensures Valid() && Mirrored() && Contents() == {} && materialized == map[]
    {
      byObjectRelation := map[];
      byUser := map[];
      materialized := map[];
    }

    method Write(t: Tuple)
      requires Valid()
      modifies `byObjectRelation, `byUser
      ensures Valid()
      ensures Contents() == Overwrite(old(Contents()), t)
      ensures old(Mirrored()) && KeyFree(old(Contents()), t) ==> Mirrored()
    {
      hide SlotKey, TupleKey, SubjectKey, IndexOk, Stored, UserIndex, Overwrite, Evict, KeyFree;
      var k, tk := SlotKey(t), TupleKey(t);
      if k !in byObjectRelation {
        byObjectRelation := byObjectRelation[k := map[]];
      }
      byObjectRelation := byObjectRelation[k := byObjectRelation[k][tk := t]];
      var u := SubjectKey(t);
      if u !in byUser {
        byUser := byUser[u := {}];
      }
      byUser := byUser[u := byUser[u] + {tk}];

      assert byObjectRelation == Put(old(byObjectRelation), t);
      PutStores(old(byObjectRelation), t);
      if old(Mirrored()) && KeyFree(old(Contents()), t) {
        KeyFreeUpdates(old(Contents()), t);
        UserIndexAdds(old(Contents()), t);
      }
    }

    method Delete(t: Tuple)
      requires Valid()
      modifies `byObjectRelation, `byUser
      ensures Valid()
      ensures Contents() == Evict(old(Contents()), t)
      ensures old(Mirrored()) && KeyFree(old(Contents()), t) ==> Mirrored()
    {
      hide SlotKey, TupleKey, SubjectKey, IndexOk, Stored, UserIndex, Overwrite, Evict, KeyFree;
      var k, tk := SlotKey(t), TupleKey(t);
      if k in byObjectRelation {
        var rest := byObjectRelation[k] - {tk};
        byObjectRelation := if rest == map[] then byObjectRelation - {k} else byObjectRelation[k := rest];
      }
      var u := SubjectKey(t);
      if u in byUser {
        var keys := byUser[u] - {tk};
        byUser := if keys == {} then byUser - {u} else byUser[u := keys];
      }

      assert byObjectRelation == Drop(old(byObjectRelation), t);
      DropStores(old(byObjectRelation), t);
      if old(Mirrored()) && KeyFree(old(Contents()), t) {
        KeyFreeUpdates(old(Contents()), t);
        UserIndexDrops(old(Contents()), t);
      }
    }

    /** One bucket in an arbitrary order. */
    method BucketEntries(k: string) returns (ts: seq<Tuple>)
      requires Valid()
      ensures forall t :: multiset(ts)[t] == if t in Contents() && SlotKey(t) == k then 1 else 0
    {
      hide SlotKey, TupleKey;
      StoredIff(byObjectRelation);
      ts := [];
      if k !in byObjectRelation { return; }
      var bucket := byObjectRelation[k];
      var left := bucket.Keys;
      while left != {}
        invariant left <= bucket.Keys
        invariant forall t ::
          multiset(ts)[t] == if t in Contents() && SlotKey(t) == k && TupleKey(t) !in left then 1 else 0
      {
        var tk :| tk in left;
        left := left - {tk};
        ts := ts + [bucket[tk]];
      }
    }

    /** Every stored tuple once, in an arbitrary order. */
    method Entries() returns (ts: seq<Tuple>)
      requires Valid()
      ensures multiset(ts) == multiset(Contents())
    {
      hide SlotKey, Stored, IndexOk;
      ghost var stored := Contents();
      SlotsIndexed(byObjectRelation);
      ts := [];
      var left := byObjectRelation.Keys;
      while left != {}
        invariant left <= byObjectRelation.Keys
        invariant forall t :: multiset(ts)[t] == if t in stored && SlotKey(t) !in left then 1 else 0
      {
        var k :| k in left;
        left := left - {k};
        var bucket := BucketEntries(k);
        AppendBags(ts, bucket);
        ts := ts + bucket;
      }
      OneOfEach(ts, stored);
    }

    /** Every materialized tuple, the materializers in an arbitrary order. */
    method MaterializedEntries() returns (ts: seq<Tuple>)
      ensures multiset(ts) == MaterialBag(materialized)
    {
      ts := [];
      var left := materialized;
      while left != map[]
        invariant multiset(ts) + MaterialBag(left) == MaterialBag(materialized)
        decreases |left|
      {
        var n :| n in left;
        MaterialBagSplit(left, n);
        ts := ts + left[n];
        left := left - {n};
      }
    }

    method Read(filter: TupleFilter) returns (result: seq<Tuple>)
      requires Valid()
      ensures Selects(result, Bag(), filter)
      ensures forall t :: t in result <==> t in Contents() + Overlay() && Matches(t, filter)
      ensures forall t :: t in result <==>
        t in Contents() + Overlay()
          && (filter.objectType == "" || t.objectType == filter.objectType)
          && (filter.objectID == "" || t.objectID == filter.objectID)
          && (filter.relation == "" || t.relation == filter.relation)
          && (filter.userType == "" || t.userType == filter.userType)
          && (filter.userID == "" || t.userID == filter.userID)
          && (filter.userRelation == "" || t.userRelation == filter.userRelation)
    {
      hide Matches, Selects, Stored, IndexOk, MaterialBag, MaterialSet, SlotKey, ObjectRelationKey;
      var candidates;
      if filter.objectType != "" && filter.objectID != "" && filter.relation != "" {
        candidates := BucketEntries(ObjectRelationKey(filter.objectType, filter.objectID, filter.relation));
      } else {
        candidates := Entries();
      }
      var stored := FilterTuples(candidates, filter);
      var extras := MaterializedEntries();
      var overlay := FilterTuples(extras, filter);
      result := stored + overlay;
      ReadsAll(filter, Contents(), candidates, stored, MaterialBag(materialized), overlay);
      SelectsMembers(result, Bag(), filter);
      MaterialBagMembers(materialized);
      forall t { MatchesMeans(t, filter); }
    }

    method ReadUsersets(objectType: string, objectID: string, relation: string) returns (result: seq<Tuple>)
      requires Valid()
      ensures
        var k := ObjectRelationKey(objectType, objectID, relation);
        && (forall t :: multiset(result)[t] ==
              (if t in Contents() && SlotKey(t) == k && t.userRelation != "" then 1 else 0)
              + (if OverlaidUserset(t, objectType, objectID, relation) then MaterialBag(materialized)[t] else 0))
        && (forall t :: t in result <==>
              && t.userRelation != ""
              && (|| (t in Contents() && SlotKey(t) == k)
                  || (&& t in Overlay()
                      && t.objectType == objectType && t.objectID == objectID && t.relation == relation)))
    {
      hide SlotKey, ObjectRelationKey, Stored, IndexOk, MaterialBag, MaterialSet;
      var bucket := BucketEntries(ObjectRelationKey(objectType, objectID, relation));
      result := [];
      for i := 0 to |bucket|
        invariant forall t :: multiset(result)[t] == if t.userRelation != "" then multiset(bucket[..i])[t] else 0
      {
        assert bucket[..i + 1] == bucket[..i] + [bucket[i]];
        if bucket[i].userRelation != "" { result := result + [bucket[i]]; }
      }
      assert bucket[..|bucket|] == bucket;
      ghost var stored := result;
      var extras := MaterializedEntries();
      for i := 0 to |extras|
        invariant forall t :: (multiset(result)[t] == multiset(stored)[t]
          + if OverlaidUserset(t, objectType, objectID, relation) then multiset(extras[..i])[t] else 0)
      {
        assert extras[..i + 1] == extras[..i] + [extras[i]];
        if OverlaidUserset(extras[i], objectType, objectID, relation) { result := result + [extras[i]]; }
      }
      assert extras[..|extras|] == extras;
      MaterialBagMembers(materialized);
      BagMembers(result);
    }

    /** One materializer's tuples are replaced; reads see the stored tuples and every other materializer's as before. */
    method WriteMaterialized(name: string, tuples: seq<Tuple>)
      modifies `materialized
      ensures Contents() == old(Contents())
      ensures
        var others := MaterialBag(old(materialized) - {name});
        && Bag() == multiset(Contents()) + others + multiset(tuples)
        && old(Bag()) == multiset(Contents()) + others + multiset(Material(old(materialized), name))
        && Material(materialized, name) == tuples
      ensures forall t :: t in Overlay() <==> t in tuples || t in MaterialSet(old(materialized) - {name})
    {
      hide MaterialBag, MaterialSet, Stored;
      MaterialBagWithout(materialized, name);
      materialized := materialized[name := tuples];
      assert materialized - {name} == old(materialized) - {name};
      MaterialBagWithout(materialized, name);
      MaterialBagMembers(materialized);
      MaterialBagMembers(materialized - {name});
      BagMembers(tuples);
    }

    /** One materializer's tuples leave the reads, and nothing else does. */
    method ClearMaterialized(name: string)
      modifies `materialized
      ensures Contents() == old(Contents())
      ensures Bag() + multiset(Material(old(materialized), name)) == old(Bag())
      ensures Material(materialized, name) == []
      ensures forall other | other != name :: Material(materialized, other) == Material(old(materialized), other)
    {
      hide MaterialBag, Stored;
      MaterialBagWithout(materialized, name);
      materialized := materialized - {name};
    }

    /** What a keyset scan ranges over: the selected tuples of the whole store in order. */
    ghost function Rows(keep: Tuple -> bool): seq<Tuple> reads this {
      Select(Listing(Bag()), keep)
    }

    lemma RowMembers(keep: Tuple -> bool)
      requires Valid()
      ensures forall u :: u in Rows(keep) <==> u in Contents() + Overlay() && keep(u)
      ensures Sorted(Rows(keep))
    {
      hide Stored, IndexOk, Select, Listing, Sorted, MaterialBag, MaterialSet;
      ListingSorts(Bag());
      SelectMembers(Listing(Bag()), keep);
      SelectSorted(Listing(Bag()), keep);
      BagMembers(Listing(Bag()));
      MaterialBagMembers(materialized);
    }

    /** The capacity smallest selected tuples after the cursor, whatever order the maps are walked in. */
    method CollectPage(keep: Tuple -> bool, after: Option<Tuple>, capacity: nat) returns (page: seq<Tuple>)
      requires Valid()
      ensures page == Take(capacity, RowsAfter(Rows(keep), after))
    {
      hide TupleLess, Take, InsertSorted, Sorted, Stored, IndexOk, MaterialBag;
      var entries := Entries();
      var extras := MaterializedEntries();
      var all := entries + extras;
      page := [];
      ghost var seen: seq<Tuple> := [];
      assert Sorted(seen) && page == Take(capacity, seen) by { NothingTaken(capacity); }
      for i := 0 to |all|
        invariant Sorted(seen) && page == Take(capacity, seen)
        invariant forall t :: multiset(seen)[t] == if Eligible(t, keep, after) then multiset(all[..i])[t] else 0
      {
        var t := all[i];
        assert all[..i + 1] == all[..i] + [t];
        TakeSortedPrefix(capacity, seen);
        if keep(t) {
          page := InsertBoundedPageTuple(page, t, after, capacity);
          if Eligible(t, keep, after) {
            TakeOfInsert(capacity, seen, t);
            InsertKeepsSorted(seen, t);
            InsertBag(seen, t);
            seen := InsertSorted(seen, t);
          }
        }
      }
      assert all[..|all|] == all;
      EligibleRows(Bag(), keep, after, seen);
    }

    method ReadPage(codec: Codec, filter: TupleFilter, cursor: string, limit: int) returns (r: Result<Page, PageError>)
      requires Valid()
      ensures r == PageOf(codec, "", filter, Rows(Selected(filter)), cursor, limit)
      ensures MatchingRows(Rows(Selected(filter)), filter)
      ensures limit < 1 || limit > 500 <==> r == Err(InvalidLimit)
      ensures 1 <= limit <= 500 && |cursor| > 4096 ==> r == Err(InvalidCursor)
      ensures r.Ok? ==> Grouped(r.value.tuples)
      ensures forall t :: t in Rows(Selected(filter)) <==>
        t in Contents() + Overlay()
          && (filter.objectType == "" || t.objectType == filter.objectType)
          && (filter.objectID == "" || t.objectID == filter.objectID)
          && (filter.relation == "" || t.relation == filter.relation)
          && (filter.userType == "" || t.userType == filter.userType)
          && (filter.userID == "" || t.userID == filter.userID)
          && (filter.userRelation == "" || t.userRelation == filter.userRelation)
    {
      hide Rows, PageScope;
      r := ReadScopedPage(codec, "", filter, Selected(filter), cursor, limit);
      PageGrouped(codec, "", filter, Rows(Selected(filter)), cursor, limit);
      RowMembers(Selected(filter));
    }

    method ReadPageExcludingSubject(codec: Codec, filter: TupleFilter, excludedType: string, excludedID: string,
                                    cursor: string, limit: int) returns (r: Result<Page, PageError>)
      requires Valid()
      ensures r == PageOf(codec, ExcludingScope("", excludedType, excludedID), filter,
                          Rows(SelectedBut(filter, excludedType, excludedID)), cursor, limit)
      ensures MatchingRows(Rows(SelectedBut(filter, excludedType, excludedID)), filter)
      ensures r.Ok? ==> Grouped(r.value.tuples)
      ensures forall t :: t in Rows(SelectedBut(filter, excludedType, excludedID)) <==>
        t in Rows(Selected(filter)) && !(t.userType == excludedType && t.userID == excludedID)
    {
      hide Rows, PageScope, Matches;
      RowMembers(Selected(filter));
      RowMembers(SelectedBut(filter, excludedType, excludedID));
      PageGrouped(codec, ExcludingScope("", excludedType, excludedID), filter,
                  Rows(SelectedBut(filter, excludedType, excludedID)), cursor, limit);
      r := ReadScopedPage(codec, ExcludingScope("", excludedType, excludedID), filter,
                          SelectedBut(filter, excludedType, excludedID), cursor, limit);
    }

    method ReadScopedPage(codec: Codec, scope: string, filter: TupleFilter, keep: Tuple -> bool,
                          cursor: string, limit: int) returns (r: Result<Page, PageError>)
      requires Valid() && forall t :: keep(t) ==> Matches(t, filter)
      ensures r == PageOf(codec, scope, filter, Rows(keep), cursor, limit)
      ensures MatchingRows(Rows(keep), filter)
    {
      hide TupleLess, Matches, PageScope, Stored, IndexOk, After, Listing, Select;
      ListingSorts(Bag());
      SelectSorted(Listing(Bag()), keep);
      SelectMembers(Listing(Bag()), keep);
      assert forall i | 0 <= i < |Rows(keep)| :: Rows(keep)[i] in Rows(keep);
      if !LimitOk(limit) { return Err(InvalidLimit); }
      var after := None;
      if cursor != "" {
        var decoded := DecodeCursor(codec, cursor, scope, filter);
        if decoded.Err? { return Err(InvalidCursor); }
        after := Some(decoded.value);
      }
      var result := CollectPage(keep, after, limit + 1);
      ghost var left := RowsAfter(Rows(keep), after);
      assert left == Remaining(codec, scope, filter, Rows(keep), cursor);
      if |result| <= limit { return Ok(Page(result, "")); }
      var page := result[..limit];
      assert page == left[..limit] && page[limit - 1] == left[limit - 1];
      AfterMembers(Rows(keep), after);
      assert left[limit - 1] in left;
      var next := EncodeCursor(codec, scope, filter, page[|page| - 1]);
      r := match next case Ok(cursor) => Ok(Page(page, cursor)) case Err(e) => Err(e);
    }

    /** Direct holders in one bucket. */
    method DirectHoldersLocked(objectType: string, objectID: string, relation: string) returns (count: nat)
      requires Valid()
      ensures count == |HoldersInBucket(Contents(), ObjectRelationKey(objectType, objectID, relation))|
    {
      hide SlotKey, ObjectRelationKey, Stored, IndexOk;
      var k := ObjectRelationKey(objectType, objectID, relation);
      var bucket := BucketEntries(k);
      assert forall t :: t in bucket <==> t in multiset(bucket);
      assert Direct(bucket) == HoldersInBucket(Contents(), k);
      DistinctNumDirect(bucket);
      count := CountDirect(bucket);
    }

    /** Deletes t unless its bucket has min direct holders or fewer before the delete; absent tuples are no breach. */
    method DeleteIfAbove(t: Tuple, min: nat) returns (ok: bool)
      requires Valid()
      modifies `byObjectRelation, `byUser
      ensures Valid()
      ensures
        var present := exists u <- old(Contents()) :: SameSlot(u, t);
        var enough := |HoldersInBucket(old(Contents()), SlotKey(t))| > min;
        && ok == (!present || enough)
        && Contents() == if present && enough then Evict(old(Contents()), t) else old(Contents())
      ensures old(Mirrored()) && KeyFree(old(Contents()), t) ==> Mirrored()
    {
      hide SlotKey, TupleKey, ObjectRelationKey, SubjectKey, KeyFree, Evict, HoldersInBucket;
      StoredIff(byObjectRelation);
      var k, tk := SlotKey(t), TupleKey(t);
      if k !in byObjectRelation || tk !in byObjectRelation[k] { return true; }
      assert SameSlot(byObjectRelation[k][tk], t);
      var holders := DirectHoldersLocked(t.objectType, t.objectID, t.relation);
      SlotKeyIs(t);
      if holders <= min { return false; }
      Delete(t);
      return true;
    }

    /** Replaces what matches the filter by the replacements, through a precommit hook that may veto the exact delta. */
    method ReplaceTx(filter: TupleFilter, replacements: seq<Tuple>, precommit: (seq<Tuple>, seq<Tuple>) -> bool)
      returns (ok: bool, writes: seq<Tuple>, deletes: seq<Tuple>)
      requires Valid()
      modifies `byObjectRelation, `byUser
      ensures Valid()
      ensures Delta(old(Contents()), filter, replacements, writes, deletes)
      ensures forall i, j | 0 <= i < j < |writes| :: StringLess(TupleKey(writes[i]), TupleKey(writes[j]))
      ensures forall i, j | 0 <= i < j < |deletes| :: StringLess(TupleKey(deletes[i]), TupleKey(deletes[j]))
      ensures forall w <- writes :: exists i ::
        0 <= i < |replacements| && replacements[i] == w
        && forall j | i < j < |replacements| :: TupleKey(replacements[j]) != TupleKey(w)
      ensures ok <==> precommit(writes, deletes)
      ensures !ok ==> byObjectRelation == old(byObjectRelation) && byUser == old(byUser)
      ensures ok ==> Contents() == EvictAll(OverwriteAll(old(Contents()), writes), deletes)
      ensures
        var before, wanted := old(Contents()), (set r | r in replacements);
        AllWellFormed(before) && AllWellFormedSeq(replacements) ==>
          && (set w | w in writes) == wanted - Matching(before, filter)
          && (set d | d in deletes) == Matching(before, filter) - wanted
          && (ok ==> Contents() == before - Matching(before, filter) + wanted && (old(Mirrored()) ==> Mirrored()))
    {
      hide Matches, KeySorted, IndexOk, Stored, KeysOf, LastUnderKey, EvictAll, OverwriteAll, WellFormed, UserIndex;
      var entries := Entries();
      var current := FilterTuples(entries, filter);
      ghost var before := Contents();
      SelectsMembers(current, multiset(entries), filter);
      assert (set u | u in current) == Matching(before, filter);
      writes, deletes := ReplacementDiff(current, replacements);
      assert Delta(before, filter, replacements, writes, deletes);
      DeltaMeans(before, filter, replacements, writes, deletes);
      if AllWellFormed(before) && AllWellFormedSeq(replacements) {
        WellFormedDelta(before, filter, replacements, writes, deletes);
      }
      hide Delta, Matching;
      ok := precommit(writes, deletes);
      if !ok { return; }
      WriteTx(writes, deletes);
    }

    /** All writes, then all deletes, under one lock. */
    method WriteTx(writes: seq<Tuple>, deletes: seq<Tuple>)
      requires Valid()
      modifies `byObjectRelation, `byUser
      ensures Valid()
      ensures Contents() == EvictAll(OverwriteAll(old(Contents()), writes), deletes)
      ensures AllWellFormed(old(Contents())) && AllWellFormedSeq(writes) && AllWellFormedSeq(deletes) ==>
        && Contents() == old(Contents()) + (set w | w in writes) - (set d | d in deletes)
        && (old(Mirrored()) ==> Mirrored())
    {
      hide SlotKey, TupleKey, SubjectKey;
      ghost var clean := AllWellFormed(Contents()) && AllWellFormedSeq(writes) && AllWellFormedSeq(deletes);
      for i := 0 to |writes|
        invariant Valid() && Contents() == OverwriteAll(old(Contents()), writes[..i])
        invariant clean ==> AllWellFormed(Contents()) && (old(Mirrored()) ==> Mirrored())
      {
        if clean { WellFormedKeysFree(Contents(), writes[i]); }
        Write(writes[i]);
        assert writes[..i + 1][..i] == writes[..i];
      }
      assert writes[..|writes|] == writes;
      ghost var mid := Contents();
      for i := 0 to |deletes|
        invariant Valid() && Contents() == EvictAll(mid, deletes[..i])
        invariant clean ==> AllWellFormed(Contents()) && (old(Mirrored()) ==> Mirrored())
      {
        if clean { WellFormedKeysFree(Contents(), deletes[i]); }
        Delete(deletes[i]);
        assert deletes[..i + 1][..i] == deletes[..i];
      }
      assert deletes[..|deletes|] == deletes;
      if clean {
        WellFormedOwnSlots(old(Contents()), set w | w in writes);
        OwnSlotsWrite(old(Contents()), writes);
        WellFormedOwnSlots(mid, set d | d in deletes);
        OwnSlotsDelete(mid, deletes);
      }
    }
  }

  lemma UserIndexAdds(ts: set<Tuple>, t: Tuple)
    ensures var ix := UserIndex(ts);
      UserIndex(ts + {t}) ==
      ix[SubjectKey(t) := (if SubjectKey(t) in ix then ix[SubjectKey(t)] else {}) + {TupleKey(t)}]
  {
    var ix, u := UserIndex(ts), SubjectKey(t);
    var got, want := UserIndex(ts + {t}), ix[u := (if u in ix then ix[u] else {}) + {TupleKey(t)}];
    assert got.Keys == want.Keys;
    forall v | v in got ensures got[v] == want[v] {
      if v != u {
        assert forall x :: x in ts + {t} && SubjectKey(x) == v <==> x in ts && SubjectKey(x) == v;
      }
    }
  }

  lemma UserIndexDrops(ts: set<Tuple>, t: Tuple)
    requires KeyFree(ts, t)
    ensures var ix, u := UserIndex(ts), SubjectKey(t);
      UserIndex(ts - {t}) ==
      if u !in ix then ix
      else if ix[u] - {TupleKey(t)} == {} then ix - {u} else ix[u := ix[u] - {TupleKey(t)}]
  {
    hide SlotKey, TupleKey, SubjectKey;
    var ix, u, tk, rest := UserIndex(ts), SubjectKey(t), TupleKey(t), ts - {t};
    var got := UserIndex(rest);
    forall v | v in ix && v != u ensures v in got && got[v] == ix[v] {
      assert forall x :: x in rest && SubjectKey(x) == v <==> x in ts && SubjectKey(x) == v;
    }
    assert KeysOfUser(rest, u) == KeysOfUser(ts, u) - {tk};
    assert u in got <==> KeysOfUser(rest, u) != {} by {
      if KeysOfUser(rest, u) != {} {
        var x :| x in rest && SubjectKey(x) == u;
      }
      if u in got {
        var x :| x in rest && SubjectKey(x) == u;
        assert TupleKey(x) in KeysOfUser(rest, u);
      }
    }
    if u !in ix {
      assert t !in ts;
      assert got == ix;
    }
  }

  lemma OneOfEach(ts: seq<Tuple>, s: set<Tuple>)
    requires forall t :: multiset(ts)[t] == if t in s then 1 else 0
    ensures multiset(ts) == multiset(s)
  {
  }

  lemma AppendBags(a: seq<Tuple>, b: seq<Tuple>)
    ensures forall t :: multiset(a + b)[t] == multiset(a)[t] + multiset(b)[t]
  {
  }

  method FilterTuples(ts: seq<Tuple>, filter: TupleFilter) returns (result: seq<Tuple>)
    ensures Selects(result, multiset(ts), filter)
  {
    result := [];
    for i := 0 to |ts|
      invariant Selects(result, multiset(ts[..i]), filter)
    {
      assert ts[..i + 1] == ts[..i] + [ts[i]];
      if Matches(ts[i], filter) { result := result + [ts[i]]; }
    }
    assert ts[..|ts|] == ts;
  }

  // ---- paging ----

  function Selected(f: TupleFilter): Tuple -> bool {
    t => Matches(t, f)
  }

  function SelectedBut(f: TupleFilter, userType: string, userID: string): Tuple -> bool {
    t => Matches(t, f) && (t.userType != userType || t.userID != userID)
  }

  /** Rows of one object type together in ascending order of types, and likewise the IDs within a type. */
  ghost predicate Grouped(s: seq<Tuple>) {
    forall i, j | 0 <= i < j < |s| ::
      && !StringLess(s[j].objectType, s[i].objectType)
      && (s[i].objectType == s[j].objectType ==> !StringLess(s[j].objectID, s[i].objectID))
  }

  lemma PageGrouped(codec: Codec, scope: string, f: TupleFilter, rows: seq<Tuple>, cursor: string, limit: int)
    requires Sorted(rows)
    ensures
      var page := PageOf(codec, scope, f, rows, cursor, limit);
      page.Ok? ==> Grouped(page.value.tuples)
  {
    hide TupleLess, PageScope, DecodeCursor, After, StringLess, Sorted;
    if PageOf(codec, scope, f, rows, cursor, limit).Ok? {
      if cursor != "" { AfterIsRest(rows, DecodeCursor(codec, cursor, scope, f).value); }
      var left := Remaining(codec, scope, f, rows, cursor);
      if |left| > limit { TakeSorted(left, limit); }
      SortedGroups(PageOf(codec, scope, f, rows, cursor, limit).value.tuples);
    }
  }

  ghost function RowsAfter(rows: seq<Tuple>, after: Option<Tuple>): seq<Tuple> {
    if after.None? then rows else After(rows, after.value)
  }

  predicate Eligible(t: Tuple, keep: Tuple -> bool, after: Option<Tuple>) {
    keep(t) && (after.Some? ==> TupleLess(after.value, t))
  }

  lemma NothingTaken(capacity: nat)
    ensures Sorted([]) && Take(capacity, []) == []
  {
  }

  lemma TakeSortedPrefix(capacity: nat, s: seq<Tuple>)
    requires Sorted(s)
    ensures Sorted(Take(capacity, s)) && |Take(capacity, s)| <= capacity
  {
    hide TupleLess;
  }

  lemma AfterMembers(rows: seq<Tuple>, after: Option<Tuple>)
    ensures forall t <- RowsAfter(rows, after) :: t in rows
  {
  }

  lemma EligibleRows(bag: multiset<Tuple>, keep: Tuple -> bool, after: Option<Tuple>, seen: seq<Tuple>)
    requires Sorted(seen)
    requires forall t :: multiset(seen)[t] == if Eligible(t, keep, after) then bag[t] else 0
    ensures seen == RowsAfter(Select(Listing(bag), keep), after)
  {
    hide TupleLess, Select, Listing, After;
    var rows := Select(Listing(bag), keep);
    ListingSorts(bag);
    SelectCounts(Listing(bag), keep);
    SelectSorted(Listing(bag), keep);
    if after.Some? { AfterIsRest(rows, after.value); }
    assert multiset(seen) == multiset(RowsAfter(rows, after));
    SortedUnique(seen, RowsAfter(rows, after));
  }

  /** One step of a bounded page: find the place by binary search, insert, cut back to capacity. */
  method InsertBoundedPageTuple(page: seq<Tuple>, tuple: Tuple, after: Option<Tuple>, capacity: nat)
    returns (r: seq<Tuple>)
    requires Sorted(page) && |page| <= capacity
    ensures r == if after.Some? && !TupleLess(after.value, tuple) then page
                 else Take(capacity, InsertSorted(page, tuple))
  {
    hide TupleLess;
    if after.Some? && !TupleLess(after.value, tuple) { return page; }
    var lo, hi := 0, |page|;
    while lo < hi
      invariant 0 <= lo <= hi <= |page|
      invariant lo > 0 ==> TupleLess(page[lo - 1], tuple)
      invariant hi < |page| ==> !TupleLess(page[hi], tuple)
    {
      var mid := (lo + hi) / 2;
      if TupleLess(page[mid], tuple) { lo := mid + 1; } else { hi := mid; }
    }
    FoundPosition(page, tuple, lo);
    if |page| == capacity && lo == |page| { return page; }
    r := page[..lo] + [tuple] + page[lo..];
    if |r| > capacity { r := r[..capacity]; }
  }

  lemma FoundPosition(s: seq<Tuple>, t: Tuple, p: nat)
    requires Sorted(s) && p <= |s|
    requires p > 0 ==> TupleLess(s[p - 1], t)
    requires p < |s| ==> !TupleLess(s[p], t)
    ensures Position(s, t) == p
  {
    hide TupleLess, Position;
    var q := Position(s, t);
    if q < p - 1 { NotMoreLess(s[q], s[p - 1], t); }
  }

  // ---- replacement ----

  ghost predicate KeySorted(ts: seq<Tuple>) {
    forall i, j | 0 <= i < j < |ts| :: StringLess(TupleKey(ts[i]), TupleKey(ts[j]))
  }

  ghost function KeysOf(ts: set<Tuple>): set<string> {
    set t | t in ts :: TupleKey(t)
  }

  ghost function KeySet(ts: seq<Tuple>): set<string> {
    KeysOf(set t | t in ts)
  }

  /** t is in ts, and nothing behind it has its key. */
  ghost predicate LastUnderKey(ts: seq<Tuple>, t: Tuple) {
    exists i :: 0 <= i < |ts| && ts[i] == t && forall j | i < j < |ts| :: TupleKey(ts[j]) != TupleKey(t)
  }

  ghost function Matching(ts: set<Tuple>, f: TupleFilter): set<Tuple> {
    set u | u in ts && Matches(u, f)
  }

  /** The ordered, minimal change of keys that turns what matches f into the replacements, the later of two winning. */
  ghost predicate Delta(before: set<Tuple>, f: TupleFilter, replacements: seq<Tuple>,
                        writes: seq<Tuple>, deletes: seq<Tuple>) {
    var had, wanted := KeysOf(Matching(before, f)), KeySet(replacements);
    && KeySorted(writes) && KeySet(writes) == wanted - had && (forall w <- writes :: LastUnderKey(replacements, w))
    && KeySorted(deletes) && KeySet(deletes) == had - wanted && (forall d <- deletes :: d in Matching(before, f))
  }

  lemma StillLastUnderKey(ts: seq<Tuple>, n: nat, t: Tuple)
    requires n < |ts| && LastUnderKey(ts[..n], t) && TupleKey(ts[n]) != TupleKey(t)
    ensures LastUnderKey(ts[..n + 1], t)
  {
    hide TupleKey;
    var front, more := ts[..n], ts[..n + 1];
    var i :| 0 <= i < n && front[i] == t && forall j | i < j < n :: TupleKey(front[j]) != TupleKey(t);
    assert forall j | 0 <= j < n :: more[j] == front[j];
    assert more[n] == ts[n] && more[i] == t;
  }

  lemma NowLastUnderKey(ts: seq<Tuple>, n: nat)
    requires n < |ts|
    ensures LastUnderKey(ts[..n + 1], ts[n])
  {
    hide TupleKey;
    assert ts[..n + 1][n] == ts[n];
  }

  lemma LastIsMember(ts: seq<Tuple>, t: Tuple)
    requires LastUnderKey(ts, t)
    ensures t in ts
  {
  }

  /** Entered in order, so the last tuple under a key stays. */
  method KeyMap(ts: seq<Tuple>) returns (m: map<string, Tuple>)
    ensures m.Keys == KeySet(ts)
    ensures forall k <- m :: TupleKey(m[k]) == k && LastUnderKey(ts, m[k])
  {
    hide TupleKey, LastUnderKey;
    m := map[];
    for i := 0 to |ts|
      invariant m.Keys == KeySet(ts[..i])
      invariant forall k <- m :: TupleKey(m[k]) == k && LastUnderKey(ts[..i], m[k])
    {
      NowLastUnderKey(ts, i);
      forall k | k in m && k != TupleKey(ts[i]) ensures LastUnderKey(ts[..i + 1], m[k]) {
        StillLastUnderKey(ts, i, m[k]);
      }
      assert ts[..i + 1] == ts[..i] + [ts[i]];
      m := m[TupleKey(ts[i]) := ts[i]];
    }
    assert ts[..|ts|] == ts;
  }

  /** The entries of m whose key is not in other, ordered by key. */
  method OrderedDifference(m: map<string, Tuple>, other: set<string>) returns (ts: seq<Tuple>)
    requires forall k <- m :: TupleKey(m[k]) == k
    ensures KeySorted(ts)
    ensures forall t :: t in ts <==> TupleKey(t) in m.Keys - other && m[TupleKey(t)] == t
  {
    hide TupleKey, StringLess;
    ts := [];
    var left := m.Keys - other;
    while left != {}
      invariant left <= m.Keys - other
      invariant KeySorted(ts)
      invariant forall t :: t in ts <==> TupleKey(t) in m.Keys - other - left && m[TupleKey(t)] == t
    {
      var k :| k in left;
      left := left - {k};
      ts := InsertByKey(ts, m[k]);
    }
  }

  method InsertByKey(ts: seq<Tuple>, t: Tuple) returns (r: seq<Tuple>)
    requires KeySorted(ts) && forall u <- ts :: TupleKey(u) != TupleKey(t)
    ensures KeySorted(r) && forall u :: u in r <==> u in ts || u == t
  {
    hide TupleKey, StringLess;
    var p := 0;
    while p < |ts| && StringLess(TupleKey(ts[p]), TupleKey(t))
      invariant p <= |ts| && forall i | 0 <= i < p :: StringLess(TupleKey(ts[i]), TupleKey(t))
    {
      p := p + 1;
    }
    r := ts[..p] + [t] + ts[p..];
    InsertedByKey(ts, t, p);
  }

  lemma InsertedByKey(ts: seq<Tuple>, t: Tuple, p: nat)
    requires KeySorted(ts) && (forall u <- ts :: TupleKey(u) != TupleKey(t)) && p <= |ts|
    requires forall i | 0 <= i < p :: StringLess(TupleKey(ts[i]), TupleKey(t))
    requires p < |ts| ==> !StringLess(TupleKey(ts[p]), TupleKey(t))
    ensures
      var r := ts[..p] + [t] + ts[p..];
      KeySorted(r) && forall u :: u in r <==> u in ts || u == t
  {
    hide TupleKey, StringLess;
    var r := ts[..p] + [t] + ts[p..];
    assert ts == ts[..p] + ts[p..];
    forall j | p <= j < |ts| ensures StringLess(TupleKey(t), TupleKey(ts[j])) {
      assert ts[p] in ts;
      StringTotal(TupleKey(t), TupleKey(ts[p]));
      if p < j { StringTransitive(TupleKey(t), TupleKey(ts[p]), TupleKey(ts[j])); }
    }
    forall i, j | 0 <= i < j < |r| ensures StringLess(TupleKey(r[i]), TupleKey(r[j])) {
      assert r[i] == if i < p then ts[i] else if i == p then t else ts[i - 1];
      assert r[j] == if j < p then ts[j] else if j == p then t else ts[j - 1];
    }
  }

  /** What must be written and deleted to turn current into replacements, in key order. */
  method ReplacementDiff(current: seq<Tuple>, replacements: seq<Tuple>)
    returns (writes: seq<Tuple>, deletes: seq<Tuple>)
    ensures KeySorted(writes) && KeySet(writes) == KeySet(replacements) - KeySet(current)
    ensures KeySorted(deletes) && KeySet(deletes) == KeySet(current) - KeySet(replacements)
    ensures (forall w <- writes :: LastUnderKey(replacements, w)) && (forall d <- deletes :: d in current)
  {
    hide TupleKey, KeySorted;
    var have := KeyMap(current);
    var want := KeyMap(replacements);
    writes := OrderedDifference(want, have.Keys);
    deletes := OrderedDifference(have, want.Keys);
    forall k | k in want.Keys - have.Keys ensures k in KeySet(writes) { assert want[k] in writes; }
    forall k | k in have.Keys - want.Keys ensures k in KeySet(deletes) { assert have[k] in deletes; }
    forall w | w in writes ensures LastUnderKey(replacements, w) { assert want[TupleKey(w)] == w; }
    forall d | d in deletes ensures d in current { assert have[TupleKey(d)] == d; }
  }

  lemma DeltaMeans(before: set<Tuple>, f: TupleFilter, replacements: seq<Tuple>,
                   writes: seq<Tuple>, deletes: seq<Tuple>)
    requires Delta(before, f, replacements, writes, deletes)
    ensures forall i, j | 0 <= i < j < |writes| :: StringLess(TupleKey(writes[i]), TupleKey(writes[j]))
    ensures forall i, j | 0 <= i < j < |deletes| :: StringLess(TupleKey(deletes[i]), TupleKey(deletes[j]))
    ensures forall w <- writes :: exists i ::
      0 <= i < |replacements| && replacements[i] == w
      && forall j | i < j < |replacements| :: TupleKey(replacements[j]) != TupleKey(w)
  {
    hide TupleKey, StringLess, Matches;
  }

  /** On well-formed tuples the delta writes what is missing and deletes what is not wanted. */
  lemma WellFormedDelta(before: set<Tuple>, f: TupleFilter, replacements: seq<Tuple>,
                        writes: seq<Tuple>, deletes: seq<Tuple>)
    requires AllWellFormed(before) && AllWellFormedSeq(replacements)
    requires Delta(before, f, replacements, writes, deletes)
    ensures AllWellFormedSeq(writes) && AllWellFormedSeq(deletes)
    ensures (set w | w in writes) == (set r | r in replacements) - Matching(before, f)
    ensures (set d | d in deletes) == Matching(before, f) - (set r | r in replacements)
  {
    hide TupleKey, WellFormed, Matches, LastUnderKey, KeySorted;
    forall w | w in writes ensures w in replacements { LastIsMember(replacements, w); }
    forall a, b | a in Matching(before, f) + (set r | r in replacements) && TupleKey(a) == TupleKey(b)
      && b in Matching(before, f) + (set r | r in replacements) ensures a == b
    {
      TupleKeyInjective(a, b);
    }
    OneSide((set r | r in replacements), Matching(before, f), writes);
    OneSide(Matching(before, f), (set r | r in replacements), deletes);
  }

  /** Where keys tell the tuples apart, differing keys are differing tuples. */
  lemma OneSide(from: set<Tuple>, other: set<Tuple>, diff: seq<Tuple>)
    requires forall a, b | a in from + other && b in from + other && TupleKey(a) == TupleKey(b) :: a == b
    requires KeySet(diff) == KeysOf(from) - KeysOf(other) && forall d <- diff :: d in from
    ensures (set d | d in diff) == from - other
  {
    hide TupleKey;
    forall t ensures t in diff <==> t in from && t !in other {
      if t in diff { assert TupleKey(t) in KeySet(diff); }
      if t in from && t !in other {
        assert TupleKey(t) in KeysOf(from) - KeysOf(other);
        var d :| d in diff && TupleKey(d) == TupleKey(t);
      }
    }
  }

  // ---- holder floors ----

  ghost function HoldersInBucket(ts: set<Tuple>, key: string): set<Tuple> {
    set t | t in ts && SlotKey(t) == key && t.userRelation == ""
  }

  ghost function Direct(ts: seq<Tuple>): set<Tuple> {
    set t | t in ts && t.userRelation == ""
  }

  /** Direct entries of a listing, repetitions included. */
  function NumDirect(ts: seq<Tuple>): nat {
    if ts == [] then 0 else NumDirect(ts[..|ts| - 1]) + if ts[|ts| - 1].userRelation == "" then 1 else 0
  }

  method CountDirect(ts: seq<Tuple>) returns (count: nat)
    ensures count == NumDirect(ts)
  {
    count := 0;
    for i := 0 to |ts|
      invariant count == NumDirect(ts[..i])
    {
      assert ts[..i + 1][..i] == ts[..i];
      if ts[i].userRelation == "" { count := count + 1; }
    }
    assert ts[..|ts|] == ts;
  }

  lemma {:induction false} DistinctNumDirect(ts: seq<Tuple>)
    requires forall t :: multiset(ts)[t] <= 1
    ensures NumDirect(ts) == |Direct(ts)|
  {
    if ts != [] {
      var front, last := ts[..|ts| - 1], ts[|ts| - 1];
      OccursOnce(ts, |ts| - 1);
      assert ts == front + [last];
      FrontBag(ts, front, last);
      DistinctNumDirect(front);
      DirectSnoc(ts, front, last);
      hide Direct;
    }
  }

  lemma DirectSnoc(ts: seq<Tuple>, front: seq<Tuple>, last: Tuple)
    requires ts == front + [last]
    ensures Direct(ts) == Direct(front) + if last.userRelation == "" then {last} else {}
  {
  }

  lemma FrontBag(ts: seq<Tuple>, front: seq<Tuple>, last: Tuple)
    requires ts == front + [last] && forall t :: multiset(ts)[t] <= 1
    ensures forall t :: multiset(front)[t] <= 1
  {
    forall t ensures multiset(front)[t] <= 1 {
      assert multiset(ts)[t] <= 1;
    }
  }

  lemma SlotKeyIs(t: Tuple)
    ensures SlotKey(t) == ObjectRelationKey(t.objectType, t.objectID, t.relation)
  {
  }

  lemma OccursOnce(s: seq<Tuple>, i: nat)
    requires i < |s| && multiset(s)[s[i]] <= 1
    ensures s[i] !in s[..i]
  {
    assert s == s[..i] + ([s[i]] + s[i + 1..]);
    assert s[i] in s[..i] <==> s[i] in multiset(s[..i]);
  }
}
