/** The engine's tuple operations and holder floors (zanzibar/zanzibar.go, zanzibar/relationships.go). */
module Engine {
  import opened AuthModel
  import opened Keys
  import opened Ordering
  import opened Paging
  import opened Store
  import opened Floors
  import opened Replacement

  datatype EngineError = InvalidTuple | Unrecorded | LastHolder | BadFilter | BadPage(error: PageError)

  // ---- validation ----

  predicate AllowedUser(def: RelationDef, t: Tuple) {
    var ref := if t.userRelation != "" then t.userType + "#" + t.userRelation else t.userType;
    |def.directTypes| == 0 || ref in def.directTypes || t.userType in def.directTypes
  }

  predicate ValidTuple(m: Option<Model>, t: Tuple) {
    m.None? ||
    (&& HasRelation(m.value, t.objectType, t.relation)
     && AllowedUser(m.value.types[t.objectType][t.relation], t)
     && (t.userRelation != "" ==> HasRelation(m.value, t.userType, t.userRelation)))
  }

  ghost predicate NonEmpty(t: Tuple) {
    t.objectType != "" && t.objectID != "" && t.relation != "" && t.userType != "" && t.userID != ""
  }

  /** No materialized tuple on t's object and relation. */
  ghost predicate NoOverlay(overlay: set<Tuple>, t: Tuple) {
    forall u <- overlay :: !(u.objectType == t.objectType && u.objectID == t.objectID && u.relation == t.relation)
  }

  datatype Fenced = Fenced(model: Option<Model>, revision: int)

  /** Only a newer model gets in. */
  function Fence(current: Fenced, compiled: Option<Model>, revision: int): Fenced {
    if current.model.Some? && revision <= current.revision then current else Fenced(compiled, revision)
  }

  class TupleEngine {
    const store: MemoryStore
    const codec: Codec
    /** The model that operations resolve, and the revision it was activated under. */
    var model: Option<Model>
    var revision: int
    /** The precommit recorder's answer to a write (true) or delete (false). */
    const recorder: (bool, Tuple) -> bool

    constructor (store: MemoryStore, codec: Codec, model: Option<Model>, recorder: (bool, Tuple) -> bool)
      ensures this.store == store && this.codec == codec && this.recorder == recorder
      ensures Current() == Fenced(model, 0)
    {
      this.store := store;
      this.codec := codec;
      this.model := model;
      this.revision := 0;
      this.recorder := recorder;
    }

    function Current(): Fenced
      reads this
    {
      Fenced(model, revision)
    }

    /** Later operations are judged by the newest model activated; compiled is None if the source does not compile. */
    method ActivateModel(compiled: Option<Model>, revision: int) returns (ok: bool)
      modifies `model, `revision
      ensures ok <==> revision > 0 && compiled.Some?
      ensures ok && (old(model).None? || revision > old(this.revision)) ==>
        model == compiled && this.revision == revision
      ensures old(model).Some? && revision <= old(this.revision) ==> Current() == old(Current())
      ensures Current() == if ok then Fence(old(Current()), compiled, revision) else old(Current())
    {
      if revision <= 0 || compiled.None? { return false; }
      if model.Some? && revision <= this.revision { return true; }
      model := compiled;
      this.revision := revision;
      return true;
    }

    method WriteTuple(user: string, relation: string, target: string) returns (err: Option<EngineError>)
      requires store.Valid()
      modifies store
      ensures store.Valid() && store.materialized == old(store.materialized)
      ensures
        var t := TupleOf(user, relation, target);
        && err == (if !ValidTuple(model, t) then Some(InvalidTuple)
                   else if !recorder(true, t) then Some(Unrecorded) else None)
        && (model.None? ==> err != Some(InvalidTuple))
        && (model.Some? ==>
              var types := model.value.types;
              err != Some(InvalidTuple) <==>
                && t.objectType in types && t.relation in types[t.objectType]
                && (var listed := types[t.objectType][t.relation].directTypes;
                    listed == [] || t.userType in listed
                    || (t.userRelation != "" && t.userType + "#" + t.userRelation in listed))
                && (t.userRelation == "" || (t.userType in types && t.userRelation in types[t.userType])))
        && store.Contents() == (if err == None then Overwrite(old(store.Contents()), t) else old(store.Contents()))
        && OnePerSlot(old(store.Contents())) && Step(model, old(store.Contents()), store.Contents(), t)
    {
      hide TupleOf, Overwrite, Stored, IndexOk, OnePerSlot;
      StoredOnePerSlot(store.byObjectRelation);
      var t := TupleOf(user, relation, target);
      if !ValidTuple(model, t) { return Some(InvalidTuple); }
      if !recorder(true, t) { return Some(Unrecorded); }
      store.Write(t);
      return None;
    }

    /** Bypasses model validation, but not the recorder. */
    method WriteRawTuple(user: string, relation: string, target: string) returns (err: Option<EngineError>)
      requires store.Valid()
      modifies store
      ensures store.Valid() && store.materialized == old(store.materialized)
      ensures
        var t := TupleOf(user, relation, target);
        && err == (if recorder(true, t) then None else Some(Unrecorded))
        && store.Contents() == (if err == None then Overwrite(old(store.Contents()), t) else old(store.Contents()))
        && OnePerSlot(old(store.Contents())) && Step(model, old(store.Contents()), store.Contents(), t)
    {
      hide TupleOf, Overwrite, Stored, IndexOk, OnePerSlot;
      StoredOnePerSlot(store.byObjectRelation);
      var t := TupleOf(user, relation, target);
      if !recorder(true, t) { return Some(Unrecorded); }
      store.Write(t);
      return None;
    }

    method DeleteTuple(user: string, relation: string, target: string) returns (err: Option<EngineError>)
      requires store.Valid()
      modifies store
      ensures store.Valid() && store.materialized == old(store.materialized)
      ensures
        var t, before := TupleOf(user, relation, target), old(store.Contents());
        && err == (if !recorder(false, t) then Some(Unrecorded)
                   else if Refused(model, before, t) then Some(LastHolder) else None)
        && store.Contents() == (if err == Some(Unrecorded) then before else Deleted(model, before, t))
        && OnePerSlot(before) && Step(model, before, store.Contents(), t)
        && (t.userRelation != "" || MinHolders(model, t.objectType, t.relation) == 0 ==> err != Some(LastHolder))
        && (err == None ==> t !in store.Contents())
    {
      hide TupleOf, Evict, Stored, IndexOk, HoldersInBucket, SlotKey, OnePerSlot;
      StoredOnePerSlot(store.byObjectRelation);
      var t := TupleOf(user, relation, target);
      ghost var before := store.Contents();
      var min := MinHolders(model, t.objectType, t.relation);
      if !recorder(false, t) { return Some(Unrecorded); }
      if min >= 1 && t.userRelation == "" {
        var ok := store.DeleteIfAbove(t, min);
        if !Present(before, t) { EvictAbsent(before, t); }
        EvictedGone(before, t);
        return if ok then None else Some(LastHolder);
      }
      EvictedGone(before, t);
      store.Delete(t);
      return None;
    }

    /** t is read back and reads return no more direct tuples on its object and relation than required. */
    ghost predicate ReadsAtFloor(t: Tuple)
      reads this, store
    {
      && Guarded(model, t) && t in store.Contents() + store.Overlay()
      && NumDirect(store.Rows(Selected(OnRelation(t.objectType, t.objectID, t.relation))))
         <= MinHolders(model, t.objectType, t.relation)
    }

    /** Would DeleteTuple be refused? Reads whole result sets, changes nothing. */
    method CanDelete(user: string, relation: string, target: string) returns (err: Option<EngineError>)
      requires store.Valid()
      ensures
        var t, ts := TupleOf(user, relation, target), store.Contents();
        && err == (if ReadsAtFloor(t) then Some(LastHolder) else None)
        && (NonEmpty(t) && NoOverlay(store.Overlay(), t) ==>
              && (err.Some? <==> AtFloor(model, ts, t))
              && ((err.Some? <==> Refused(model, ts, t)) <==> !Misjudged(model, ts, t)))
    {
      hide TupleOf, Stored, IndexOk, MaterialSet, MaterialBag, Matches, Selects, Select, Listing, NumDirect, Misjudged;
      hide Refused, AtFloor;
      var t := TupleOf(user, relation, target);
      VerdictsDiffer(model, store.Contents(), t);
      if NonEmpty(t) && NoOverlay(store.Overlay(), t) { PlainReads(t); }
      var min := MinHolders(model, t.objectType, t.relation);
      if min < 1 || t.userRelation != "" { return None; }
      var existing := store.Read(ExactFilter(t));
      ExactMatch(t);
      if t !in existing { return None; }
      var tuples := store.Read(OnRelation(t.objectType, t.objectID, t.relation));
      var count := CountDirect(tuples);
      ReadCount(store, OnRelation(t.objectType, t.objectID, t.relation), tuples);
      if count <= min { return Some(LastHolder); }
      return None;
    }

    /** With no overlay in the way and no wildcard, what reads say is what is stored. */
    lemma PlainReads(t: Tuple)
      requires store.Valid() && NonEmpty(t) && NoOverlay(store.Overlay(), t)
      ensures ReadsAtFloor(t) <==> AtFloor(model, store.Contents(), t)
    {
      hide Stored, IndexOk, MaterialSet, MaterialBag, Select, Listing, NumDirect;
      PlainRows(store, t);
    }

    /** The same question through bounded pages, stopping as soon as the answer is known. */
    method CanDeleteBounded(user: string, relation: string, target: string) returns (err: Option<EngineError>)
      requires store.Valid() && Faithful(codec)
      ensures
        var t := TupleOf(user, relation, target);
        var exact := TupleFilter(t.objectType, t.objectID, t.relation, t.userType, t.userID, "");
        var f := TupleFilter(t.objectType, t.objectID, t.relation, "", "", "");
        var found := t in Seen(codec, exact, store.Rows(Selected(exact)));
        var few := NumDirect(Seen(codec, f, store.Rows(Selected(f)))) <= MinHolders(model, t.objectType, t.relation);
        && (err == Some(BadPage(InvalidCursor)) <==>
              && Guarded(model, t)
              && if found then few && !Fit(codec, f, store.Rows(Selected(f)))
                 else !Fit(codec, exact, store.Rows(Selected(exact))))
        && (err in {None, Some(LastHolder), Some(BadPage(InvalidCursor))})
        && (NonEmpty(t) && NoOverlay(store.Overlay(), t) && err != Some(BadPage(InvalidCursor)) ==>
              (err == Some(LastHolder) <==> AtFloor(model, store.Contents(), t)))
    {
      hide TupleOf, Stored, IndexOk, MaterialSet, Matches, Selects, Select, Listing, MaterialBag, Fit, Seen, NumDirect;
      var t := TupleOf(user, relation, target);
      var min := MinHolders(model, t.objectType, t.relation);
      if min < 1 || t.userRelation != "" { return None; }
      ghost var plain := NonEmpty(t) && NoOverlay(store.Overlay(), t);
      var exact := ExactFilter(t);
      var found := BoundedTupleExists(exact, t);
      if found.Err? { return Some(BadPage(found.error)); }
      if plain { PlainFind(store, codec, t); }
      if !found.value { return None; }
      var filter := OnRelation(t.objectType, t.objectID, t.relation);
      var above := MoreDirectThan(filter, min);
      if above.Err? { return Some(BadPage(above.error)); }
      if plain { PlainScan(store, codec, t); }
      return if above.value then None else Some(LastHolder);
    }

    method BoundedTupleExists(filter: TupleFilter, wanted: Tuple) returns (r: Result<bool, PageError>)
      requires store.Valid() && Faithful(codec)
      ensures
        var rows := store.Rows(Selected(filter));
        r == if wanted in Seen(codec, filter, rows) then Ok(true)
             else if Fit(codec, filter, rows) then Ok(false) else Err(InvalidCursor)
    {
      hide Stored, IndexOk, MaterialBag, Select, Listing, Sorted, PageOf, Remaining, Fit, Seen;
      ghost var rows := store.Rows(Selected(filter));
      var cursor := "";
      var page := store.ReadPage(codec, filter, cursor, MAX_PAGE);
      AtStart(codec, rows, filter);
      while true
        invariant MatchingRows(rows, filter) && page == PageOf(codec, "", filter, rows, cursor, MAX_PAGE)
        invariant GoodCursor(codec, filter, cursor)
        invariant
          var left := Remaining(codec, "", filter, rows, cursor);
          && (wanted in Seen(codec, filter, rows) <==> wanted in Seen(codec, filter, left))
          && (Fit(codec, filter, rows) <==> Fit(codec, filter, left))
        decreases |Remaining(codec, "", filter, rows, cursor)|
      {
        ScanStep(codec, rows, filter, cursor);
        if wanted in page.value.tuples { return Ok(true); }
        if page.value.next == "" { return Ok(false); }
        var next := page.value.next;
        page := store.ReadPage(codec, filter, next, MAX_PAGE);
        if page.Err? { return Err(page.error); }
        cursor := next;
      }
    }

    /** Whether more than minimum direct tuples match, counted page by page with an early exit. */
    method MoreDirectThan(filter: TupleFilter, minimum: nat) returns (r: Result<bool, PageError>)
      requires store.Valid() && Faithful(codec)
      ensures
        var rows := store.Rows(Selected(filter));
        r == if NumDirect(Seen(codec, filter, rows)) > minimum then Ok(true)
             else if Fit(codec, filter, rows) then Ok(false) else Err(InvalidCursor)
    {
      hide Stored, IndexOk, MaterialBag, Select, Listing, Sorted, PageOf, Remaining, Fit, Seen, NumDirect;
      ghost var rows := store.Rows(Selected(filter));
      var direct: nat := 0;
      var cursor := "";
      var page := store.ReadPage(codec, filter, cursor, MAX_PAGE);
      AtStart(codec, rows, filter);
      while true
        invariant MatchingRows(rows, filter) && page == PageOf(codec, "", filter, rows, cursor, MAX_PAGE)
        invariant GoodCursor(codec, filter, cursor) && direct <= minimum
        invariant
          var left := Remaining(codec, "", filter, rows, cursor);
          && NumDirect(Seen(codec, filter, rows)) == direct + NumDirect(Seen(codec, filter, left))
          && (Fit(codec, filter, rows) <==> Fit(codec, filter, left))
        decreases |Remaining(codec, "", filter, rows, cursor)|
      {
        ScanStep(codec, rows, filter, cursor);
        ghost var left := Remaining(codec, "", filter, rows, cursor);
        var tuples := page.value.tuples;
        NumDirectFront(Seen(codec, filter, left), tuples);
        var over;
        direct, over := AddDirect(tuples, direct, minimum);
        if over { return Ok(true); }
        if page.value.next == "" {
          NumDirectNone();
          return Ok(false);
        }
        var next := page.value.next;
        page := store.ReadPage(codec, filter, next, MAX_PAGE);
        if page.Err? {
          NumDirectNone();
          return Err(page.error);
        }
        cursor := next;
      }
    }

    /** All writes then all deletes or nothing; every write is validated and every change recorded first. */
    method WriteRelationships(writes: seq<Tuple>, deletes: seq<Tuple>) returns (err: Option<EngineError>)
      requires store.Valid()
      modifies store
      ensures store.Valid() && store.materialized == old(store.materialized)
      ensures err == if writes == [] && deletes == [] then None
                     else if exists w <- writes :: !ValidTuple(model, w) then Some(InvalidTuple)
                     else if !AllRecorded(recorder, writes, deletes) then Some(Unrecorded) else None
      ensures err == Some(Unrecorded) ==>
        (exists w <- writes :: !recorder(true, w)) || (exists d <- deletes :: !recorder(false, d))
      ensures err == None ==> (forall w <- writes :: recorder(true, w)) && (forall d <- deletes :: recorder(false, d))
      ensures store.Contents() == if err == None then EvictAll(OverwriteAll(old(store.Contents()), writes), deletes)
                                  else old(store.Contents())
    {
      hide ValidTuple, Stored, IndexOk;
      if |writes| == 0 && |deletes| == 0 { return None; }
      for i := 0 to |writes|
        invariant forall j | 0 <= j < i :: ValidTuple(model, writes[j])
      {
        if !ValidTuple(model, writes[i]) { return Some(InvalidTuple); }
      }
      if !AllRecorded(recorder, writes, deletes) { return Some(Unrecorded); }
      store.WriteTx(writes, deletes);
      return None;
    }

    /**
     * Replaces the tuples matching the filter, or fails and changes nothing. What is left is what was asked for exactly
     * when no other tuple sits in a slot it is about.
     */
    method ReplaceRelationships(filter: TupleFilter, replacements: seq<Tuple>) returns (err: Option<EngineError>)
      requires store.Valid()
      modifies store
      ensures store.Valid() && store.materialized == old(store.materialized)
      ensures err != None ==> store.Contents() == old(store.Contents())
      ensures err in {None, Some(BadFilter), Some(InvalidTuple), Some(Unrecorded)}
      ensures err == Some(BadFilter) <==> !BoundedFilter(filter)
      ensures err == Some(InvalidTuple) <==>
        (err != Some(BadFilter) && exists r <- replacements :: !Matches(r, filter) || !ValidTuple(model, r))
      ensures err in {None, Some(Unrecorded)} ==>
        exists writes, deletes ::
          && Delta(old(store.Contents()), filter, replacements, writes, deletes)
          && (err == None <==> AllRecorded(recorder, writes, deletes))
          && (err == None ==> store.Contents() == Changed(old(store.Contents()), writes, deletes))
      ensures
        var before, wanted := old(store.Contents()), (set r | r in replacements);
        var now := Matching(before, filter);
        && (err in {None, Some(Unrecorded)} && SlotsFree(before, filter, replacements) ==>
              (err == None <==>
                 (forall w <- wanted - now :: recorder(true, w)) && (forall d <- now - wanted :: recorder(false, d))))
        && (err == None ==>
              (Replaced(before, filter, replacements, store.Contents()) <==> SlotsFree(before, filter, replacements)))
        && (err == None && AllWellFormed(before) && AllWellFormedSeq(replacements) && old(store.Mirrored()) ==>
              SlotsFree(before, filter, replacements) && store.Mirrored())
    {
      hide ValidTuple, Matches, Stored, IndexOk, WellFormed, KeySorted, Delta, EvictAll, OverwriteAll, UserIndex;
      hide OnePerSlot, SlotsFree, Replaced;
      ghost var before := store.Contents();
      StoredOnePerSlot(store.byObjectRelation);
      if filter.objectType == "" || filter.objectID == "" || filter.relation == "" { return Some(BadFilter); }
      for i := 0 to |replacements|
        invariant forall j | 0 <= j < i :: Matches(replacements[j], filter) && ValidTuple(model, replacements[j])
      {
        if !Matches(replacements[i], filter) { return Some(InvalidTuple); }
        if !ValidTuple(model, replacements[i]) { return Some(InvalidTuple); }
      }
      var record := recorder;
      var ok, writes, deletes := store.ReplaceTx(filter, replacements, (ws, ds) => AllRecorded(record, ws, ds));
      ReplacedExactly(before, filter, replacements, writes, deletes);
      if SlotsFree(before, filter, replacements) {
        FreeDelta(before, filter, replacements, writes, deletes);
        SameRecorded(recorder, writes, deletes, (set w | w in writes), (set d | d in deletes));
      }
      if AllWellFormed(before) && AllWellFormedSeq(replacements) { WellFormedSlotsFree(before, filter, replacements); }
      if !ok { return Some(Unrecorded); }
      return None;
    }
  }

  /** Counts on from base until minimum is exceeded. */
  method AddDirect(tuples: seq<Tuple>, base: nat, minimum: nat) returns (direct: nat, over: bool)
    requires base <= minimum
    ensures over <==> base + NumDirect(tuples) > minimum
    ensures !over ==> direct == base + NumDirect(tuples)
  {
    hide NumDirect;
    NumDirectNone();
    direct := base;
    for i := 0 to |tuples|
      invariant direct == base + NumDirect(tuples[..i]) && direct <= minimum
    {
      NumDirectSnoc(tuples, i);
      if tuples[i].userRelation == "" {
        direct := direct + 1;
        if direct > minimum {
          NumDirectPrefix(tuples, i + 1);
          return direct, true;
        }
      }
    }
    assert tuples[..|tuples|] == tuples;
    over := false;
  }

  predicate AllRecorded(recorder: (bool, Tuple) -> bool, writes: seq<Tuple>, deletes: seq<Tuple>) {
    (forall w <- writes :: recorder(true, w)) && (forall d <- deletes :: recorder(false, d))
  }

  lemma SameRecorded(recorder: (bool, Tuple) -> bool, writes: seq<Tuple>, deletes: seq<Tuple>,
                     ws: set<Tuple>, ds: set<Tuple>)
    requires ws == (set w | w in writes) && ds == (set d | d in deletes)
    ensures AllRecorded(recorder, writes, deletes) <==>
      (forall w <- ws :: recorder(true, w)) && (forall d <- ds :: recorder(false, d))
  {
  }

  lemma EvictedGone(ts: set<Tuple>, t: Tuple)
    ensures t !in Evict(ts, t)
  {
    hide SlotKey, TupleKey;
    assert SameSlot(t, t);
  }

  lemma EvictAbsent(ts: set<Tuple>, t: Tuple)
    requires !Present(ts, t)
    ensures Evict(ts, t) == ts
  {
    hide SlotKey, TupleKey;
  }

  function ExactFilter(t: Tuple): TupleFilter {
    TupleFilter(t.objectType, t.objectID, t.relation, t.userType, t.userID, "")
  }

  lemma ExactMatch(t: Tuple)
    ensures Matches(t, ExactFilter(t))
  {
  }

  lemma OnRelationMatch(t: Tuple, u: Tuple)
    requires NonEmpty(t)
    ensures Matches(u, OnRelation(t.objectType, t.objectID, t.relation)) <==>
      u.objectType == t.objectType && u.objectID == t.objectID && u.relation == t.relation
  {
  }

  /** With no overlay in the way, reading the object and relation returns each stored tuple once. */
  lemma PlainSelection(store: MemoryStore, t: Tuple, tuples: seq<Tuple>)
    requires store.Valid() && NonEmpty(t) && NoOverlay(store.Overlay(), t)
    requires Selects(tuples, store.Bag(), OnRelation(t.objectType, t.objectID, t.relation))
    ensures forall u :: multiset(tuples)[u] <= 1
    ensures Direct(tuples) == Holders(store.Contents(), t.objectType, t.objectID, t.relation)
  {
    hide Stored, IndexOk, MaterialBag, MaterialSet, Matches;
    var f := OnRelation(t.objectType, t.objectID, t.relation);
    MaterialBagMembers(store.materialized);
    forall u ensures multiset(tuples)[u] == if Matches(u, f) && u in store.Contents() then 1 else 0 {
      OnRelationMatch(t, u);
    }
    BagMembers(tuples);
    forall u ensures u in Direct(tuples) <==> u in Holders(store.Contents(), t.objectType, t.objectID, t.relation) {
      OnRelationMatch(t, u);
    }
  }

  lemma {:induction false} NumDirectBag(a: seq<Tuple>, b: seq<Tuple>)
    requires multiset(a) == multiset(b)
    ensures NumDirect(a) == NumDirect(b)
    decreases |a|
  {
    hide NumDirect;
    assert |a| == |multiset(a)| == |multiset(b)| == |b|;
    if a != [] {
      var x := a[0];
      assert x in multiset(b);
      var i :| 0 <= i < |b| && b[i] == x;
      Without(a, 0);
      Without(b, i);
      NumDirectBag(a[..0] + a[1..], b[..i] + b[i + 1..]);
    }
  }

  lemma Without(s: seq<Tuple>, i: nat)
    requires i < |s|
    ensures
      var rest := s[..i] + s[i + 1..];
      multiset(rest) == multiset(s) - multiset{s[i]} && NumDirect(s) == NumDirect(rest) + NumDirect([s[i]])
  {
    hide NumDirect;
    assert s == s[..i] + ([s[i]] + s[i + 1..]);
    NumDirectJoin(s[..i], s[i + 1..]);
    NumDirectJoin(s[..i], [s[i]] + s[i + 1..]);
    NumDirectJoin([s[i]], s[i + 1..]);
  }

  lemma NumDirectJoin(a: seq<Tuple>, b: seq<Tuple>)
    ensures NumDirect(a + b) == NumDirect(a) + NumDirect(b)
  {
    NumDirectPrefix(a + b, |a|);
    assert (a + b)[..|a|] == a && (a + b)[|a|..] == b;
  }

  /** Reading whole and listing in order count alike. */
  lemma ReadCount(store: MemoryStore, f: TupleFilter, tuples: seq<Tuple>)
    requires store.Valid() && Selects(tuples, store.Bag(), f)
    ensures NumDirect(tuples) == NumDirect(store.Rows(Selected(f)))
  {
    hide Select, Listing, Matches, NumDirect, Stored, IndexOk, MaterialBag;
    ListingSorts(store.Bag());
    SelectCounts(Listing(store.Bag()), Selected(f));
    assert multiset(tuples) == multiset(store.Rows(Selected(f)));
    NumDirectBag(tuples, store.Rows(Selected(f)));
  }

  lemma PlainRows(store: MemoryStore, t: Tuple)
    requires store.Valid() && NonEmpty(t) && NoOverlay(store.Overlay(), t)
    ensures
      var rows := store.Rows(Selected(OnRelation(t.objectType, t.objectID, t.relation)));
      && Increasing(rows)
      && NumDirect(rows) == |Holders(store.Contents(), t.objectType, t.objectID, t.relation)|
  {
    hide Select, Listing, Matches, NumDirect, TupleLess, Stored, IndexOk, MaterialBag, MaterialSet;
    var f := OnRelation(t.objectType, t.objectID, t.relation);
    var rows := store.Rows(Selected(f));
    ListingSorts(store.Bag());
    SelectCounts(Listing(store.Bag()), Selected(f));
    SelectSorted(Listing(store.Bag()), Selected(f));
    PlainSelection(store, t, rows);
    DistinctNumDirect(rows);
    DistinctIncreasing(rows);
  }

  lemma DistinctIncreasing(rows: seq<Tuple>)
    requires Sorted(rows) && forall u :: multiset(rows)[u] <= 1
    ensures Increasing(rows)
  {
    hide TupleLess;
    forall i, j | 0 <= i < j < |rows| ensures TupleLess(rows[i], rows[j]) {
      OccursOnce(rows, j);
      assert rows[..j][i] == rows[i];
      LessAsymmetricOr(rows[i], rows[j]);
    }
  }

  // ---- following cursors ----

  /** Every cursor that a full scan of rows needs can be taken back. */
  ghost predicate Fit(codec: Codec, f: TupleFilter, rows: seq<Tuple>) {
    Sorted(rows) && BoundariesFit(codec, PageScope(codec, "", f), rows, MAX_PAGE)
  }

  /** What a scan of rows gets to see before a cursor is refused. */
  ghost function Seen(codec: Codec, f: TupleFilter, rows: seq<Tuple>): seq<Tuple> {
    if Sorted(rows) then Readable(codec, PageScope(codec, "", f), rows, MAX_PAGE) else []
  }

  ghost predicate GoodCursor(codec: Codec, f: TupleFilter, cursor: string) {
    cursor == "" || DecodeCursor(codec, cursor, "", f).Ok?
  }

  lemma AtStart(codec: Codec, rows: seq<Tuple>, f: TupleFilter)
    ensures Remaining(codec, "", f, rows, "") == rows
  {
  }

  /** One page of a scan: its rows are seen, and the rest depends on whether its cursor is taken back. */
  lemma ScanStep(codec: Codec, rows: seq<Tuple>, f: TupleFilter, cursor: string)
    requires Faithful(codec) && MatchingRows(rows, f) && GoodCursor(codec, f, cursor)
    ensures
      var left, page := Remaining(codec, "", f, rows, cursor), PageOf(codec, "", f, rows, cursor, MAX_PAGE);
      && page.Ok?
      && (page.value.next == "" ==> Seen(codec, f, left) == page.value.tuples && Fit(codec, f, left))
      && (page.value.next != "" ==>
            var next, rest := page.value.next, Remaining(codec, "", f, rows, page.value.next);
            var later := PageOf(codec, "", f, rows, next, MAX_PAGE);
            && (later.Err? ==>
                  later.error == InvalidCursor && Seen(codec, f, left) == page.value.tuples && !Fit(codec, f, left))
            && (later.Ok? ==>
                  && GoodCursor(codec, f, next) && |rest| < |left|
                  && Seen(codec, f, left) == page.value.tuples + Seen(codec, f, rest)
                  && (Fit(codec, f, left) <==> Fit(codec, f, rest))))
  {
    hide TupleLess, Matches, PageScope, After, Sorted;
    var left := Remaining(codec, "", f, rows, cursor);
    if cursor != "" { AfterIsRest(rows, DecodeCursor(codec, cursor, "", f).value); }
    if |left| > MAX_PAGE {
      NextCursorResumes(codec, "", f, rows, cursor, MAX_PAGE);
      SplitAt(left, MAX_PAGE);
      AfterIsRest(left, left[MAX_PAGE - 1]);
    }
  }

  /** Without an overlay a finished lookup by pages finds exactly the stored tuple. */
  lemma PlainFind(store: MemoryStore, codec: Codec, t: Tuple)
    requires store.Valid() && NonEmpty(t) && NoOverlay(store.Overlay(), t) && t.userRelation == ""
    ensures
      var f := ExactFilter(t);
      var rows := store.Rows(Selected(f));
      && (t in Seen(codec, f, rows) ==> t in store.Contents())
      && (Fit(codec, f, rows) && t in store.Contents() ==> t in Seen(codec, f, rows))
  {
    hide Stored, IndexOk, MaterialSet, MaterialBag, Select, Listing, Matches;
    hide Readable, BoundariesFit, Sorted, Increasing;
    var f := ExactFilter(t);
    store.RowMembers(Selected(f));
    ExactMatch(t);
    ReadableRows(codec, PageScope(codec, "", f), store.Rows(Selected(f)), MAX_PAGE);
  }

  /** Without an overlay a scan that finished or saw enough has counted the object's own holders. */
  lemma PlainScan(store: MemoryStore, codec: Codec, t: Tuple)
    requires store.Valid() && NonEmpty(t) && NoOverlay(store.Overlay(), t)
    ensures
      var f := OnRelation(t.objectType, t.objectID, t.relation);
      var rows, own := store.Rows(Selected(f)), |Holders(store.Contents(), t.objectType, t.objectID, t.relation)|;
      && NumDirect(Seen(codec, f, rows)) <= own
      && (Fit(codec, f, rows) ==> NumDirect(Seen(codec, f, rows)) == own)
  {
    hide Stored, IndexOk, MaterialSet, MaterialBag, Select, Listing, Matches;
    hide Readable, BoundariesFit, Sorted, Increasing;
    hide NumDirect;
    var f := OnRelation(t.objectType, t.objectID, t.relation);
    var rows := store.Rows(Selected(f));
    PlainRows(store, t);
    store.RowMembers(Selected(f));
    ReadableRows(codec, PageScope(codec, "", f), rows, MAX_PAGE);
    NumDirectFront(rows, Seen(codec, f, rows));
  }

  lemma NumDirectFront(ts: seq<Tuple>, front: seq<Tuple>)
    requires front <= ts
    ensures NumDirect(ts) == NumDirect(front) + NumDirect(ts[|front|..])
  {
    hide NumDirect;
    NumDirectPrefix(ts, |front|);
    assert ts[..|front|] == front;
  }

  lemma NumDirectNone()
    ensures NumDirect([]) == 0
  {
  }

  lemma NumDirectSnoc(ts: seq<Tuple>, i: nat)
    requires i < |ts|
    ensures NumDirect(ts[..i + 1]) == NumDirect(ts[..i]) + if ts[i].userRelation == "" then 1 else 0
  {
    assert ts[..i + 1][..i] == ts[..i];
  }

  lemma {:induction false} NumDirectPrefix(ts: seq<Tuple>, n: nat)
    requires n <= |ts|
    ensures NumDirect(ts) == NumDirect(ts[..n]) + NumDirect(ts[n..])
    decreases |ts| - n
  {
    if n == |ts| {
      assert ts[..n] == ts && ts[n..] == [];
    } else {
      var front := ts[..|ts| - 1];
      NumDirectPrefix(front, n);
      assert front[..n] == ts[..n] && front[n..] == ts[n..][..|ts| - 1 - n];
    }
  }
}
