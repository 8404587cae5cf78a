/** The graph search behind Check and the enumerations built on it (zanzibar/check). */
module Checker {
  import opened AuthModel
  import opened Keys
  import opened Store
  import opened Semantics

  /** The visited map shared by every branch of one search, and the nodes its keys stand for, one for each. */
  class VisitedSet {
    var keys: set<string>
    ghost var nodes: set<Node>

    ghost predicate Tracks(s: Scene) reads this {
      keys == (set n | n in nodes :: VisitKey(s, n)) && KeysDistinct(s, nodes)
    }

    constructor ()
      ensures keys == {} && nodes == {}
    {
      keys := {};
      nodes := {};
    }

    method Mark(ghost s: Scene, n: Node, key: string)
      requires Tracks(s) && key == VisitKey(s, n) && key !in keys
      modifies this
      ensures Tracks(s) && nodes == old(nodes) + {n} && keys == old(keys) + {key}
    {
      hide SearchKey;
      keys := keys + {key};
      nodes := nodes + {n};
    }
  }

  /** No rule at any node of done grants outright or leads to a node whose key is not among keys. */
  ghost predicate Explored(s: Scene, done: set<Node>, keys: set<string>) {
    forall n <- done, rw <- Rewrites(s.model, n) ::
      !GrantsOutright(s, n, rw) && KeysKnown(s, Targets(s, n, rw), keys)
  }

  ghost predicate KeysKnown(s: Scene, nodes: set<Node>, keys: set<string>) {
    forall d <- nodes :: VisitKey(s, d) in keys
  }

  lemma ExploredWith(s: Scene, n: Node, before: set<Node>, nodes: set<Node>, keys: set<string>)
    requires Explored(s, nodes - (before + {n}), keys)
    requires forall rw <- Rewrites(s.model, n) :: !GrantsOutright(s, n, rw) && KeysKnown(s, Targets(s, n, rw), keys)
    ensures Explored(s, nodes - before, keys)
  {
    hide Rewrites, GrantsOutright, Targets, KeysKnown;
  }

  /** Chains two explored stretches of a search. */
  lemma Absorb(s: Scene, start: set<Node>, mid: set<Node>, end: set<Node>, keys: set<string>, more: set<string>)
    requires start <= mid <= end && keys <= more
    requires Explored(s, mid - start, keys) && Explored(s, end - mid, more)
    ensures Explored(s, end - start, more)
  {
    hide Rewrites, GrantsOutright, Targets, SearchKey;
    assert end - start == (mid - start) + (end - mid);
  }

  /**
   * Why a search from n was denied: nodes it can reach, no two with one key, where no rule grants outright or leads to
   * a node whose key none of them has.
   */
  ghost predicate DenialBasis(s: Scene, n: Node, nodes: set<Node>) {
    n in nodes && nodes <= Reachable(s, n) && KeysDistinct(s, nodes)
    && Explored(s, nodes, set x | x in nodes :: VisitKey(s, x))
  }

  ghost predicate Deniable(s: Scene, n: Node) {
    exists nodes :: DenialBasis(s, n, nodes)
  }

  /** All parts of the question are given, the relation takes only tuples of its own, and no tuple has a userset. */
  ghost predicate PlainRelation(s: Scene, n: Node) {
    && n.objectType != "" && n.objectID != "" && n.relation != "" && s.userType != "" && s.userID != ""
    && n.objectType in s.model.types && n.relation in s.model.types[n.objectType]
    && s.model.types[n.objectType][n.relation].rewrites == [RewriteRule(true, "", None)]
    && forall t <- Seen(s) :: t.userRelation == ""
  }

  lemma PlainlyHeld(s: Scene, n: Node)
    requires PlainRelation(s, n)
    ensures TakesDirect(s.model, n.objectType, n.relation)
    ensures (exists t :: HeldBy(s, n, t)) <==>
      exists t <- Seen(s) :: t.objectType == n.objectType && t.objectID == n.objectID && t.relation == n.relation
                             && t.userType == s.userType && t.userID == s.userID
  {
    assert Rewrites(s.model, Node(n.objectType, "", n.relation))[0].direct;
    forall t ensures HeldBy(s, n, t) <==>
      t in Seen(s) && t.objectType == n.objectType && t.objectID == n.objectID && t.relation == n.relation
      && t.userType == s.userType && t.userID == s.userID
    {
    }
  }

  lemma PlainGrantIsHeld(s: Scene, n: Node)
    requires PlainRelation(s, n) && Granted(s, n)
    ensures exists t :: HeldBy(s, n, t)
  {
    hide Granted;
    GrantedMeans(s, n);
  }

  /** A node that is denied is not held outright. */
  lemma DeniedNotHeld(s: Scene, n: Node, nodes: set<Node>)
    requires DenialBasis(s, n, nodes)
    ensures TakesDirect(s.model, n.objectType, n.relation) ==> forall t :: !HeldBy(s, n, t)
  {
    hide Reachable, KeysDistinct, Targets, KeysKnown;
    if TakesDirect(s.model, n.objectType, n.relation) {
      var rw :| rw in Rewrites(s.model, Node(n.objectType, "", n.relation)) && rw.direct;
      assert rw in Rewrites(s.model, n);
      assert !GrantsOutright(s, n, rw);
      forall t ensures !HeldBy(s, n, t) { assert t !in Hits(s, DirectFilter(s, n)); }
    }
  }

  /** Where the reachable nodes have distinct keys a denial is right. */
  lemma DenialIsRight(s: Scene, n: Node, nodes: set<Node>)
    requires DenialBasis(s, n, nodes) && KeysDistinct(s, Reachable(s, n))
    ensures !Granted(s, n)
  {
    hide Reachable, SearchKey, Rewrites, GrantsOutright, Targets, Granted;
    ReachableClosed(s, n);
    forall x, rw | x in nodes && rw in Rewrites(s.model, x)
      ensures !GrantsOutright(s, x, rw) && Targets(s, x, rw) <= nodes
    {
      ClosedTargets(s, Reachable(s, n), x, rw);
      forall d | d in Targets(s, x, rw) ensures d in nodes {
        assert VisitKey(s, d) in set y | y in nodes :: VisitKey(s, y);
      }
    }
    DeadEndNeverGranted(s, nodes, n);
  }

  class RelationChecker {
    const model: Model
    const store: MemoryStore
    /** Ephemeral tuples of one evaluation; empty for a check against the store alone. */
    const context: seq<Tuple>

    constructor (model: Model, store: MemoryStore, context: seq<Tuple>)
      ensures this.model == model && this.store == store && this.context == context
    {
      this.model := model;
      this.store := store;
      this.context := context;
    }

    /** What a check for this user sees. */
    ghost function SceneFor(userType: string, userID: string): Scene
      reads store
    {
      Scene(model, store.Contents(), store.Overlay() + (set t | t in context), userType, userID)
    }

    method Read(ghost s: Scene, filter: TupleFilter) returns (result: seq<Tuple>)
      requires store.Valid() && s == SceneFor(s.userType, s.userID)
      ensures (set t | t in result) == Hits(s, filter)
    {
      hide Matches, Selects, Stored, MaterialSet, MaterialBag, IndexOk;
      result := store.Read(filter);
      ghost var inner := result;
      for i := 0 to |context|
        invariant forall t :: t in result <==> t in inner || (t in context[..i] && Matches(t, filter))
      {
        if Matches(context[i], filter) { result := result + [context[i]]; }
      }
    }

    method ReadUsersets(ghost s: Scene, n: Node) returns (result: seq<Tuple>)
      requires store.Valid() && s == SceneFor(s.userType, s.userID)
      ensures (set t | t in result) == UsersetHits(s, n)
    {
      hide SlotKey, ObjectRelationKey, Stored, IndexOk, MaterialBag, MaterialSet;
      result := store.ReadUsersets(n.objectType, n.objectID, n.relation);
      ghost var inner := result;
      for i := 0 to |context|
        invariant forall t :: t in result <==>
          t in inner || (t in context[..i] && OverlaidUserset(t, n.objectType, n.objectID, n.relation))
      {
        var t := context[i];
        if OverlaidUserset(t, n.objectType, n.objectID, n.relation) {
          result := result + [t];
        }
      }
    }

    method DirectCheck(ghost s: Scene, n: Node, userType: string, userID: string) returns (found: bool)
      requires store.Valid() && s == SceneFor(userType, userID)
      ensures found <==> DirectHit(s, n)
      ensures found <==> exists t :: HeldBy(s, n, t)
    {
      var tuples := Read(s, TupleFilter(n.objectType, n.objectID, n.relation, userType, userID, ""));
      found := |tuples| > 0;
      if found { assert tuples[0] in Hits(s, DirectFilter(s, n)); }
      forall t ensures t in Hits(s, DirectFilter(s, n)) <==> HeldBy(s, n, t) {}
    }

    /**
     * Sound for every key scheme, and a denial always has its basis. Exact whenever the search's string keys tell the
     * nodes it can reach apart, whatever order the store returns tuples in.
     */
    method Check(userType: string, userID: string, relation: string, objectType: string, objectID: string)
      returns (allowed: bool)
      requires store.Valid()
      ensures
        var s, n := SceneFor(userType, userID), Node(objectType, objectID, relation);
        && (allowed ==> Granted(s, n) && GrantedApart(s, n, {}))
        && (!allowed ==> Deniable(s, n))
        && (KeysDistinct(s, Reachable(s, n)) ==> (allowed <==> Granted(s, n)))
        && (TakesDirect(model, objectType, relation) && (exists t :: HeldBy(s, n, t)) ==> allowed)
        && (PlainRelation(s, n) ==>
              (allowed <==> exists t <- store.Contents() + store.Overlay() + (set c | c in context) ::
                 t.objectType == objectType && t.objectID == objectID && t.relation == relation
                 && t.userType == userType && t.userID == userID))
    {
      hide Reachable, Granted, GrantedApart, KeysDistinct, Explored, HeldBy, PlainRelation, TakesDirect;
      var visited := new VisitedSet();
      ghost var s, n := SceneFor(userType, userID), Node(objectType, objectID, relation);
      ReachableClosed(s, n);
      NothingVisited(s);
      allowed := CheckNode(userType, userID, Node(objectType, objectID, relation), visited, s, Reachable(s, n));
      assert Seen(s) == store.Contents() + store.Overlay() + (set c | c in context);
      if PlainRelation(s, n) { PlainlyHeld(s, n); }
      if allowed {
        ApartIsGranted(s, n, {});
        if PlainRelation(s, n) { PlainGrantIsHeld(s, n); }
      } else {
        ghost var basis := visited.nodes;
        assert basis - {} == basis;
        assert DenialBasis(s, n, basis);
        assert Deniable(s, n);
        DeniedNotHeld(s, n, basis);
        if KeysDistinct(s, Reachable(s, n)) { DenialIsRight(s, n, basis); }
      }
    }

    /** Check with further ephemeral tuples laid over everything this checker already sees. */
    method CheckWithContext(contextTuples: seq<Tuple>, userType: string, userID: string,
                            relation: string, objectType: string, objectID: string) returns (allowed: bool)
      requires store.Valid()
      ensures
        var seen, extra, n :=
          SceneFor(userType, userID), (set t | t in contextTuples), Node(objectType, objectID, relation);
        var laid, written := Laid(seen, extra), Written(seen, extra);
        && (allowed ==> Granted(laid, n) && Granted(written, n))
        && (KeysDistinct(laid, Reachable(laid, n)) ==> (allowed <==> Granted(laid, n)))
        && (KeysDistinct(laid, Reachable(laid, n)) && ReadAsOwn(extra, Reachable(written, n)) ==>
              (allowed <==> Granted(written, n)))
        && (ParsedScene(laid) && Nameable(n, false) && PlainUsersets(extra) ==> (allowed <==> Granted(written, n)))
    {
      hide Reachable, Granted, KeysDistinct, ReadAsOwn, Parsed, OneReading;
      var tmp := new RelationChecker(model, store, context + contextTuples);
      allowed := tmp.Check(userType, userID, relation, objectType, objectID);
      ghost var seen, extra, n :=
        SceneFor(userType, userID), (set t | t in contextTuples), Node(objectType, objectID, relation);
      ghost var laid := Laid(seen, extra);
      assert tmp.SceneFor(userType, userID) == laid;
      OverlayIsStorage(seen, extra, n);
      if ParsedScene(laid) && Nameable(n, false) && PlainUsersets(extra) {
        NameableKeysDistinct(laid, n);
        PlainExtras(laid, extra);
        PlainContext(seen, extra, n, false);
      }
    }

    /**
     * Each candidate of the type scan is checked once. What is missed is what no tuple is about, which among nameable
     * tuples is nothing as long as the object's buckets are its own.
     */
    method ListObjects(userType: string, userID: string, relation: string, objectType: string)
      returns (result: seq<string>)
      requires store.Valid()
      ensures forall i, j | 0 <= i < j < |result| :: result[i] != result[j]
      ensures
        var s := SceneFor(userType, userID);
        && (forall id <- result :: Candidate(s, objectType, id) && Granted(s, Node(objectType, id, relation)))
        && (forall id | KeysDistinct(s, Reachable(s, Node(objectType, id, relation))) ::
              id in result <==> Candidate(s, objectType, id) && Granted(s, Node(objectType, id, relation)))
        && (ParsedScene(s) && objectType != "" && ':' !in objectType ==>
              forall id | id != "" && '#' !in id && OwnBuckets(model, objectType, id, relation) ::
                id in result <==> Granted(s, Node(objectType, id, relation)))
    {
      hide Granted, GrantedApart, Reachable, KeysDistinct, Stored, MaterialSet, IndexOk, DenialBasis, ParsedScene;
      hide OwnBuckets;
      ghost var s := SceneFor(userType, userID);
      var all := Read(s, TupleFilter(objectType, "", "", "", "", ""));
      var candidates := set t | t in all :: t.objectID;
      forall id ensures id in candidates <==> Candidate(s, objectType, id) { CandidateHits(s, objectType, id, all); }
      result := [];
      var left := candidates;
      while left != {}
        invariant left <= candidates
        invariant forall id <- result :: id in candidates && id !in left && Granted(s, Node(objectType, id, relation))
        invariant forall i, j | 0 <= i < j < |result| :: result[i] != result[j]
        invariant forall id | id in candidates && id !in left
          && KeysDistinct(s, Reachable(s, Node(objectType, id, relation))) ::
          Granted(s, Node(objectType, id, relation)) ==> id in result
      {
        var id :| id in left;
        left := left - {id};
        var allowed := Check(userType, userID, relation, objectType, id);
        if allowed { result := result + [id]; }
      }
      if ParsedScene(s) && objectType != "" && ':' !in objectType {
        forall id | id != "" && '#' !in id && OwnBuckets(model, objectType, id, relation)
          ensures id in result <==> Granted(s, Node(objectType, id, relation))
        {
          NameableKeysDistinct(s, Node(objectType, id, relation));
          if Granted(s, Node(objectType, id, relation)) { GrantNeedsTuple(s, Node(objectType, id, relation)); }
        }
      }
    }

    /** Direct and computed holders by user key; without a visited set the recursion relies on there being no cycle. */
    method ListUsers(relation: string, objectType: string, objectID: string) returns (result: seq<string>)
      requires store.Valid() && AcyclicFrom(model, objectType, relation)
      ensures forall i, j | 0 <= i < j < |result| :: result[i] != result[j]
      ensures forall key :: key in result <==> Listed(SceneFor("", ""), relation, objectType, objectID, key)
      ensures forall key <- result :: exists t <- store.Contents() + store.Overlay() + (set c | c in context) ::
        (objectType == "" || t.objectType == objectType) && (objectID == "" || t.objectID == objectID)
        && key == if t.userRelation == "" then t.userType + ":" + t.userID
                  else t.userType + ":" + t.userID + "#" + t.userRelation
      decreases |ReachedFrom(model, objectType, relation)|
    {
      hide Hits, Stored, MaterialSet, IndexOk, UserKey, AcyclicFrom, ReachedFrom;
      ghost var s := SceneFor("", "");
      var tuples := Read(s, OnRelation(objectType, objectID, relation));
      result := [];
      for i := 0 to |tuples|
        invariant forall p, q | 0 <= p < q < |result| :: result[p] != result[q]
        invariant forall key :: key in result <==> exists j :: 0 <= j < i && UserKey(tuples[j]) == key
      {
        var key := UserKey(tuples[i]);
        if key !in result { result := result + [key]; }
      }
      ghost var direct := result;
      forall key ensures key in direct <==> HeldDirectly(s, relation, objectType, objectID, key) {
        if key in direct {
          var j :| 0 <= j < |tuples| && UserKey(tuples[j]) == key;
          assert tuples[j] in Hits(s, OnRelation(objectType, objectID, relation));
        }
        if HeldDirectly(s, relation, objectType, objectID, key) {
          var t :| t in Hits(s, OnRelation(objectType, objectID, relation)) && UserKey(t) == key;
          assert t in tuples;
          var j :| 0 <= j < |tuples| && tuples[j] == t;
        }
      }
      var rules := if HasRelation(model, objectType, relation) then model.types[objectType][relation].rewrites else [];
      for i := 0 to |rules|
        invariant forall p, q | 0 <= p < q < |result| :: result[p] != result[q]
        invariant forall key :: key in result <==>
          key in direct || exists j :: 0 <= j < i && ListedThrough(s, rules[j], objectType, objectID, key)
      {
        if rules[i].computedRelation != "" {
          ReachShrinks(model, objectType, relation, rules[i].computedRelation);
          var computed := ListUsers(rules[i].computedRelation, objectType, objectID);
          ghost var before := result;
          for q := 0 to |computed|
            invariant forall x, y | 0 <= x < y < |result| :: result[x] != result[y]
            invariant forall key :: key in result <==> key in before || key in computed[..q]
          {
            if computed[q] !in result { result := result + [computed[q]]; }
          }
          assert computed[..|computed|] == computed;
          assert forall key ::
              key in result <==> key in before || ListedThrough(s, rules[i], objectType, objectID, key);
        } else {
          assert forall key :: !ListedThrough(s, rules[i], objectType, objectID, key);
        }
      }
      forall key ensures key in result <==> Listed(s, relation, objectType, objectID, key) {
        ListedUnfolds(s, relation, objectType, objectID, key);
      }
      assert Seen(s) == store.Contents() + store.Overlay() + (set c | c in context);
      forall key | key in result { ListedKey(s, relation, objectType, objectID, key); }
    }

    method CheckNode(userType: string, userID: string, n: Node, visited: VisitedSet,
                     ghost s: Scene, ghost universe: set<Node>) returns (found: bool)
      requires store.Valid() && s == SceneFor(userType, userID)
      requires Closed(s, universe) && n in universe
      requires visited.Tracks(s) && visited.nodes <= universe
      modifies visited
      ensures visited.Tracks(s) && old(visited.nodes) <= visited.nodes <= universe
      ensures old(visited.keys) <= visited.keys
      ensures found ==> GrantedApart(s, n, old(visited.keys))
      ensures !found ==>
        && VisitKey(s, n) in visited.keys && (VisitKey(s, n) !in old(visited.keys) ==> n in visited.nodes)
        && Explored(s, visited.nodes - old(visited.nodes), visited.keys)
      decreases |universe - visited.nodes|, 0
    {
      hide SearchKey, Closed, Targets, GrantsOutright, Stored, MaterialSet, IndexOk, KeysDistinct, Rewrites, KeysKnown;
      var key := SearchKey(userType, userID, n);
      if key in visited.keys { return false; }
      ghost var before := visited.nodes;
      assert n !in before;
      assert universe - (before + {n}) < universe - before;
      SmallerSet(universe - (before + {n}), universe - before);
      visited.Mark(s, n, key);

      // An unknown type or relation has no rules.
      var rules := Rewrites(model, n);
      for i := 0 to |rules|
        invariant visited.Tracks(s) && before + {n} <= visited.nodes <= universe
        invariant old(visited.keys) + {key} <= visited.keys
        invariant Explored(s, visited.nodes - (before + {n}), visited.keys)
        invariant forall j | 0 <= j < i ::
          !GrantsOutright(s, n, rules[j]) && KeysKnown(s, Targets(s, n, rules[j]), visited.keys)
      {
        ghost var entered, keys := visited.nodes, visited.keys;
        ShrinkOrSame(universe, before + {n}, entered);
        found := ApplyRule(userType, userID, n, rules[i], visited, s, universe);
        if found {
          if !GrantsOutright(s, n, rules[i]) {
            ghost var d :| d in Targets(s, n, rules[i]) && GrantedApart(s, d, keys);
            ApartWithFewer(s, d, keys, old(visited.keys) + {key});
          }
          ApartStep(s, n, rules[i], old(visited.keys));
          return;
        }
        Absorb(s, before + {n}, entered, visited.nodes, keys, visited.keys);
        forall j | 0 <= j < i ensures KeysKnown(s, Targets(s, n, rules[j]), visited.keys) {
          KnownStays(s, Targets(s, n, rules[j]), keys, visited.keys);
        }
      }
      ExploredWith(s, n, before, visited.nodes, visited.keys);
      found := false;
    }

    /** One rewrite rule of n: the direct, computed and from/lookup steps in turn. */
    method ApplyRule(userType: string, userID: string, n: Node, rw: RewriteRule, visited: VisitedSet,
                     ghost s: Scene, ghost universe: set<Node>) returns (found: bool)
      requires store.Valid() && s == SceneFor(userType, userID)
      requires Closed(s, universe) && n in universe && rw in Rewrites(model, n)
      requires visited.Tracks(s) && visited.nodes <= universe
      modifies visited
      ensures visited.Tracks(s) && old(visited.nodes) <= visited.nodes <= universe
      ensures old(visited.keys) <= visited.keys
      ensures found ==>
        GrantsOutright(s, n, rw) || exists d <- Targets(s, n, rw) :: GrantedApart(s, d, old(visited.keys))
      ensures !found ==>
        && !GrantsOutright(s, n, rw) && KeysKnown(s, Targets(s, n, rw), visited.keys)
        && Explored(s, visited.nodes - old(visited.nodes), visited.keys)
      decreases |universe - visited.nodes|, 2
    {
      hide SearchKey, Closed, UsersetTargets, LookupTargets, DirectHit, Explored, KeysDistinct, KeysKnown;
      ClosedTargets(s, universe, n, rw);
      ghost var before := visited.nodes;
      ExploredNothing(s, before, visited.keys);
      if rw.direct {
        found := DirectCheck(s, n, userType, userID);
        if found { return; }
        found := ExpandUsersets(userType, userID, n, visited, s, universe, rw);
        if found { return; }
      }
      ghost var expanded, expandedKeys := visited.nodes, visited.keys;
      ShrinkOrSame(universe, before, expanded);
      var target := Node(n.objectType, n.objectID, rw.computedRelation);
      if rw.computedRelation != "" {
        assert target in Targets(s, n, rw);
        found := CheckNode(userType, userID, target, visited, s, universe);
        if found { ApartWithFewer(s, target, expandedKeys, old(visited.keys)); return; }
        Absorb(s, before, expanded, visited.nodes, expandedKeys, visited.keys);
      }
      ghost var computed, computedKeys := visited.nodes, visited.keys;
      ShrinkOrSame(universe, before, computed);
      if rw.fromLookup.Some? {
        found := FollowLookup(userType, userID, n, rw.fromLookup.value, visited, s, universe, rw);
        if found {
          ghost var d :| d in LookupTargets(s, n, rw.fromLookup.value) && GrantedApart(s, d, computedKeys);
          ApartWithFewer(s, d, computedKeys, old(visited.keys));
          return;
        }
        Absorb(s, before, computed, visited.nodes, computedKeys, visited.keys);
      }
      KnownStays(s, UsersetTargets(s, n), expandedKeys, visited.keys);
      RuleKnown(s, n, rw, visited.keys);
      found := false;
    }

    method ExpandUsersets(userType: string, userID: string, n: Node, visited: VisitedSet,
                          ghost s: Scene, ghost universe: set<Node>, ghost rw: RewriteRule)
      returns (found: bool)
      requires store.Valid() && s == SceneFor(userType, userID)
      requires Closed(s, universe) && n in universe && rw in Rewrites(model, n) && rw.direct
      requires visited.Tracks(s) && visited.nodes <= universe
      modifies visited
      ensures visited.Tracks(s) && old(visited.nodes) <= visited.nodes <= universe
      ensures old(visited.keys) <= visited.keys
      ensures found ==> exists d <- UsersetTargets(s, n) :: GrantedApart(s, d, old(visited.keys))
      ensures !found ==>
        && KeysKnown(s, UsersetTargets(s, n), visited.keys)
        && Explored(s, visited.nodes - old(visited.nodes), visited.keys)
      decreases |universe - visited.nodes|, 1
    {
      hide SearchKey, Closed, UsersetHits, KeysDistinct, Explored;
      ClosedTargets(s, universe, n, rw);
      var usersets := ReadUsersets(s, n);
      ghost var before := visited.nodes;
      ExploredNothing(s, before, visited.keys);
      for i := 0 to |usersets|
        invariant visited.Tracks(s) && before <= visited.nodes <= universe && old(visited.keys) <= visited.keys
        invariant Explored(s, visited.nodes - before, visited.keys)
        invariant forall j | 0 <= j < i :: VisitKey(s, SubjectNode(usersets[j])) in visited.keys
      {
        ghost var entered, keys := visited.nodes, visited.keys;
        ShrinkOrSame(universe, before, entered);
        var target := SubjectNode(usersets[i]);
        assert usersets[i] in UsersetHits(s, n);
        assert target in UsersetTargets(s, n);
        found := CheckNode(userType, userID, target, visited, s, universe);
        if found { ApartWithFewer(s, target, keys, old(visited.keys)); return; }
        Absorb(s, before, entered, visited.nodes, keys, visited.keys);
      }
      found := false;
      forall d | d in UsersetTargets(s, n) ensures VisitKey(s, d) in visited.keys {
        var t :| t in UsersetHits(s, n) && d == SubjectNode(t);
        assert t in usersets;
      }
    }

    method FollowLookup(userType: string, userID: string, n: Node, fl: FromLookup, visited: VisitedSet,
                        ghost s: Scene, ghost universe: set<Node>, ghost rw: RewriteRule)
      returns (found: bool)
      requires store.Valid() && s == SceneFor(userType, userID)
      requires Closed(s, universe) && n in universe && rw in Rewrites(model, n) && rw.fromLookup == Some(fl)
      requires visited.Tracks(s) && visited.nodes <= universe
      modifies visited
      ensures visited.Tracks(s) && old(visited.nodes) <= visited.nodes <= universe
      ensures old(visited.keys) <= visited.keys
      ensures found ==> exists d <- LookupTargets(s, n, fl) :: GrantedApart(s, d, old(visited.keys))
      ensures !found ==>
        && KeysKnown(s, LookupTargets(s, n, fl), visited.keys)
        && Explored(s, visited.nodes - old(visited.nodes), visited.keys)
      decreases |universe - visited.nodes|, 1
    {
      hide SearchKey, Closed, Hits, KeysDistinct, Explored;
      ClosedTargets(s, universe, n, rw);
      var linked := Read(s, OnRelation(n.objectType, n.objectID, fl.from));
      ghost var before := visited.nodes;
      ExploredNothing(s, before, visited.keys);
      for i := 0 to |linked|
        invariant visited.Tracks(s) && before <= visited.nodes <= universe && old(visited.keys) <= visited.keys
        invariant Explored(s, visited.nodes - before, visited.keys)
        invariant forall j | 0 <= j < i ::
          VisitKey(s, Node(linked[j].userType, linked[j].userID, fl.lookup)) in visited.keys
      {
        ghost var entered, keys := visited.nodes, visited.keys;
        ShrinkOrSame(universe, before, entered);
        var target := Node(linked[i].userType, linked[i].userID, fl.lookup);
        assert linked[i] in Hits(s, OnRelation(n.objectType, n.objectID, fl.from));
        assert target in LookupTargets(s, n, fl);
        found := CheckNode(userType, userID, target, visited, s, universe);
        if found { ApartWithFewer(s, target, keys, old(visited.keys)); return; }
        Absorb(s, before, entered, visited.nodes, keys, visited.keys);
      }
      found := false;
      forall d | d in LookupTargets(s, n, fl) ensures VisitKey(s, d) in visited.keys {
        var t :| t in Hits(s, OnRelation(n.objectType, n.objectID, fl.from))
                 && d == Node(t.userType, t.userID, fl.lookup);
        assert t in linked;
      }
    }
  }

  lemma ExploredNothing(s: Scene, nodes: set<Node>, keys: set<string>)
    ensures Explored(s, nodes - nodes, keys)
  {
  }

  lemma NothingVisited(s: Scene)
    ensures KeysDistinct(s, {})
  {
  }

  lemma KnownStays(s: Scene, nodes: set<Node>, keys: set<string>, more: set<string>)
    requires keys <= more
    ensures KeysKnown(s, nodes, keys) ==> KeysKnown(s, nodes, more)
  {
    hide SearchKey;
  }

  lemma RuleKnown(s: Scene, n: Node, rw: RewriteRule, keys: set<string>)
    requires rw.direct ==> KeysKnown(s, UsersetTargets(s, n), keys)
    requires rw.computedRelation != "" ==> VisitKey(s, Node(n.objectType, n.objectID, rw.computedRelation)) in keys
    requires rw.fromLookup.Some? ==> KeysKnown(s, LookupTargets(s, n, rw.fromLookup.value), keys)
    ensures KeysKnown(s, Targets(s, n, rw), keys)
  {
    hide SearchKey, UsersetTargets, LookupTargets;
  }

  /** A tuple of the type, or of any type if none is given, is about the ID. */
  ghost predicate Candidate(s: Scene, objectType: string, id: string) {
    exists t <- s.stored + s.overlay :: FieldMatches(objectType, t.objectType) && t.objectID == id
  }

  lemma CandidateHits(s: Scene, objectType: string, id: string, all: seq<Tuple>)
    requires (set t | t in all) == Hits(s, TupleFilter(objectType, "", "", "", "", ""))
    ensures id in (set t | t in all :: t.objectID) <==> Candidate(s, objectType, id)
  {
    var f := TupleFilter(objectType, "", "", "", "", "");
    forall t ensures t in all <==> t in s.stored + s.overlay && FieldMatches(objectType, t.objectType) {
      assert t in all <==> t in Hits(s, f);
    }
  }

  ghost predicate PlainUsersets(ts: set<Tuple>) {
    forall t <- ts | t.userRelation != "" :: '#' !in t.objectID
  }

  lemma PlainExtras(laid: Scene, extra: set<Tuple>)
    requires ParsedScene(laid) && extra <= laid.overlay && PlainUsersets(extra)
    ensures forall t <- extra | t.userRelation != "" :: OneReading(t, false)
  {
    hide OneReading;
    forall t | t in extra && t.userRelation != "" ensures OneReading(t, false) {
      assert Parsed(t);
      PlainReading(t, false);
    }
  }

  ghost predicate HeldDirectly(s: Scene, relation: string, objectType: string, objectID: string, key: string) {
    exists t :: t in Hits(s, OnRelation(objectType, objectID, relation)) && UserKey(t) == key
  }

  /** A listed key is the text of the subject of some tuple on the object. */
  lemma ListedKey(s: Scene, relation: string, objectType: string, objectID: string, key: string)
    requires Listed(s, relation, objectType, objectID, key)
    ensures exists t <- Seen(s) ::
      (objectType == "" || t.objectType == objectType) && (objectID == "" || t.objectID == objectID)
      && key == if t.userRelation == "" then t.userType + ":" + t.userID
                else t.userType + ":" + t.userID + "#" + t.userRelation
  {
    var r, t :| ComputedReach(s.model, objectType, relation, r)
                && t in Hits(s, OnRelation(objectType, objectID, r)) && UserKey(t) == key;
    assert t in Seen(s);
  }

  ghost predicate ListedThrough(s: Scene, rw: RewriteRule, objectType: string, objectID: string, key: string) {
    rw.computedRelation != "" && Listed(s, rw.computedRelation, objectType, objectID, key)
  }

  lemma ListedUnfolds(s: Scene, relation: string, objectType: string, objectID: string, key: string)
    ensures Listed(s, relation, objectType, objectID, key) <==>
      || HeldDirectly(s, relation, objectType, objectID, key)
      || exists rw <- Rewrites(s.model, Node(objectType, objectID, relation)) ::
           ListedThrough(s, rw, objectType, objectID, key)
  {
    hide Hits, UserKey;
    var rules := Rewrites(s.model, Node(objectType, objectID, relation));
    assert rules == Rewrites(s.model, Node(objectType, "", relation));
    if Listed(s, relation, objectType, objectID, key) {
      var r, t :| ComputedReach(s.model, objectType, relation, r)
                  && t in Hits(s, OnRelation(objectType, objectID, r)) && UserKey(t) == key;
      if r != relation {
        var rw :| rw in rules && rw.computedRelation != ""
                  && ComputedReach(s.model, objectType, rw.computedRelation, r);
        assert ListedThrough(s, rw, objectType, objectID, key);
      }
    }
    if rw :| rw in rules && ListedThrough(s, rw, objectType, objectID, key) {
      var r, t :| ComputedReach(s.model, objectType, rw.computedRelation, r)
                  && t in Hits(s, OnRelation(objectType, objectID, r)) && UserKey(t) == key;
      assert ComputedReach(s.model, objectType, relation, r);
    }
    if HeldDirectly(s, relation, objectType, objectID, key) {
      assert ComputedReach(s.model, objectType, relation, relation);
    }
  }

  lemma SmallerSet<T>(a: set<T>, b: set<T>)
    requires a < b
    ensures |a| < |b|
  {
    var x :| x in b && x !in a;
    assert b == a + (b - a);
    assert x in b - a;
  }

  lemma ShrinkOrSame<T>(universe: set<T>, a: set<T>, b: set<T>)
    requires a <= b
    ensures |universe - b| <= |universe - a|
  {
    var gone := (universe - a) - (universe - b);
    assert universe - a == (universe - b) + gone;
  }
}
