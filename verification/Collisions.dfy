/** What compiled models leave open: nodes that spell one visit key, and computed relations that go in a circle. */
module Collisions {
  import opened AuthModel
  import opened Keys
  import opened Semantics
  import opened Compiler

  /** The source is accepted, and this is what it compiles to. */
  ghost predicate CompilesTo(raw: RawModel, m: Model) {
    Decoded(raw) && FloorsAllowed(raw) && Mirrors(raw, m) && Resolves(m)
  }

  ghost predicate CompiledScene(s: Scene) {
    exists raw :: CompilesTo(raw, s.model)
  }

  // ---- colliding visit keys ----

  /** No search that stays among these nodes can lose a grant, under any compiled model, tuples and user. */
  ghost predicate SafeNodes(nodes: iset<Node>) {
    forall s, n | CompiledScene(s) && (forall x <- Reachable(s, n) :: x in nodes) && Granted(s, n) ::
      GrantedApart(s, n, {})
  }

  /** Distinct nodes have distinct keys, but for nodes without a relation, which no rule leads to. */
  ghost predicate SpelledApart(nodes: iset<Node>) {
    forall a <- nodes, b <- nodes :: NodeKey(a) == NodeKey(b) ==> a == b || a.relation == b.relation == ""
  }

  lemma NamedLookups(raw: RawModel, m: Model, n: Node, rw: RewriteRule)
    requires CompilesTo(raw, m) && rw in Rewrites(m, n) && rw.fromLookup.Some?
    ensures rw.fromLookup.value.lookup != ""
  {
    RulesAt(raw, m, n);
    UnionRulesMembers(RawAt(raw, n).union);
    var e :| e in RawAt(raw, n).union && IsRuleOf(rw, e);
  }

  /** No rule of a compiled model leads to a node without a relation. */
  lemma UnnamedOnlyRoot(s: Scene, root: Node, x: Node)
    requires CompiledScene(s) && x in Reachable(s, root) && x.relation == ""
    ensures x == root
  {
    hide Reachable, Closed, Rewrites, CompilesTo;
    ReachableClosed(s, root);
    var raw :| CompilesTo(raw, s.model);
    var all := Reachable(s, root);
    var named := set y | y in all && (y.relation != "" || y == root);
    forall n, rw, d | n in named && rw in Rewrites(s.model, n) && d in Targets(s, n, rw) ensures d in named {
      ClosedTargets(s, all, n, rw);
      if rw.fromLookup.Some? { NamedLookups(raw, s.model, n, rw); }
      TargetNamed(s, n, rw, d);
    }
    ClosedIf(s, named);
  }

  lemma TargetNamed(s: Scene, n: Node, rw: RewriteRule, d: Node)
    requires d in Targets(s, n, rw) && (rw.fromLookup.Some? ==> rw.fromLookup.value.lookup != "")
    ensures d.relation != ""
  {
    hide SlotKey, NodeKey, Matches;
  }

  /** A set of nodes is safe for every compiled model and every set of tuples exactly when its keys are distinct. */
  lemma SafeExactly(nodes: iset<Node>)
    ensures SafeNodes(nodes) <==> SpelledApart(nodes)
  {
    hide NodeKey, Reachable, Closed, Granted, GrantedApart, CompiledScene;
    if SpelledApart(nodes) {
      forall s, n | CompiledScene(s) && (forall x <- Reachable(s, n) :: x in nodes) && Granted(s, n)
        ensures GrantedApart(s, n, {})
      {
        ReachableClosed(s, n);
        forall a, b | a in Reachable(s, n) && b in Reachable(s, n) && VisitKey(s, a) == VisitKey(s, b) ensures a == b {
          VisitKeyIsNodeKey(s, a, b);
          if a.relation == b.relation == "" {
            UnnamedOnlyRoot(s, n, a);
            UnnamedOnlyRoot(s, n, b);
          }
        }
        DistinctKeysApart(s, Reachable(s, n), n);
      }
    } else {
      var a, b :| a in nodes && b in nodes && NodeKey(a) == NodeKey(b) && a != b && b.relation != "";
      var s := CollisionHidesGrant(a, b);
      ReachableClosed(s, a);
      assert Reachable(s, a) <= {a, b};
    }
  }

  /** No search from root can lose a grant, under any compiled model, nameable tuples and user. */
  ghost predicate SafeRoot(root: Node) {
    forall s | CompiledScene(s) && ParsedScene(s) && Granted(s, root) :: GrantedApart(s, root, {})
  }

  /** For an object the engine can name, checks are safe exactly when its ID has no `#`, whatever the relation. */
  lemma SafeRootExactly(root: Node)
    requires ':' !in root.objectType
    ensures SafeRoot(root) <==> '#' !in root.objectID
  {
    hide NodeKey, Reachable, Closed, Granted, GrantedApart, CompiledScene;
    if '#' !in root.objectID {
      forall s | CompiledScene(s) && ParsedScene(s) && Granted(s, root) ensures GrantedApart(s, root, {}) {
        ReachableClosed(s, root);
        NameableKeysDistinct(s, root);
        DistinctKeysApart(s, Reachable(s, root), root);
      }
    } else {
      var (front, back, _) := CutAt(root.objectID, '#');
      var b := Node(root.objectType, front, back + "#" + root.relation);
      SameSpelling(root, b, front, back);
      var s := CollisionHidesGrant(root, b);
    }
  }

  lemma SameSpelling(a: Node, b: Node, front: string, back: string)
    requires a.objectID == front + "#" + back && b == Node(a.objectType, front, back + "#" + a.relation)
    ensures NodeKey(a) == NodeKey(b) && a != b
  {
    assert NodeKey(a) == a.objectType + ":" + front + "#" + back + "#" + a.relation;
    assert NodeKey(b) == a.objectType + ":" + front + "#" + back + "#" + a.relation;
  }

  const NOTHING := RawRelation([], [], false)
  const USERS := RawRelation(["user"], [], false)
  const USER_RULES := RelationDef(["user"], [DIRECT], 0)

  function Linked(from: string, lookup: string): RawRelation {
    RawRelation([], [UnionEntry("", from, lookup)], false)
  }

  function LookupRule(from: string, lookup: string): RewriteRule {
    RewriteRule(false, "", Some(FromLookup(from, lookup)))
  }

  function PairRelations(ot: string, a: Node, b: Node, p: string): set<string> {
    (if ot == a.objectType then {a.relation, p} else {}) + (if ot == b.objectType then {b.relation} else {})
  }

  /** Relations by name for one type, of those that a colliding pair needs. */
  function TypeOf<T>(ot: string, a: Node, b: Node, p: string, link: T, empty: T, users: T): map<string, T> {
    map r | r in PairRelations(ot, a, b, p) ::
      if ot == a.objectType && r == a.relation then link
      else if ot == b.objectType && r == b.relation then users else empty
  }

  /** Users hold b's relation; a's relation is passed on from whatever p points to. */
  function PairSource(a: Node, b: Node, p: string): RawModel {
    RawModel("1.0", map ot | ot in {a.objectType, b.objectType, "user"} ::
      TypeOf(ot, a, b, p, Linked(p, b.relation), NOTHING, USERS))
  }

  function PairModel(a: Node, b: Node, p: string): Model {
    Model("1.0", map ot | ot in {a.objectType, b.objectType, "user"} ::
      TypeOf(ot, a, b, p, RelationDef([], [DIRECT, LookupRule(p, b.relation)], 0), RelationDef([], [], 0), USER_RULES))
  }

  lemma LinkedRules(from: string, lookup: string)
    requires from != ""
    ensures RulesOf(Linked(from, lookup)) == [DIRECT, LookupRule(from, lookup)]
    ensures RulesOf(USERS) == [DIRECT] && RulesOf(NOTHING) == []
  {
    var e := UnionEntry("", from, lookup);
    assert UnionRules([]) == [] && UnionRules([e]) == UnionRules([e][..0]) + [LookupRule(from, lookup)];
    assert [e][..0] == [];
  }

  /** p is declared without types, so its lookup resolves. */
  lemma PairDefs(a: Node, b: Node, p: string, ot: string, r: string)
    requires p != a.relation && p != b.relation && HasRelation(PairModel(a, b, p), ot, r)
    ensures
      var m := PairModel(a, b, p);
      && "user" in m.types
      && (|| m.types[ot][r] == RelationDef([], [], 0) || m.types[ot][r] == USER_RULES
          || (&& m.types[ot][r] == RelationDef([], [DIRECT, LookupRule(p, b.relation)], 0)
              && p in m.types[ot] && m.types[ot][p].directTypes == []))
  {
  }

  lemma PairResolves(a: Node, b: Node, p: string)
    requires p != a.relation && p != b.relation
    ensures Resolves(PairModel(a, b, p))
  {
    var m := PairModel(a, b, p);
    CutAtAbsent("user", '#');
    hide CutAt, PairModel;
    forall ot, r | HasRelation(m, ot, r) ensures RelationResolves(m, ot, r) { PairDefs(a, b, p, ot, r); }
  }

  lemma PairMirrors(a: Node, b: Node, p: string)
    requires p != "" && b.relation != ""
    ensures Mirrors(PairSource(a, b, p), PairModel(a, b, p)) && FloorsAllowed(PairSource(a, b, p))
    ensures Decoded(PairSource(a, b, p))
  {
    LinkedRules(p, b.relation);
    hide RulesOf;
    var raw, m := PairSource(a, b, p), PairModel(a, b, p);
    forall ot | ot in raw.types
      ensures m.types[ot].Keys == raw.types[ot].Keys
      ensures forall r <- raw.types[ot] :: IsCompiled(raw.types[ot][r], m.types[ot][r])
    {
    }
  }

  lemma PairCompiles(a: Node, b: Node, p: string)
    requires p != "" && p != a.relation && p != b.relation && b.relation != ""
    ensures CompilesTo(PairSource(a, b, p), PairModel(a, b, p))
  {
    hide PairSource, PairModel, Mirrors, Resolves, FloorsAllowed, Decoded;
    PairMirrors(a, b, p);
    PairResolves(a, b, p);
  }

  /** b is linked to a's object through p, and one user holds b's relation. */
  function PairScene(a: Node, b: Node, p: string, userID: string): Scene {
    Scene(PairModel(a, b, p),
          {Tuple(a.objectType, a.objectID, p, b.objectType, b.objectID, ""),
           Tuple(b.objectType, b.objectID, b.relation, "user", userID, "")},
          {}, "user", userID)
  }

  /** Distinct nodes with one key differ in type or relation, and b's fields never pass for a's, blanks included. */
  lemma CollidingNodes(a: Node, b: Node)
    requires a != b && NodeKey(a) == NodeKey(b)
    ensures a.objectType == b.objectType ==> a.relation != b.relation
    ensures !(FieldMatches(a.objectType, b.objectType) && FieldMatches(a.objectID, b.objectID)
              && FieldMatches(a.relation, b.relation))
  {
    var n := |NodeKey(a)|;
    assert n == |a.objectType| + |a.objectID| + |a.relation| + 2;
    assert n == |b.objectType| + |b.objectID| + |b.relation| + 2;
    var i, j := |a.objectType| + 1, |b.objectType| + 1;
    assert a.objectID == NodeKey(a)[i..i + |a.objectID|] && b.objectID == NodeKey(b)[j..j + |b.objectID|];
  }

  /** Any two distinct nodes with one key: a compiled model and tuples that grant a, but only past b's equal key. */
  lemma CollisionHidesGrant(a: Node, b: Node) returns (s: Scene)
    requires a != b && NodeKey(a) == NodeKey(b) && b.relation != ""
    ensures CompiledScene(s) && Granted(s, a) && !GrantedApart(s, a, {}) && Closed(s, {a, b})
    ensures ':' !in a.objectType && ':' !in b.objectType && '#' !in b.objectID ==> ParsedScene(s)
  {
    var p := a.relation + b.relation + "p";
    var userID := b.objectID + "u";
    s := PairScene(a, b, p, userID);
    CollidingNodes(a, b);
    assert |p| > |a.relation| && |p| > |b.relation|;
    hide PairScene, PairModel, PairSource, CompilesTo, Parsed, NodeKey, Granted, GrantedApart, Closed;
    PairCompiles(a, b, p);
    PairTargets(a, b, p, userID);
    PairParsed(a, b, p, userID);
    VisitKeyIsNodeKey(s, a, b);
    HiddenBehind(s, a, b, LookupRule(p, b.relation));
  }

  lemma PairParsed(a: Node, b: Node, p: string, userID: string)
    requires '#' in userID ==> '#' in b.objectID
    ensures PairScene(a, b, p, userID).model == PairModel(a, b, p)
    ensures ':' !in a.objectType && ':' !in b.objectType && '#' !in b.objectID ==>
      ParsedScene(PairScene(a, b, p, userID))
  {
    hide PairModel;
  }

  /** The only way to a is through b, and b is granted outright. */
  lemma PairTargets(a: Node, b: Node, p: string, userID: string)
    requires p != "" && p != a.relation && p != b.relation && userID != b.objectID && userID != ""
    requires a.objectType == b.objectType ==> a.relation != b.relation
    requires !(FieldMatches(a.objectType, b.objectType) && FieldMatches(a.objectID, b.objectID)
               && FieldMatches(a.relation, b.relation))
    ensures
      var s, lookup := PairScene(a, b, p, userID), LookupRule(p, b.relation);
      && Rewrites(s.model, a) == [DIRECT, lookup] && Rewrites(s.model, b) == [DIRECT]
      && !GrantsOutright(s, a, DIRECT) && !GrantsOutright(s, a, lookup) && GrantsOutright(s, b, DIRECT)
      && Targets(s, a, DIRECT) == {} && Targets(s, b, DIRECT) == {} && Targets(s, a, lookup) == {b}
  {
    hide SlotKey, NodeKey;
    var s, lookup := PairScene(a, b, p, userID), LookupRule(p, b.relation);
    var link := Tuple(a.objectType, a.objectID, p, b.objectType, b.objectID, "");
    var grant := Tuple(b.objectType, b.objectID, b.relation, "user", userID, "");
    assert s.stored == {link, grant};
    assert Rewrites(s.model, a) == [DIRECT, lookup] && Rewrites(s.model, b) == [DIRECT];
    assert !Matches(link, DirectFilter(s, a)) && !Matches(grant, DirectFilter(s, a));
    assert Matches(grant, DirectFilter(s, b));
    assert grant in Hits(s, DirectFilter(s, b));
    assert UsersetHits(s, a) == {} && UsersetHits(s, b) == {};
    assert Hits(s, OnRelation(a.objectType, a.objectID, p)) == {link};
    assert LookupTargets(s, a, FromLookup(p, b.relation)) == {b};
  }

  lemma HiddenBehind(s: Scene, a: Node, b: Node, lookup: RewriteRule)
    requires VisitKey(s, a) == VisitKey(s, b)
    requires Rewrites(s.model, a) == [DIRECT, lookup] && Rewrites(s.model, b) == [DIRECT]
    requires !GrantsOutright(s, a, DIRECT) && !GrantsOutright(s, a, lookup) && GrantsOutright(s, b, DIRECT)
    requires Targets(s, a, DIRECT) == {} && Targets(s, b, DIRECT) == {} && Targets(s, a, lookup) == {b}
    ensures Granted(s, a) && !GrantedApart(s, a, {}) && Closed(s, {a, b})
  {
    hide VisitKey, GrantsOutright, Targets, Rewrites;
    GrantStep(s, b, DIRECT);
    GrantStep(s, a, lookup);
    forall k: nat ensures !GrantedApart#[k](s, a, {}) {
      assert k != 0 ==> !GrantedApart#[k - 1](s, b, {} + {VisitKey(s, a)});
    }
  }

  // ---- computed cycles ----

  function UnionOf(relation: string): RawRelation {
    RawRelation([], [UnionEntry(relation, "", "")], false)
  }

  function Computed(relation: string): RelationDef {
    RelationDef([], [DIRECT, RewriteRule(false, relation, None)], 0)
  }

  function Opposite(r: string): string {
    if r == "viewer" then "editor" else "viewer"
  }

  const CYCLE_SOURCE :=
    RawModel("1.0", map ot | ot in {"doc"} :: map r | r in {"viewer", "editor"} :: UnionOf(Opposite(r)))
  const CYCLE_MODEL :=
    Model("1.0", map ot | ot in {"doc"} :: map r | r in {"viewer", "editor"} :: Computed(Opposite(r)))

  lemma UnionOfCompiles(relation: string)
    requires relation != ""
    ensures IsCompiled(UnionOf(relation), Computed(relation)) && FloorAllowed(UnionOf(relation))
  {
    var e := UnionEntry(relation, "", "");
    assert [e][..0] == [];
    assert UnionRules([e]) == UnionRules([e][..0]) + [RewriteRule(false, relation, None)];
  }

  lemma ComputedResolves(m: Model, ot: string, r: string, target: string)
    requires HasRelation(m, ot, r) && m.types[ot][r] == Computed(target) && target in m.types[ot]
    ensures RelationResolves(m, ot, r)
  {
  }

  lemma CycleResolves()
    ensures Resolves(CYCLE_MODEL)
  {
    var m := CYCLE_MODEL;
    hide RelationResolves, Computed;
    forall ot, r | HasRelation(m, ot, r) ensures RelationResolves(m, ot, r) {
      ComputedResolves(m, ot, r, Opposite(r));
    }
  }

  lemma CycleMirrors()
    ensures Mirrors(CYCLE_SOURCE, CYCLE_MODEL) && FloorsAllowed(CYCLE_SOURCE) && Decoded(CYCLE_SOURCE)
  {
    hide IsCompiled, FloorAllowed, Computed;
    forall r | r in {"viewer", "editor"}
      ensures IsCompiled(UnionOf(Opposite(r)), Computed(Opposite(r))) && FloorAllowed(UnionOf(Opposite(r)))
    {
      UnionOfCompiles(Opposite(r));
    }
  }

  lemma CycleGoesRound()
    ensures !AcyclicFrom(CYCLE_MODEL, "doc", "viewer")
  {
    var m := CYCLE_MODEL;
    assert Rewrites(m, Node("doc", "", "viewer"))[1].computedRelation == "editor";
    assert Rewrites(m, Node("doc", "", "editor"))[1].computedRelation == "viewer";
    assert Computes(m, "doc", "viewer", "editor") && Computes(m, "doc", "editor", "viewer");
    OneStepReach(m, "doc", "editor", "viewer");
    assert ComputesItself(m, "doc", "viewer");
    assert ComputedReach(m, "doc", "viewer", "viewer");
  }

  /** Two relations that are unions of each other compile, and enumerating either never ends. */
  lemma CyclicModelCompiles()
    ensures CompilesTo(CYCLE_SOURCE, CYCLE_MODEL) && !AcyclicFrom(CYCLE_MODEL, "doc", "viewer")
  {
    hide AcyclicFrom, Mirrors, Resolves, FloorsAllowed, Decoded;
    CycleMirrors();
    CycleResolves();
    CycleGoesRound();
  }
}
