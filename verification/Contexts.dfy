/** Ephemeral tuples laid over the store against the same tuples written to it (zanzibar/store/context_store.go). */
module Contexts {
  import opened AuthModel
  import opened Keys
  import opened Semantics
  import opened Compiler
  import opened Collisions

  /** Laid over or written, the tuple grants alike: for any compiled model, nameable tuples and nameable object. */
  ghost predicate ContextSafe(t: Tuple, anyID: bool) {
    forall s, n | CompiledScene(s) && ParsedScene(s) && Nameable(n, anyID) ::
      Granted(Laid(s, {t}), n) <==> Granted(Written(s, {t}), n)
  }

  /** A nameable context tuple counts as a written one exactly when it is no userset or its bucket has one reading. */
  lemma ContextSafeExactly(t: Tuple, anyID: bool)
    requires Parsed(t)
    ensures ContextSafe(t, anyID) <==> t.userRelation == "" || OneReading(t, anyID)
  {
    hide Granted, CompiledScene, Parsed, Reachable, SlotKey, NodeKey;
    if t.userRelation == "" || OneReading(t, anyID) {
      forall s, n | CompiledScene(s) && ParsedScene(s) && Nameable(n, anyID)
        ensures Granted(Laid(s, {t}), n) <==> Granted(Written(s, {t}), n)
      {
        PlainContext(s, {t}, n, anyID);
        OverlayIsStorage(s, {t}, n);
      }
    } else {
      var n :| Nameable(n, anyID) && NodeKey(n) == SlotKey(t) && n != OwnNode(t) && n != SubjectNode(t);
      var s := MisreadWhenWritten(t, n);
      assert !(Granted(Laid(s, {t}), n) <==> Granted(Written(s, {t}), n));
    }
  }

  /** In terms of the text: the readings of a tuple that is not the userset of its own bucket. */
  lemma ReadingsByText(t: Tuple)
    requires Parsed(t) && NodeKey(SubjectNode(t)) != SlotKey(t)
    ensures OneReading(t, false) <==> '#' !in t.objectID
    ensures OneReading(t, true) <==> '#' !in t.objectID && '#' !in t.relation
  {
    if '#' !in t.objectID { PlainReading(t, false); }
    if '#' !in t.objectID && '#' !in t.relation {
      PlainReading(t, true);
    } else {
      var id, r := OtherSplit(t.objectID, t.relation);
      OtherReading(t, Node(t.objectType, id, r), true);
    }
    if '#' in t.objectID {
      var (front, back, _) := CutAt(t.objectID, '#');
      var n := Node(t.objectType, front, back + "#" + t.relation);
      SameSpelling(OwnNode(t), n, front, back);
      OtherReading(t, n, false);
    }
  }

  lemma OtherReading(t: Tuple, n: Node, anyID: bool)
    requires Parsed(t) && NodeKey(SubjectNode(t)) != SlotKey(t)
    requires n.objectType == t.objectType && n.objectID != t.objectID && (anyID || '#' !in n.objectID)
    requires n.objectID + "#" + n.relation == t.objectID + "#" + t.relation
    ensures !OneReading(t, anyID)
  {
    assert NodeKey(n) == n.objectType + ":" + (n.objectID + "#" + n.relation);
    assert SlotKey(t) == t.objectType + ":" + (t.objectID + "#" + t.relation);
  }

  // ---- a scene that misreads the written tuple ----

  /** Every named relation of every named type takes users' tuples and nothing else. */
  function FlatSource(types: set<string>, names: set<string>): RawModel {
    RawModel("1.0", map ot | ot in types :: map r | r in names :: USERS)
  }

  function FlatModel(types: set<string>, names: set<string>): Model {
    Model("1.0", map ot | ot in types :: map r | r in names :: USER_RULES)
  }

  lemma FlatCompiles(types: set<string>, names: set<string>)
    requires "user" in types
    ensures CompilesTo(FlatSource(types, names), FlatModel(types, names))
  {
    CutAtAbsent("user", '#');
    hide CutAt;
    assert RulesOf(USERS) == [DIRECT] by { assert UnionRules([]) == []; }
    var m := FlatModel(types, names);
    forall ot, r | HasRelation(m, ot, r) ensures RelationResolves(m, ot, r) {
      assert m.types[ot][r] == USER_RULES;
    }
  }

  lemma FlatRules(types: set<string>, names: set<string>, n: Node)
    requires n.objectType in types && n.relation in names
    ensures Rewrites(FlatModel(types, names), n) == [DIRECT]
  {
  }

  /** No tuple of the user matches, and no userset sits in the bucket: nothing grants n. */
  lemma NothingGrants(s: Scene, n: Node)
    requires Rewrites(s.model, n) == [DIRECT]
    requires forall t <- s.stored + s.overlay :: !Matches(t, DirectFilter(s, n)) && !IsUsersetOf(s, t, n)
    ensures !Granted(s, n)
  {
    hide Matches, IsUsersetOf;
    assert UsersetHits(s, n) == {} && Hits(s, DirectFilter(s, n)) == {};
    DeadEndNeverGranted(s, {n}, n);
  }

  /** The user holds d directly, or through the group where a filter for n would let a direct tuple through. */
  function Holding(n: Node, d: Node, group: Node, user: string): set<Tuple> {
    if PassesFor(n, d)
    then {Tuple(d.objectType, d.objectID, d.relation, group.objectType, group.objectID, group.relation),
          Tuple(group.objectType, group.objectID, group.relation, "user", user, "")}
    else {Tuple(d.objectType, d.objectID, d.relation, "user", user, "")}
  }

  function FreshGroup(n: Node): Node {
    Node(n.objectType + "g", Repeat(|n.objectID| + 1), n.relation + "m")
  }

  lemma HoldingParsed(n: Node, d: Node, group: Node, user: string)
    requires ':' !in d.objectType && ':' !in group.objectType && '#' !in group.objectID && '#' !in user
    ensures forall t <- Holding(n, d, group, user) :: Parsed(t)
  {
  }

  lemma FreshParts(n: Node)
    requires ':' !in n.objectType
    ensures
      var group := FreshGroup(n);
      && n.objectType != group.objectType && n.objectID != group.objectID && n.relation != group.relation
      && group.relation != "" && ':' !in group.objectType && '#' !in group.objectID
  {
    var group := FreshGroup(n);
    assert |group.objectType| == |n.objectType| + 1 && |group.objectID| == |n.objectID| + 1;
    assert |group.relation| == |n.relation| + 1;
  }

  /** A user other than every subject in sight holds the tuple's userset. */
  lemma MisreadWhenWritten(t: Tuple, n: Node) returns (s: Scene)
    requires Parsed(t) && t.userRelation != "" && ':' !in n.objectType
    requires NodeKey(n) == SlotKey(t) && n != OwnNode(t) && n != SubjectNode(t)
    ensures CompiledScene(s) && ParsedScene(s)
    ensures !Granted(Laid(s, {t}), n) && Granted(Written(s, {t}), n)
  {
    var d, group := SubjectNode(t), FreshGroup(n);
    var user := Repeat(|t.userID| + |group.objectID| + 1);
    assert |user| > |t.userID| && |user| > |group.objectID| && '#' !in user;
    FreshParts(n);
    hide Repeat, FreshGroup, SlotKey, NodeKey;
    var types := {n.objectType, d.objectType, group.objectType, "user"};
    var names := {n.relation, d.relation, group.relation};
    FlatCompiles(types, names);
    FlatRules(types, names, n);
    FlatRules(types, names, d);
    FlatRules(types, names, group);
    HoldingParsed(n, d, group, user);
    hide FlatModel, FlatSource, CompilesTo, Holding, Rewrites, Granted, Parsed;
    s := Scene(FlatModel(types, names), Holding(n, d, group, user), {}, "user", user);
    Misread(s, t, n, d, group);
  }

  /** Every part of n is blank or d's: a filter for n lets d through. */
  predicate PassesFor(n: Node, d: Node) {
    FieldMatches(n.objectType, d.objectType) && FieldMatches(n.objectID, d.objectID)
    && FieldMatches(n.relation, d.relation)
  }

  lemma PassingKeyIsLonger(n: Node, d: Node)
    requires PassesFor(n, d) && n != d
    ensures NodeKey(n) != NodeKey(d)
  {
    assert |NodeKey(n)| == |n.objectType| + |n.objectID| + |n.relation| + 2;
    assert |NodeKey(d)| == |d.objectType| + |d.objectID| + |d.relation| + 2;
  }

  /** Fresh parts pass for n only if n is blank altogether, and then its bucket has one reading. */
  lemma FreshNeverPasses(t: Tuple, n: Node, group: Node)
    requires NodeKey(n) == SlotKey(t) && n != OwnNode(t)
    requires n.objectType != group.objectType && n.objectID != group.objectID && n.relation != group.relation
    ensures !PassesFor(n, group)
  {
    assert |NodeKey(n)| == |n.objectType| + |n.objectID| + |n.relation| + 2;
    assert |SlotKey(t)| == |t.objectType| + |t.objectID| + |t.relation| + 2;
  }

  lemma Misread(s: Scene, t: Tuple, n: Node, d: Node, group: Node)
    requires NodeKey(n) == SlotKey(t) && n != OwnNode(t) && n != d && d == SubjectNode(t) && d.relation != ""
    requires n.objectType != group.objectType && n.objectID != group.objectID && n.relation != group.relation
    requires Rewrites(s.model, n) == Rewrites(s.model, d) == Rewrites(s.model, group) == [DIRECT]
    requires s.stored == Holding(n, d, group, s.userID) && s.overlay == {} && group.relation != ""
    requires s.userType == "user" && s.userID != "" && s.userID != t.userID && s.userID != group.objectID
    ensures !Granted(Laid(s, {t}), n) && Granted(Written(s, {t}), n)
  {
    var link := Tuple(d.objectType, d.objectID, d.relation, group.objectType, group.objectID, group.relation);
    var member := Tuple(group.objectType, group.objectID, group.relation, s.userType, s.userID, "");
    var direct := Tuple(d.objectType, d.objectID, d.relation, s.userType, s.userID, "");
    var laid, written := Laid(s, {t}), Written(s, {t});
    FreshNeverPasses(t, n, group);
    assert SlotKey(link) == NodeKey(d);
    if PassesFor(n, d) { PassingKeyIsLonger(n, d); }
    hide SlotKey, NodeKey, Granted;
    NothingGrants(laid, n);
    if PassesFor(n, d) {
      assert member in Hits(written, DirectFilter(written, group));
      GrantStep(written, group, DIRECT);
      ThroughUserset(written, d, link);
    } else {
      assert direct in Hits(written, DirectFilter(written, d));
      GrantStep(written, d, DIRECT);
    }
    ThroughUserset(written, n, t);
  }

  lemma ThroughUserset(s: Scene, n: Node, t: Tuple)
    requires DIRECT in Rewrites(s.model, n) && t in s.stored && t.userRelation != "" && SlotKey(t) == NodeKey(n)
    requires Granted(s, SubjectNode(t))
    ensures Granted(s, n)
  {
    UsersetGrants(s, n, DIRECT, t);
  }
}
