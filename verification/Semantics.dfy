/** What a relationship check means: the least solution of the userset rewrite rules. */
module Semantics {
  import opened AuthModel
  import opened Keys

  /** One object and one relation on it. */
  datatype Node = Node(objectType: string, objectID: string, relation: string)

  /** A model, the tuples a check can see, and the user that is asking. */
  datatype Scene = Scene(
    model: Model, stored: set<Tuple>, overlay: set<Tuple>,
    userType: string, userID: string)

  function Hits(s: Scene, f: TupleFilter): set<Tuple> {
    set t | t in s.stored + s.overlay && Matches(t, f)
  }

  predicate IsUsersetOf(s: Scene, t: Tuple, n: Node) {
    && t.userRelation != ""
    && ((t in s.stored && SlotKey(t) == NodeKey(n))
        || (t in s.overlay && t.objectType == n.objectType && t.objectID == n.objectID && t.relation == n.relation))
  }

  /** The userset tuples a lookup for n returns: stored ones by bucket key, overlaid ones by components. */
  function UsersetHits(s: Scene, n: Node): set<Tuple> {
    set t | t in s.stored + s.overlay && IsUsersetOf(s, t, n)
  }

  function NodeKey(n: Node): string {
    ObjectRelationKey(n.objectType, n.objectID, n.relation)
  }

  function Rewrites(m: Model, n: Node): seq<RewriteRule> {
    if HasRelation(m, n.objectType, n.relation) then m.types[n.objectType][n.relation].rewrites else []
  }

  function DirectFilter(s: Scene, n: Node): TupleFilter {
    TupleFilter(n.objectType, n.objectID, n.relation, s.userType, s.userID, "")
  }

  predicate DirectHit(s: Scene, n: Node) {
    Hits(s, DirectFilter(s, n)) != {}
  }

  function UsersetTargets(s: Scene, n: Node): set<Node> {
    set t | t in UsersetHits(s, n) :: Node(t.userType, t.userID, t.userRelation)
  }

  function LookupTargets(s: Scene, n: Node, fl: FromLookup): set<Node> {
    set t | t in Hits(s, OnRelation(n.objectType, n.objectID, fl.from)) :: Node(t.userType, t.userID, fl.lookup)
  }

  /** The nodes whose grant passes to n through rule rw. */
  function Targets(s: Scene, n: Node, rw: RewriteRule): set<Node> {
    (if rw.direct then UsersetTargets(s, n) else {})
    + (if rw.computedRelation != "" then {Node(n.objectType, n.objectID, rw.computedRelation)} else {})
    + (if rw.fromLookup.Some? then LookupTargets(s, n, rw.fromLookup.value) else {})
  }

  predicate GrantsOutright(s: Scene, n: Node, rw: RewriteRule) {
    rw.direct && DirectHit(s, n)
  }

  /** The least relation closed under the direct, userset, computed and tuple-to-userset rules. */
  least predicate Granted[nat](s: Scene, n: Node) {
    exists rw <- Rewrites(s.model, n) ::
      GrantsOutright(s, n, rw) || exists d <- Targets(s, n, rw) :: Granted(s, d)
  }

  /** A set of nodes that none of the rules can lead out of towards a grant. */
  ghost predicate DeadEnd(s: Scene, nodes: set<Node>) {
    forall n <- nodes, rw <- Rewrites(s.model, n) ::
      !GrantsOutright(s, n, rw) && Targets(s, n, rw) <= nodes
  }

  lemma {:induction false} DeadEndNeverGranted(s: Scene, nodes: set<Node>, n: Node)
    requires DeadEnd(s, nodes) && n in nodes
    ensures !Granted(s, n)
  {
    forall k: nat ensures !Granted#[k](s, n) { DeadEndNotAtRank(s, nodes, n, k); }
  }

  lemma {:induction false} DeadEndNotAtRank(s: Scene, nodes: set<Node>, n: Node, k: nat)
    requires DeadEnd(s, nodes) && n in nodes
    ensures !Granted#[k](s, n)
    decreases k
  {
    if k != 0 {
      forall rw, d | rw in Rewrites(s.model, n) && d in Targets(s, n, rw) ensures !Granted#[k - 1](s, d) {
        DeadEndNotAtRank(s, nodes, d, k - 1);
      }
    }
  }

  /** Rule introduction, for either kind of rule. */
  lemma GrantStep(s: Scene, n: Node, rw: RewriteRule)
    requires rw in Rewrites(s.model, n)
    requires GrantsOutright(s, n, rw) || exists d <- Targets(s, n, rw) :: Granted(s, d)
    ensures Granted(s, n)
  {
  }

  // ---- the rules by the tuples' own fields ----

  /** Every tuple a check can see. */
  function Seen(s: Scene): set<Tuple> {
    s.stored + s.overlay
  }

  /** A tuple on the object and relation for this user; blank parts of the question match anything. */
  ghost predicate HeldBy(s: Scene, n: Node, t: Tuple) {
    && t in Seen(s)
    && (n.objectType == "" || t.objectType == n.objectType) && (n.objectID == "" || t.objectID == n.objectID)
    && (n.relation == "" || t.relation == n.relation)
    && (s.userType == "" || t.userType == s.userType) && (s.userID == "" || t.userID == s.userID)
  }

  /** A tuple that makes the holders of its subject userset holders of n. */
  ghost predicate SharesWith(s: Scene, n: Node, t: Tuple) {
    && t.userRelation != ""
    && (|| (t in s.stored && t.objectType + ":" + t.objectID + "#" + t.relation
                             == n.objectType + ":" + n.objectID + "#" + n.relation)
        || (t in s.overlay && t.objectType == n.objectType && t.objectID == n.objectID && t.relation == n.relation))
  }

  /** A tuple that links n's object to its subject, whatever the subject's own relation. */
  ghost predicate LinksFrom(s: Scene, n: Node, from: string, t: Tuple) {
    && t in Seen(s)
    && (n.objectType == "" || t.objectType == n.objectType) && (n.objectID == "" || t.objectID == n.objectID)
    && (from == "" || t.relation == from)
  }

  /** What one rule of n contributes, with grants of other nodes as they are. */
  ghost predicate RuleGrants(s: Scene, n: Node, rw: RewriteRule) {
    || (rw.direct && exists t :: HeldBy(s, n, t))
    || (rw.direct && exists t :: SharesWith(s, n, t) && Granted(s, Node(t.userType, t.userID, t.userRelation)))
    || (rw.computedRelation != "" && Granted(s, Node(n.objectType, n.objectID, rw.computedRelation)))
    || (rw.fromLookup.Some? && exists t ::
          LinksFrom(s, n, rw.fromLookup.value.from, t)
          && Granted(s, Node(t.userType, t.userID, rw.fromLookup.value.lookup)))
  }

  /** A node is granted exactly when some rule of its declared relation grants it: direct, userset, computed, lookup. */
  lemma GrantedMeans(s: Scene, n: Node)
    ensures Granted(s, n) <==>
      && n.objectType in s.model.types && n.relation in s.model.types[n.objectType]
      && exists rw <- s.model.types[n.objectType][n.relation].rewrites :: RuleGrants(s, n, rw)
  {
    hide Granted;
    GrantedOnce(s, n);
    hide Targets, GrantsOutright, RuleGrants;
    forall rw ensures RuleGrants(s, n, rw) <==>
      GrantsOutright(s, n, rw) || exists d <- Targets(s, n, rw) :: Granted(s, d)
    {
      RuleMeans(s, n, rw);
    }
  }

  /** What any one tuple t does for a node with rule rw: each of the four ways to be granted. */
  lemma RulesOfInference(s: Scene, n: Node, rw: RewriteRule, t: Tuple)
    requires n.objectType in s.model.types && n.relation in s.model.types[n.objectType]
    requires rw in s.model.types[n.objectType][n.relation].rewrites
    requires t in s.stored || t in s.overlay
    ensures (&& rw.direct && t.objectType == n.objectType && t.objectID == n.objectID && t.relation == n.relation
             && t.userType == s.userType && t.userID == s.userID) ==> Granted(s, n)
    ensures (&& rw.direct && t.objectType == n.objectType && t.objectID == n.objectID && t.relation == n.relation
             && t.userRelation != "" && Granted(s, Node(t.userType, t.userID, t.userRelation))) ==> Granted(s, n)
    ensures rw.computedRelation != "" && Granted(s, Node(n.objectType, n.objectID, rw.computedRelation)) ==>
      Granted(s, n)
    ensures (&& rw.fromLookup.Some? && t.objectType == n.objectType && t.objectID == n.objectID
             && t.relation == rw.fromLookup.value.from
             && Granted(s, Node(t.userType, t.userID, rw.fromLookup.value.lookup))) ==> Granted(s, n)
  {
    hide Granted;
    GrantedMeans(s, n);
    if t.objectType == n.objectType && t.objectID == n.objectID {
      assert t.relation == n.relation && t.userType == s.userType && t.userID == s.userID ==> HeldBy(s, n, t);
      assert t.relation == n.relation && t.userRelation != "" ==> SharesWith(s, n, t);
      assert rw.fromLookup.Some? && t.relation == rw.fromLookup.value.from ==>
          LinksFrom(s, n, rw.fromLookup.value.from, t);
    }
    hide HeldBy, SharesWith, LinksFrom;
  }

  lemma GrantedOnce(s: Scene, n: Node)
    ensures Granted(s, n) <==>
      exists rw <- Rewrites(s.model, n) ::
        GrantsOutright(s, n, rw) || exists d <- Targets(s, n, rw) :: Granted(s, d)
  {
    hide Targets, GrantsOutright, Rewrites;
  }

  lemma RuleMeans(s: Scene, n: Node, rw: RewriteRule)
    ensures RuleGrants(s, n, rw) <==>
      GrantsOutright(s, n, rw) || exists d <- Targets(s, n, rw) :: Granted(s, d)
  {
    hide Granted;
    forall t ensures t in Hits(s, DirectFilter(s, n)) <==> HeldBy(s, n, t) {}
    forall t ensures t in UsersetHits(s, n) <==> SharesWith(s, n, t) { SharesMeans(s, n, t); }
    if rw.fromLookup.Some? {
      var f := rw.fromLookup.value;
      forall t ensures t in Hits(s, OnRelation(n.objectType, n.objectID, f.from)) <==> LinksFrom(s, n, f.from, t) {}
    }
    hide Hits, UsersetHits, HeldBy, SharesWith, LinksFrom;
    if rw.direct && exists t :: HeldBy(s, n, t) {
      var t :| HeldBy(s, n, t);
      assert t in Hits(s, DirectFilter(s, n));
    }
    if rw.direct && exists t :: SharesWith(s, n, t) && Granted(s, Node(t.userType, t.userID, t.userRelation)) {
      var t :| SharesWith(s, n, t) && Granted(s, Node(t.userType, t.userID, t.userRelation));
      assert Node(t.userType, t.userID, t.userRelation) in UsersetTargets(s, n);
      assert Node(t.userType, t.userID, t.userRelation) in Targets(s, n, rw);
    }
    if rw.fromLookup.Some? {
      var f := rw.fromLookup.value;
      if t :| LinksFrom(s, n, f.from, t) && Granted(s, Node(t.userType, t.userID, f.lookup)) {
        assert Node(t.userType, t.userID, f.lookup) in LookupTargets(s, n, f);
        assert Node(t.userType, t.userID, f.lookup) in Targets(s, n, rw);
      }
    }
    if d :| d in Targets(s, n, rw) && Granted(s, d) { TargetMeans(s, n, rw, d); }
  }

  lemma SharesMeans(s: Scene, n: Node, t: Tuple)
    ensures t in UsersetHits(s, n) <==> SharesWith(s, n, t)
  {
  }

  lemma TargetMeans(s: Scene, n: Node, rw: RewriteRule, d: Node)
    requires d in Targets(s, n, rw)
    ensures
      || (rw.direct && exists t :: t in UsersetHits(s, n) && d == Node(t.userType, t.userID, t.userRelation))
      || (rw.computedRelation != "" && d == Node(n.objectType, n.objectID, rw.computedRelation))
      || (rw.fromLookup.Some? && exists t ::
            t in Hits(s, OnRelation(n.objectType, n.objectID, rw.fromLookup.value.from))
            && d == Node(t.userType, t.userID, rw.fromLookup.value.lookup))
  {
    hide UsersetHits, Hits;
  }

  /** Scene b sees at least what scene a sees, under the same model and for the same user. */
  ghost predicate Extends(a: Scene, b: Scene) {
    && a.model == b.model && a.userType == b.userType && a.userID == b.userID
    && a.stored <= b.stored && a.overlay <= b.overlay
  }

  /** More tuples never turn an allow into a deny. */
  lemma {:induction false} GrantsAreMonotone(a: Scene, b: Scene, n: Node)
    requires Extends(a, b) && Granted(a, n)
    ensures Granted(b, n)
  {
    var k: nat :| Granted#[k](a, n);
    MonotoneAtRank(a, b, n, k);
  }

  lemma {:induction false} MonotoneAtRank(a: Scene, b: Scene, n: Node, k: nat)
    requires Extends(a, b) && Granted#[k](a, n)
    ensures Granted(b, n)
    decreases k
  {
    hide SlotKey, NodeKey;
    var rw :| rw in Rewrites(a.model, n) &&
              (GrantsOutright(a, n, rw) || exists d <- Targets(a, n, rw) :: Granted#[k - 1](a, d));
    assert forall f :: Hits(a, f) <= Hits(b, f);
    if !GrantsOutright(a, n, rw) {
      var d :| d in Targets(a, n, rw) && Granted#[k - 1](a, d);
      assert UsersetHits(a, n) <= UsersetHits(b, n);
      assert d in Targets(b, n, rw);
      MonotoneAtRank(a, b, d, k - 1);
    }
    GrantStep(b, n, rw);
  }

  /** A rule leads to the same object or to some tuple's subject. */
  lemma TargetsAreSubjects(s: Scene, n: Node, rw: RewriteRule, d: Node)
    requires d in Targets(s, n, rw)
    ensures (d.objectType == n.objectType && d.objectID == n.objectID)
      || exists t <- s.stored + s.overlay :: d.objectType == t.userType && d.objectID == t.userID
  {
    hide SlotKey, NodeKey, Matches;
  }

  // ---- the finite universe of one search ----

  function Objects(s: Scene, root: Node): set<(string, string)> {
    {(root.objectType, root.objectID)} + set t | t in s.stored + s.overlay :: (t.userType, t.userID)
  }

  function RuleNames(rws: seq<RewriteRule>): set<string> {
    (set rw | rw in rws :: rw.computedRelation)
    + (set rw | rw in rws && rw.fromLookup.Some? :: rw.fromLookup.value.lookup)
  }

  function Relations(s: Scene, root: Node): set<string> {
    {root.relation} + (set t | t in s.stored + s.overlay :: t.userRelation)
    + (set ot, r, name | ot in s.model.types && r in s.model.types[ot]
                         && name in RuleNames(s.model.types[ot][r].rewrites) :: name)
  }

  /** Every node a search from root can reach. */
  function Universe(s: Scene, root: Node): set<Node> {
    set o, r | o in Objects(s, root) && r in Relations(s, root) :: Node(o.0, o.1, r)
  }

  lemma UniverseClosed(s: Scene, root: Node, n: Node, rw: RewriteRule)
    requires n in Universe(s, root) && rw in Rewrites(s.model, n)
    ensures Targets(s, n, rw) <= Universe(s, root)
  {
    hide SlotKey, NodeKey;
    assert RuleNames(s.model.types[n.objectType][n.relation].rewrites) <= Relations(s, root);
    assert rw.computedRelation in RuleNames(s.model.types[n.objectType][n.relation].rewrites);
    forall d | d in Targets(s, n, rw) ensures d in Universe(s, root) {
      assert (d.objectType, d.objectID) in Objects(s, root);
      assert d.relation in Relations(s, root);
    }
  }

  /** No rule at any of the nodes leads outside them. */
  ghost predicate Closed(s: Scene, nodes: set<Node>) {
    forall n <- nodes, rw <- Rewrites(s.model, n) :: Targets(s, n, rw) <= nodes
  }

  lemma ClosedTargets(s: Scene, nodes: set<Node>, n: Node, rw: RewriteRule)
    requires Closed(s, nodes) && n in nodes && rw in Rewrites(s.model, n)
    ensures Targets(s, n, rw) <= nodes
  {
    hide Targets, Rewrites;
  }

  /** The nodes a search from root can come to: the least closed set around it. */
  ghost function Reachable(s: Scene, root: Node): set<Node> {
    set n | n in Universe(s, root) && forall nodes: set<Node> | root in nodes && Closed(s, nodes) :: n in nodes
  }

  lemma ReachableClosed(s: Scene, root: Node)
    ensures root in Reachable(s, root) && Closed(s, Reachable(s, root)) && Reachable(s, root) <= Universe(s, root)
    ensures forall nodes: set<Node> | root in nodes && Closed(s, nodes) :: Reachable(s, root) <= nodes
  {
    assert root in Universe(s, root) by {
      assert (root.objectType, root.objectID) in Objects(s, root) && root.relation in Relations(s, root);
    }
    hide Universe, Targets, Rewrites;
    forall n, rw | n in Reachable(s, root) && rw in Rewrites(s.model, n)
      ensures Targets(s, n, rw) <= Reachable(s, root)
    {
      UniverseClosed(s, root, n, rw);
    }
  }

  /** The key under which a search remembers a node. */
  function SearchKey(userType: string, userID: string, n: Node): string {
    TupleKey(Tuple(n.objectType, n.objectID, n.relation, userType, userID, ""))
  }

  function VisitKey(s: Scene, n: Node): string {
    SearchKey(s.userType, s.userID, n)
  }

  ghost predicate KeysDistinct(s: Scene, nodes: set<Node>) {
    forall a <- nodes, b <- nodes :: VisitKey(s, a) == VisitKey(s, b) ==> a == b
  }

  lemma VisitKeyIsNodeKey(s: Scene, a: Node, b: Node)
    ensures VisitKey(s, a) == VisitKey(s, b) <==> NodeKey(a) == NodeKey(b)
  {
    var tail := "@" + (s.userType + ":" + s.userID) + "#" + "";
    assert VisitKey(s, a) == NodeKey(a) + tail && VisitKey(s, b) == NodeKey(b) + tail;
    if VisitKey(s, a) == VisitKey(s, b) {
      assert |NodeKey(a)| == |NodeKey(b)|;
      assert NodeKey(a) == VisitKey(s, a)[..|NodeKey(a)|] == VisitKey(s, b)[..|NodeKey(b)|] == NodeKey(b);
    }
  }

  /** Subject types without `:` and subject IDs without `#` suffice for a search from a clean root. */
  lemma CleanKeysDistinct(s: Scene, root: Node)
    requires ':' !in root.objectType && '#' !in root.objectID
    requires forall t <- s.stored + s.overlay :: SubjectPartClean(t)
    ensures KeysDistinct(s, Universe(s, root))
  {
    var u := Universe(s, root);
    forall a, b | a in u && b in u && VisitKey(s, a) == VisitKey(s, b) ensures a == b {
      VisitKeyIsNodeKey(s, a, b);
      ObjectRelationKeyInjective(a.objectType, a.objectID, a.relation, b.objectType, b.objectID, b.relation);
    }
  }

  /** Every tuple is one that the engine's text operations can name. */
  ghost predicate ParsedScene(s: Scene) {
    forall t <- s.stored + s.overlay :: Parsed(t)
  }

  /** The nodes of objects that can be named, with any ID or only with those free of `#`. */
  predicate Nameable(n: Node, anyID: bool) {
    ':' !in n.objectType && (anyID || '#' !in n.objectID)
  }

  lemma ReachableNameable(s: Scene, root: Node, anyID: bool)
    requires ParsedScene(s) && Nameable(root, anyID)
    ensures forall x <- Reachable(s, root) :: Nameable(x, anyID)
  {
    hide Reachable, Closed, Rewrites, Targets;
    ReachableClosed(s, root);
    var all := Reachable(s, root);
    var named := set x | x in all && Nameable(x, anyID);
    assert Closed(s, named) by {
      forall n, rw, d | n in named && rw in Rewrites(s.model, n) && d in Targets(s, n, rw) ensures d in named {
        ClosedTargets(s, all, n, rw);
        TargetsAreSubjects(s, n, rw, d);
      }
      ClosedIf(s, named);
    }
  }

  lemma ClosedIf(s: Scene, nodes: set<Node>)
    requires forall n, rw, d | n in nodes && rw in Rewrites(s.model, n) && d in Targets(s, n, rw) :: d in nodes
    ensures Closed(s, nodes)
  {
    hide Targets, Rewrites;
  }

  /** From an ID without `#` every search among nameable tuples has distinct keys. */
  lemma NameableKeysDistinct(s: Scene, root: Node)
    requires ParsedScene(s) && Nameable(root, false)
    ensures KeysDistinct(s, Reachable(s, root))
  {
    hide Universe, Reachable, SearchKey;
    CleanKeysDistinct(s, root);
    ReachableClosed(s, root);
  }

  // ---- tuples over the store and tuples in it ----

  function OwnNode(t: Tuple): Node {
    Node(t.objectType, t.objectID, t.relation)
  }

  function SubjectNode(t: Tuple): Node {
    Node(t.userType, t.userID, t.userRelation)
  }

  function Laid(s: Scene, extra: set<Tuple>): Scene {
    s.(overlay := s.overlay + extra)
  }

  function Written(s: Scene, extra: set<Tuple>): Scene {
    s.(stored := s.stored + extra)
  }

  /** A bucket lookup at any of the nodes takes the usersets of extra for its own, or finds only itself behind them. */
  ghost predicate ReadAsOwn(extra: set<Tuple>, nodes: set<Node>) {
    forall t <- extra, x <- nodes | t.userRelation != "" && NodeKey(x) == SlotKey(t) ::
      x == OwnNode(t) || x == SubjectNode(t)
  }

  /** The rules of a node lead to the same places, but for buckets that misread a written tuple. */
  lemma WrittenTargets(s: Scene, extra: set<Tuple>, n: Node, rw: RewriteRule)
    ensures GrantsOutright(Laid(s, extra), n, rw) <==> GrantsOutright(Written(s, extra), n, rw)
    ensures Targets(Laid(s, extra), n, rw) <= Targets(Written(s, extra), n, rw)
    ensures forall d | d in Targets(Written(s, extra), n, rw) && d !in Targets(Laid(s, extra), n, rw) ::
      exists t <- extra :: t.userRelation != "" && NodeKey(n) == SlotKey(t) && n != OwnNode(t) && d == SubjectNode(t)
  {
    var laid, written := Laid(s, extra), Written(s, extra);
    forall t | OwnNode(t) == n ensures SlotKey(t) == NodeKey(n) {}
    hide SlotKey, NodeKey, Matches;
    assert laid.stored + laid.overlay == written.stored + written.overlay;
    assert forall f :: Hits(laid, f) == Hits(written, f);
    assert UsersetHits(laid, n) <= UsersetHits(written, n);
    forall d | d in Targets(written, n, rw) && d !in Targets(laid, n, rw)
      ensures exists t <- extra :: t.userRelation != "" && NodeKey(n) == SlotKey(t) && n != OwnNode(t)
                                   && d == SubjectNode(t)
    {
      assert d in UsersetTargets(written, n);
      var t :| t in UsersetHits(written, n) && d == SubjectNode(t);
      assert t in UsersetHits(laid, n) ==> SubjectNode(t) in UsersetTargets(laid, n);
    }
  }

  /** Where a tuple is held, over the store or in it, makes no difference as long as no bucket misreads it. */
  lemma {:induction false} OverlayIsStorage(s: Scene, extra: set<Tuple>, n: Node)
    ensures Granted(Laid(s, extra), n) ==> Granted(Written(s, extra), n)
    ensures ReadAsOwn(extra, Reachable(Written(s, extra), n)) ==>
      (Granted(Laid(s, extra), n) <==> Granted(Written(s, extra), n))
  {
    hide Reachable;
    if Granted(Laid(s, extra), n) {
      var k: nat :| Granted#[k](Laid(s, extra), n);
      LaidAtRank(s, extra, n, k);
    }
    if Granted(Written(s, extra), n) && ReadAsOwn(extra, Reachable(Written(s, extra), n)) {
      ReachableClosed(Written(s, extra), n);
      var k: nat :| Granted#[k](Written(s, extra), n);
      WrittenAtRank(s, extra, Reachable(Written(s, extra), n), n, k);
    }
  }

  lemma {:induction false} LaidAtRank(s: Scene, extra: set<Tuple>, n: Node, k: nat)
    requires Granted#[k](Laid(s, extra), n)
    ensures Granted(Written(s, extra), n)
    decreases k
  {
    hide GrantsOutright, Targets, Rewrites;
    var laid := Laid(s, extra);
    var rw :| rw in Rewrites(laid.model, n) &&
              (GrantsOutright(laid, n, rw) || exists d <- Targets(laid, n, rw) :: Granted#[k - 1](laid, d));
    WrittenTargets(s, extra, n, rw);
    if !GrantsOutright(laid, n, rw) {
      var d :| d in Targets(laid, n, rw) && Granted#[k - 1](laid, d);
      LaidAtRank(s, extra, d, k - 1);
    }
    GrantStep(Written(s, extra), n, rw);
  }

  lemma {:induction false} WrittenAtRank(s: Scene, extra: set<Tuple>, nodes: set<Node>, n: Node, k: nat)
    requires Closed(Written(s, extra), nodes) && n in nodes && ReadAsOwn(extra, nodes)
    requires Granted#[k](Written(s, extra), n)
    ensures Granted(Laid(s, extra), n)
    decreases k
  {
    hide GrantsOutright, Targets, Rewrites, SlotKey, NodeKey;
    var laid, written := Laid(s, extra), Written(s, extra);
    var rw :| rw in Rewrites(written.model, n) &&
              (GrantsOutright(written, n, rw) || exists d <- Targets(written, n, rw) :: Granted#[k - 1](written, d));
    WrittenTargets(s, extra, n, rw);
    if GrantsOutright(written, n, rw) {
      GrantStep(laid, n, rw);
    } else {
      var d :| d in Targets(written, n, rw) && Granted#[k - 1](written, d);
      WrittenAtRank(s, extra, nodes, d, k - 1);
      if d in Targets(laid, n, rw) { GrantStep(laid, n, rw); }
    }
  }

  /** Every reading of the tuple's bucket as a nameable node is the tuple's own, or its subject. */
  ghost predicate OneReading(t: Tuple, anyID: bool) {
    forall n | Nameable(n, anyID) && NodeKey(n) == SlotKey(t) :: n == OwnNode(t) || n == SubjectNode(t)
  }

  /** Free of `#` in the object ID, and for nodes of any ID also in the relation, a tuple has one reading. */
  lemma PlainReading(t: Tuple, anyID: bool)
    requires ':' !in t.objectType && '#' !in t.objectID && (anyID ==> '#' !in t.relation)
    ensures OneReading(t, anyID)
  {
    forall n | Nameable(n, anyID) && NodeKey(n) == SlotKey(t) ensures n == OwnNode(t) {
      if anyID {
        OnlySplit(n.objectType, n.objectID, n.relation, t.objectType, t.objectID, t.relation);
      } else {
        ObjectRelationKeyInjective(n.objectType, n.objectID, n.relation, t.objectType, t.objectID, t.relation);
      }
    }
  }

  /** Nameable tuples whose usersets have one reading may be written or laid over a nameable scene alike. */
  lemma PlainContext(s: Scene, extra: set<Tuple>, n: Node, anyID: bool)
    requires ParsedScene(Laid(s, extra)) && Nameable(n, anyID)
    requires forall t <- extra | t.userRelation != "" :: OneReading(t, anyID)
    ensures ReadAsOwn(extra, Reachable(Written(s, extra), n))
  {
    hide Reachable, SlotKey, NodeKey, Nameable, Parsed;
    ReachableNameable(Written(s, extra), n, anyID);
  }

  // ---- what key collisions can cost ----

  /** A grant with a derivation along which no key repeats and none of used occurs. */
  least predicate GrantedApart[nat](s: Scene, n: Node, used: set<string>) {
    && VisitKey(s, n) !in used
    && exists rw <- Rewrites(s.model, n) ::
         GrantsOutright(s, n, rw) || exists d <- Targets(s, n, rw) :: GrantedApart(s, d, used + {VisitKey(s, n)})
  }

  lemma {:induction false} ApartIsGranted(s: Scene, n: Node, used: set<string>)
    requires GrantedApart(s, n, used)
    ensures Granted(s, n)
  {
    var k: nat :| GrantedApart#[k](s, n, used);
    ApartAtRank(s, n, used, {}, k);
  }

  lemma {:induction false} ApartAtRank(s: Scene, n: Node, used: set<string>, fewer: set<string>, k: nat)
    requires GrantedApart#[k](s, n, used) && fewer <= used
    ensures Granted(s, n) && GrantedApart(s, n, fewer)
    decreases k
  {
    hide VisitKey, GrantsOutright, Targets, Rewrites;
    var rw :| rw in Rewrites(s.model, n) && (GrantsOutright(s, n, rw)
              || exists d <- Targets(s, n, rw) :: GrantedApart#[k - 1](s, d, used + {VisitKey(s, n)}));
    if !GrantsOutright(s, n, rw) {
      var d :| d in Targets(s, n, rw) && GrantedApart#[k - 1](s, d, used + {VisitKey(s, n)});
      ApartAtRank(s, d, used + {VisitKey(s, n)}, fewer + {VisitKey(s, n)}, k - 1);
    }
    GrantStep(s, n, rw);
    ApartStep(s, n, rw, fewer);
  }

  lemma ApartStep(s: Scene, n: Node, rw: RewriteRule, used: set<string>)
    requires rw in Rewrites(s.model, n) && VisitKey(s, n) !in used
    requires GrantsOutright(s, n, rw) || exists d <- Targets(s, n, rw) :: GrantedApart(s, d, used + {VisitKey(s, n)})
    ensures GrantedApart(s, n, used)
  {
    hide VisitKey, GrantsOutright, Targets, Rewrites;
  }

  lemma ApartWithFewer(s: Scene, n: Node, used: set<string>, fewer: set<string>)
    requires GrantedApart(s, n, used) && fewer <= used
    ensures GrantedApart(s, n, fewer)
  {
    var k: nat :| GrantedApart#[k](s, n, used);
    ApartAtRank(s, n, used, fewer, k);
  }

  lemma {:induction false} RanksGrow(s: Scene, n: Node, k: nat)
    requires Granted#[k](s, n)
    ensures Granted#[k + 1](s, n)
    decreases k
  {
    hide GrantsOutright, Targets, Rewrites;
    var rw :| rw in Rewrites(s.model, n) &&
              (GrantsOutright(s, n, rw) || exists d <- Targets(s, n, rw) :: Granted#[k - 1](s, d));
    if !GrantsOutright(s, n, rw) {
      var d :| d in Targets(s, n, rw) && Granted#[k - 1](s, d);
      RanksGrow(s, d, k - 1);
    }
  }

  /** Where distinct nodes have distinct keys every grant has a derivation that repeats no key. */
  lemma DistinctKeysApart(s: Scene, nodes: set<Node>, n: Node)
    requires Closed(s, nodes) && KeysDistinct(s, nodes) && n in nodes && Granted(s, n)
    ensures GrantedApart(s, n, {})
  {
    var k: nat :| Granted#[k](s, n);
    ApartByRank(s, nodes, n, {}, k);
  }

  /** By ranks: along a derivation of least rank the ranks fall, so no earlier node can come back. */
  lemma {:induction false} ApartByRank(s: Scene, nodes: set<Node>, n: Node, used: set<string>, k: nat)
    requires Closed(s, nodes) && KeysDistinct(s, nodes) && n in nodes && Granted#[k](s, n)
    requires forall m <- nodes :: VisitKey(s, m) in used ==> !Granted#[k](s, m)
    ensures GrantedApart(s, n, used)
    decreases k
  {
    hide GrantsOutright, Targets, Rewrites, SearchKey;
    forall m | m in nodes && VisitKey(s, m) in used ensures k >= 1 ==> !Granted#[k - 1](s, m) {
      if k >= 1 && Granted#[k - 1](s, m) { RanksGrow(s, m, k - 1); }
    }
    if k >= 1 && Granted#[k - 1](s, n) {
      ApartByRank(s, nodes, n, used, k - 1);
    } else {
      var rw :| rw in Rewrites(s.model, n) &&
                (GrantsOutright(s, n, rw) || exists d <- Targets(s, n, rw) :: Granted#[k - 1](s, d));
      if !GrantsOutright(s, n, rw) {
        var d :| d in Targets(s, n, rw) && Granted#[k - 1](s, d);
        ApartByRank(s, nodes, d, used + {VisitKey(s, n)}, k - 1);
      }
      ApartStep(s, n, rw, used);
    }
  }

  // ---- enumeration ----

  /** r is relation itself or reached from it by computed-relation rules on the same type. */
  least predicate ComputedReach[nat](m: Model, objectType: string, relation: string, r: string) {
    || relation == r
    || exists rw <- Rewrites(m, Node(objectType, "", relation)) ::
         rw.computedRelation != "" && ComputedReach(m, objectType, rw.computedRelation, r)
  }

  ghost predicate HasTuple(s: Scene, objectType: string, objectID: string) {
    exists t <- s.stored + s.overlay :: t.objectType == objectType && t.objectID == objectID
  }

  /** Some rule of the relation takes tuples of its own. */
  predicate TakesDirect(m: Model, objectType: string, r: string) {
    exists rw <- Rewrites(m, Node(objectType, "", r)) :: rw.direct
  }

  /** No bucket that a check of relation reads on this object can hold another object's tuples. */
  ghost predicate OwnBuckets(m: Model, objectType: string, objectID: string, relation: string) {
    forall q | ComputedReach(m, objectType, relation, q) && TakesDirect(m, objectType, q) ::
      '#' !in objectID && '#' !in q
  }

  /** Then every derivation rests on at least one tuple about the object itself. */
  lemma {:induction false} GrantNeedsTuple(s: Scene, n: Node)
    requires ParsedScene(s) && n.objectType != "" && n.objectID != "" && ':' !in n.objectType
    requires OwnBuckets(s.model, n.objectType, n.objectID, n.relation) && Granted(s, n)
    ensures HasTuple(s, n.objectType, n.objectID)
  {
    var k: nat :| Granted#[k](s, n);
    TupleAtRank(s, n, k);
  }

  lemma {:induction false} TupleAtRank(s: Scene, n: Node, k: nat)
    requires ParsedScene(s) && n.objectType != "" && n.objectID != "" && ':' !in n.objectType
    requires OwnBuckets(s.model, n.objectType, n.objectID, n.relation) && Granted#[k](s, n)
    ensures HasTuple(s, n.objectType, n.objectID)
    decreases k
  {
    hide OwnBuckets, ParsedScene;
    var rw :| rw in Rewrites(s.model, n) &&
              (GrantsOutright(s, n, rw) || exists d <- Targets(s, n, rw) :: Granted#[k - 1](s, d));
    if GrantsOutright(s, n, rw) {
      var t :| t in Hits(s, DirectFilter(s, n));
    } else {
      var d :| d in Targets(s, n, rw) && Granted#[k - 1](s, d);
      if rw.computedRelation != "" && d == Node(n.objectType, n.objectID, rw.computedRelation) {
        OwnBucketsOnward(s.model, n, rw);
        TupleAtRank(s, d, k - 1);
      } else if rw.direct && d in UsersetTargets(s, n) {
        var t :| t in UsersetHits(s, n);
        OwnUserset(s, n, rw, t);
      } else {
        var t :| t in Hits(s, OnRelation(n.objectType, n.objectID, rw.fromLookup.value.from));
      }
    }
  }

  lemma OwnBucketsOnward(m: Model, n: Node, rw: RewriteRule)
    requires OwnBuckets(m, n.objectType, n.objectID, n.relation) && rw in Rewrites(m, n) && rw.computedRelation != ""
    ensures OwnBuckets(m, n.objectType, n.objectID, rw.computedRelation)
  {
    assert rw in Rewrites(m, Node(n.objectType, "", n.relation));
    assert Computes(m, n.objectType, n.relation, rw.computedRelation);
    OneStepReach(m, n.objectType, n.relation, rw.computedRelation);
    forall q | ComputedReach(m, n.objectType, rw.computedRelation, q)
      ensures ComputedReach(m, n.objectType, n.relation, q)
    {
      ReachTransitive(m, n.objectType, n.relation, rw.computedRelation, q);
    }
  }

  lemma OwnUserset(s: Scene, n: Node, rw: RewriteRule, t: Tuple)
    requires ParsedScene(s) && ':' !in n.objectType && OwnBuckets(s.model, n.objectType, n.objectID, n.relation)
    requires rw in Rewrites(s.model, n) && rw.direct && t in UsersetHits(s, n)
    ensures t.objectType == n.objectType && t.objectID == n.objectID
  {
    assert rw in Rewrites(s.model, Node(n.objectType, "", n.relation));
    assert TakesDirect(s.model, n.objectType, n.relation);
    assert ComputedReach(s.model, n.objectType, n.relation, n.relation);
    if SlotKey(t) == NodeKey(n) {
      assert Parsed(t);
      OnlySplit(t.objectType, t.objectID, t.relation, n.objectType, n.objectID, n.relation);
    }
  }

  /** Every grant on the object under this model rests on a tuple about it, whatever nameable tuples there are. */
  ghost predicate GrantsRestOnTuples(m: Model, objectType: string, objectID: string, relation: string) {
    forall s: Scene | s.model == m && ParsedScene(s) && Granted(s, Node(objectType, objectID, relation)) ::
      HasTuple(s, objectType, objectID)
  }

  /** For every model and nameable object, that holds exactly when its buckets are its own. */
  lemma GrantsRestExactly(m: Model, objectType: string, objectID: string, relation: string)
    requires objectType != "" && ':' !in objectType && objectID != "" && relation != ""
    ensures GrantsRestOnTuples(m, objectType, objectID, relation) <==> OwnBuckets(m, objectType, objectID, relation)
  {
    hide HasTuple, ParsedScene, Granted;
    if OwnBuckets(m, objectType, objectID, relation) {
      forall s: Scene | s.model == m && ParsedScene(s) && Granted(s, Node(objectType, objectID, relation))
        ensures HasTuple(s, objectType, objectID)
      {
        GrantNeedsTuple(s, Node(objectType, objectID, relation));
      }
    } else {
      var q :| ComputedReach(m, objectType, relation, q) && TakesDirect(m, objectType, q)
               && ('#' in objectID || '#' in q);
      var s := GrantWithoutTuple(m, objectType, objectID, relation, q);
    }
  }

  lemma ReachedNonEmpty(m: Model, objectType: string, relation: string, q: string, k: nat)
    requires relation != "" && ComputedReach#[k](m, objectType, relation, q)
    ensures q != ""
    decreases k
  {
    if relation != q {
      var rw :| rw in Rewrites(m, Node(objectType, "", relation)) && rw.computedRelation != ""
                && ComputedReach#[k - 1](m, objectType, rw.computedRelation, q);
      ReachedNonEmpty(m, objectType, rw.computedRelation, q, k - 1);
    }
  }

  /** A grant passes up along computed relations. */
  lemma {:induction false} GrantClimbs(s: Scene, objectType: string, objectID: string,
                                       relation: string, q: string, k: nat)
    requires ComputedReach#[k](s.model, objectType, relation, q) && Granted(s, Node(objectType, objectID, q))
    ensures Granted(s, Node(objectType, objectID, relation))
    decreases k
  {
    if relation != q {
      var rw :| rw in Rewrites(s.model, Node(objectType, "", relation)) && rw.computedRelation != ""
                && ComputedReach#[k - 1](s.model, objectType, rw.computedRelation, q);
      GrantClimbs(s, objectType, objectID, rw.computedRelation, q, k - 1);
      assert Node(objectType, objectID, rw.computedRelation) in Targets(s, Node(objectType, objectID, relation), rw);
      GrantStep(s, Node(objectType, objectID, relation), rw);
    }
  }

  /** A userset of another object in the bucket of q grants the relation, and no tuple is about the object. */
  lemma GrantWithoutTuple(m: Model, objectType: string, objectID: string, relation: string, q: string)
    returns (s: Scene)
    requires ':' !in objectType && relation != ""
    requires ComputedReach(m, objectType, relation, q) && TakesDirect(m, objectType, q) && ('#' in objectID || '#' in q)
    ensures s.model == m && ParsedScene(s) && Granted(s, Node(objectType, objectID, relation))
    ensures !HasTuple(s, objectType, objectID)
    ensures '#' !in objectID ==> KeysDistinct(s, Reachable(s, Node(objectType, objectID, relation)))
  {
    var k: nat :| ComputedReach#[k](m, objectType, relation, q);
    ReachedNonEmpty(m, objectType, relation, q, k);
    var id, r := OtherSplit(objectID, q);
    var group := Repeat(|objectID| + 1);
    assert |group| != |objectID| && '#' !in group;
    var link := Tuple(objectType, id, r, objectType, group, q);
    s := Scene(m, {link, Tuple(objectType, group, q, "user", "u", "")}, {}, "user", "u");
    SharedKey(link, objectType, objectID, q);
    hide ComputedReach, Reachable, KeysDistinct, Repeat, Granted, TakesDirect, SlotKey, ObjectRelationKey;
    ThroughOutsider(s, link, Node(objectType, objectID, q));
    GrantClimbs(s, objectType, objectID, relation, q, k);
    if '#' !in objectID { NameableKeysDistinct(s, Node(objectType, objectID, relation)); }
  }

  /** The linked node is granted to a member, and n through the link. */
  lemma ThroughOutsider(s: Scene, link: Tuple, n: Node)
    requires TakesDirect(s.model, n.objectType, n.relation) && n.relation != ""
    requires link.userType == n.objectType && link.userRelation == n.relation
    requires SlotKey(link) == ObjectRelationKey(n.objectType, n.objectID, n.relation)
    requires s.stored == {link, Tuple(link.userType, link.userID, link.userRelation, s.userType, s.userID, "")}
    ensures Granted(s, n)
  {
    var member := Tuple(link.userType, link.userID, link.userRelation, s.userType, s.userID, "");
    var rw :| rw in Rewrites(s.model, Node(n.objectType, "", n.relation)) && rw.direct;
    var inner := SubjectNode(link);
    assert Rewrites(s.model, inner) == Rewrites(s.model, n) == Rewrites(s.model, Node(n.objectType, "", n.relation));
    assert member in Hits(s, DirectFilter(s, inner));
    hide SlotKey, ObjectRelationKey, Hits;
    GrantStep(s, inner, rw);
    UsersetGrants(s, n, rw, link);
  }

  lemma UsersetGrants(s: Scene, n: Node, rw: RewriteRule, t: Tuple)
    requires rw in Rewrites(s.model, n) && rw.direct && t in s.stored && t.userRelation != ""
    requires SlotKey(t) == ObjectRelationKey(n.objectType, n.objectID, n.relation) && Granted(s, SubjectNode(t))
    ensures Granted(s, n)
  {
    assert t in UsersetHits(s, n);
    assert SubjectNode(t) in UsersetTargets(s, n);
    assert SubjectNode(t) in Targets(s, n, rw);
    GrantStep(s, n, rw);
  }

  /** A rule of from computes to on the same object: the enumeration calls itself. */
  predicate Computes(m: Model, objectType: string, from: string, to: string) {
    to != "" && exists rw <- Rewrites(m, Node(objectType, "", from)) :: rw.computedRelation == to
  }

  ghost predicate ComputesItself(m: Model, objectType: string, r: string) {
    exists c :: Computes(m, objectType, r, c) && ComputedReach(m, objectType, c, r)
  }

  /** No relation that relation computes from, directly or not, computes back to itself. */
  ghost predicate AcyclicFrom(m: Model, objectType: string, relation: string) {
    forall r | ComputedReach(m, objectType, relation, r) :: !ComputesItself(m, objectType, r)
  }

  lemma {:induction false} ReachTransitive(m: Model, objectType: string, a: string, b: string, c: string)
    requires ComputedReach(m, objectType, a, b) && ComputedReach(m, objectType, b, c)
    ensures ComputedReach(m, objectType, a, c)
  {
    var k: nat :| ComputedReach#[k](m, objectType, a, b);
    ReachTransitiveAt(m, objectType, a, b, c, k);
  }

  lemma {:induction false} ReachTransitiveAt(m: Model, objectType: string, a: string, b: string, c: string, k: nat)
    requires ComputedReach#[k](m, objectType, a, b) && ComputedReach(m, objectType, b, c)
    ensures ComputedReach(m, objectType, a, c)
    decreases k
  {
    if a != b {
      var rw :| rw in Rewrites(m, Node(objectType, "", a)) && rw.computedRelation != ""
                && ComputedReach#[k - 1](m, objectType, rw.computedRelation, b);
      ReachTransitiveAt(m, objectType, rw.computedRelation, b, c, k - 1);
    }
  }

  lemma OneStepReach(m: Model, objectType: string, a: string, b: string)
    requires Computes(m, objectType, a, b)
    ensures ComputedReach(m, objectType, a, b)
  {
    var rw :| rw in Rewrites(m, Node(objectType, "", a)) && rw.computedRelation == b;
    assert ComputedReach(m, objectType, b, b);
  }

  /** The declared relations of a type. */
  function Declared(m: Model, objectType: string): set<string> {
    if objectType in m.types then m.types[objectType].Keys else {}
  }

  /** The declared relations that r computes from, itself included. */
  ghost function ReachedFrom(m: Model, objectType: string, r: string): set<string> {
    set x | x in Declared(m, objectType) && ComputedReach(m, objectType, r, x)
  }

  /** Following a rule leaves at least one relation behind for good. */
  lemma ReachShrinks(m: Model, objectType: string, from: string, to: string)
    requires AcyclicFrom(m, objectType, from) && Computes(m, objectType, from, to)
    ensures AcyclicFrom(m, objectType, to)
    ensures |ReachedFrom(m, objectType, to)| < |ReachedFrom(m, objectType, from)|
  {
    OneStepReach(m, objectType, from, to);
    forall r | ComputedReach(m, objectType, to, r) ensures ComputedReach(m, objectType, from, r) {
      ReachTransitive(m, objectType, from, to, r);
    }
    assert ComputedReach(m, objectType, from, from);
    assert !ComputesItself(m, objectType, from);
    var less, more := ReachedFrom(m, objectType, to), ReachedFrom(m, objectType, from);
    assert from in more && from !in less && less <= more;
    assert more == less + (more - less) && from in more - less;
  }

  /** rank falls along every rule the enumeration follows from relation. */
  ghost predicate RankedFrom(m: Model, objectType: string, relation: string, rank: string -> nat) {
    forall r, c | ComputedReach(m, objectType, relation, r) && Computes(m, objectType, r, c) :: rank(c) < rank(r)
  }

  /** A chain of nested calls of the enumeration. */
  ghost predicate CallChain(m: Model, objectType: string, relation: string, calls: seq<string>) {
    && calls != [] && calls[0] == relation
    && forall i | 0 <= i < |calls| - 1 :: Computes(m, objectType, calls[i], calls[i + 1])
  }

  ghost predicate NestsWithin(m: Model, objectType: string, relation: string, bound: nat) {
    forall calls | CallChain(m, objectType, relation, calls) :: |calls| <= bound
  }

  /** The nesting of calls is bounded, and then by the relations reached. */
  lemma {:induction false} ChainsEnd(m: Model, objectType: string, relation: string, calls: seq<string>)
    requires AcyclicFrom(m, objectType, relation) && CallChain(m, objectType, relation, calls)
    ensures |calls| <= |ReachedFrom(m, objectType, relation)| + 1
    decreases |calls|
  {
    if |calls| > 1 {
      assert Computes(m, objectType, calls[0], calls[1]);
      ReachShrinks(m, objectType, relation, calls[1]);
      ChainsEnd(m, objectType, calls[1], calls[1..]);
    }
  }

  /** From a relation with a cycle ahead calls can nest to any depth. */
  lemma {:induction false} ChainsGoOn(m: Model, objectType: string, relation: string, depth: nat)
    returns (calls: seq<string>)
    requires !AcyclicFrom(m, objectType, relation)
    ensures CallChain(m, objectType, relation, calls) && |calls| == depth + 1
    decreases depth
  {
    calls := [relation];
    if depth > 0 {
      var c := StepTowardsCycle(m, objectType, relation);
      var rest := ChainsGoOn(m, objectType, c, depth - 1);
      calls := calls + rest;
    }
  }

  lemma StepTowardsCycle(m: Model, objectType: string, relation: string) returns (c: string)
    requires !AcyclicFrom(m, objectType, relation)
    ensures Computes(m, objectType, relation, c) && !AcyclicFrom(m, objectType, c)
  {
    var r :| ComputedReach(m, objectType, relation, r) && ComputesItself(m, objectType, r);
    if r == relation {
      c :| Computes(m, objectType, r, c) && ComputedReach(m, objectType, c, r);
    } else {
      var rw :| rw in Rewrites(m, Node(objectType, "", relation)) && rw.computedRelation != ""
                && ComputedReach(m, objectType, rw.computedRelation, r);
      c := rw.computedRelation;
    }
  }

  /**
   * The enumeration of relation nests to a bounded depth, equivalently admits a rank, exactly when no relation it
   * computes from computes back to itself. Elsewhere in the type cycles do no harm.
   */
  lemma EnumerationEndsExactly(m: Model, objectType: string, relation: string)
    ensures AcyclicFrom(m, objectType, relation) <==>
      exists rank: string -> nat :: RankedFrom(m, objectType, relation, rank)
    ensures AcyclicFrom(m, objectType, relation) <==>
      exists bound: nat :: NestsWithin(m, objectType, relation, bound)
  {
    if AcyclicFrom(m, objectType, relation) {
      var rank := (r: string) => |ReachedFrom(m, objectType, r)|;
      forall r, c | ComputedReach(m, objectType, relation, r) && Computes(m, objectType, r, c)
        ensures rank(c) < rank(r)
      {
        AcyclicOnward(m, objectType, relation, r);
        ReachShrinks(m, objectType, r, c);
      }
      assert RankedFrom(m, objectType, relation, rank);
      var bound := |ReachedFrom(m, objectType, relation)| + 1;
      forall calls | CallChain(m, objectType, relation, calls) ensures |calls| <= bound {
        ChainsEnd(m, objectType, relation, calls);
      }
      assert NestsWithin(m, objectType, relation, bound);
    } else {
      if rank: string -> nat :| RankedFrom(m, objectType, relation, rank) {
        CycleHasNoRank(m, objectType, relation, rank);
        assert false;
      }
      if bound: nat :| NestsWithin(m, objectType, relation, bound) {
        var calls := ChainsGoOn(m, objectType, relation, bound);
        assert false;
      }
    }
  }

  lemma AcyclicOnward(m: Model, objectType: string, relation: string, r: string)
    requires AcyclicFrom(m, objectType, relation) && ComputedReach(m, objectType, relation, r)
    ensures AcyclicFrom(m, objectType, r)
  {
    forall x | ComputedReach(m, objectType, r, x) ensures ComputedReach(m, objectType, relation, x) {
      ReachTransitive(m, objectType, relation, r, x);
    }
  }

  /** A cycle ahead excludes a rank: along the calls it would fall for ever. */
  lemma {:induction false} CycleHasNoRank(m: Model, objectType: string, relation: string, rank: string -> nat)
    requires !AcyclicFrom(m, objectType, relation)
    ensures !RankedFrom(m, objectType, relation, rank)
    decreases rank(relation)
  {
    if RankedFrom(m, objectType, relation, rank) {
      var c := StepTowardsCycle(m, objectType, relation);
      assert ComputedReach(m, objectType, relation, relation);
      OneStepReach(m, objectType, relation, c);
      forall r | ComputedReach(m, objectType, c, r) ensures ComputedReach(m, objectType, relation, r) {
        ReachTransitive(m, objectType, relation, c, r);
      }
      CycleHasNoRank(m, objectType, c, rank);
    }
  }

  /** key belongs to a tuple on the object under relation or a relation it computes from. */
  ghost predicate Listed(s: Scene, relation: string, objectType: string, objectID: string, key: string) {
    exists r, t ::
      && ComputedReach(s.model, objectType, relation, r)
      && t in Hits(s, OnRelation(objectType, objectID, r))
      && UserKey(t) == key
  }

  /** Whoever is listed through a relation that takes direct tuples passes the check. */
  lemma {:induction false} ListedPassesCheck(s: Scene, relation: string, objectType: string, objectID: string,
                                             r: string, t: Tuple)
    requires ComputedReach(s.model, objectType, relation, r)
    requires t in Hits(s, OnRelation(objectType, objectID, r))
    requires exists rw <- Rewrites(s.model, Node(objectType, objectID, r)) :: rw.direct
    ensures Granted(s.(userType := t.userType, userID := t.userID), Node(objectType, objectID, relation))
  {
    var k: nat :| ComputedReach#[k](s.model, objectType, relation, r);
    var s', n := s.(userType := t.userType, userID := t.userID), Node(objectType, objectID, r);
    var rw :| rw in Rewrites(s.model, n) && rw.direct;
    assert t in Hits(s', DirectFilter(s', n));
    GrantStep(s', n, rw);
    GrantClimbs(s', objectType, objectID, relation, r, k);
  }
}
