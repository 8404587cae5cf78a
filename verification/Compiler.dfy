/** From the decoded model source to the compiled model (zanzibar/model/compiler.go). */
module Compiler {
  import opened AuthModel
  import opened Keys
  import opened Semantics

  /** A union member: a relation name, or a from/lookup pair. */
  datatype UnionEntry = UnionEntry(relation: string, from: string, lookup: string)

  datatype RawRelation = RawRelation(types: seq<string>, union: seq<UnionEntry>, required: bool)

  datatype RawModel = RawModel(version: string, types: map<string, map<string, RawRelation>>)

  datatype CompileError = RequiredNotDirect | UnresolvedReference

  const DIRECT := RewriteRule(true, "", None)

  /** The rules of a union, in order; an entry that names nothing contributes none. */
  function UnionRules(union: seq<UnionEntry>): seq<RewriteRule> {
    if union == [] then [] else
      var e := union[|union| - 1];
      UnionRules(union[..|union| - 1])
      + (if e.from != "" then [RewriteRule(false, "", Some(FromLookup(e.from, e.lookup)))]
         else if e.relation != "" then [RewriteRule(false, e.relation, None)]
         else [])
  }

  lemma {:induction false} UnionRulesMembers(union: seq<UnionEntry>)
    ensures forall rw :: rw in UnionRules(union) <==> exists e <- union :: IsRuleOf(rw, e)
  {
    if union != [] {
      var front, last := union[..|union| - 1], union[|union| - 1];
      assert union == front + [last];
      UnionRulesMembers(front);
      forall rw ensures rw in UnionRules(union) <==> exists e <- union :: IsRuleOf(rw, e) {
        assert rw in UnionRules(union) <==> rw in UnionRules(front) || IsRuleOf(rw, last);
      }
    }
  }

  predicate IsRuleOf(rw: RewriteRule, e: UnionEntry) {
    if e.from != "" then rw == RewriteRule(false, "", Some(FromLookup(e.from, e.lookup)))
    else e.relation != "" && rw == RewriteRule(false, e.relation, None)
  }

  /** The relation takes tuples of its own: it lists types, or is a union ('this' included). */
  predicate TakesTuples(raw: RawRelation) {
    |raw.types| > 0 || |raw.union| > 0
  }

  function RulesOf(raw: RawRelation): seq<RewriteRule> {
    if TakesTuples(raw) then [DIRECT] + UnionRules(raw.union) else []
  }

  /** A floor is accepted only where direct tuples are the one way to hold the relation. */
  predicate FloorAllowed(raw: RawRelation) {
    raw.required ==> RulesOf(raw) == [DIRECT]
  }

  lemma RulesCome(union: seq<UnionEntry>)
    ensures UnionRules(union) == [] <==> forall e <- union :: e.from == "" && e.relation == ""
  {
    UnionRulesMembers(union);
    var rules := UnionRules(union);
    if rules != [] { assert rules[0] in rules; }
    forall e | e in union && (e.from != "" || e.relation != "") ensures rules != [] {
      var rw := if e.from != "" then RewriteRule(false, "", Some(FromLookup(e.from, e.lookup)))
                else RewriteRule(false, e.relation, None);
      assert IsRuleOf(rw, e) && rw in rules;
    }
  }

  /** What compiling a relation keeps and adds, by the entries of the source. */
  ghost predicate KeepsEntries(raw: RawRelation, def: RelationDef) {
    && def.directTypes == raw.types && def.minHolders == (if raw.required then 1 else 0)
    && (def.rewrites == [] <==> raw.types == [] && raw.union == [])
    && (def.rewrites != [] ==> def.rewrites[0] == RewriteRule(true, "", None))
    && (forall e <- raw.union | e.from != "" ::
          RewriteRule(false, "", Some(FromLookup(e.from, e.lookup))) in def.rewrites)
    && (forall e <- raw.union | e.from == "" && e.relation != "" ::
          RewriteRule(false, e.relation, None) in def.rewrites)
    && (forall rw <- def.rewrites | rw != RewriteRule(true, "", None) ::
          exists e <- raw.union ::
            if e.from != "" then rw == RewriteRule(false, "", Some(FromLookup(e.from, e.lookup)))
            else e.relation != "" && rw == RewriteRule(false, e.relation, None))
  }

  lemma CompiledKeepsEntries(raw: RawRelation, def: RelationDef)
    requires IsCompiled(raw, def)
    ensures KeepsEntries(raw, def)
  {
    UnionRulesMembers(raw.union);
    hide UnionRules;
    forall rw | rw in def.rewrites && rw != DIRECT
      ensures exists e <- raw.union ::
        if e.from != "" then rw == RewriteRule(false, "", Some(FromLookup(e.from, e.lookup)))
        else e.relation != "" && rw == RewriteRule(false, e.relation, None)
    {
      assert rw in UnionRules(raw.union);
      var e :| e in raw.union && IsRuleOf(rw, e);
    }
  }

  /** A floor is refused without any rule, and beside any rule of a union. */
  lemma FloorRefused(raw: RawRelation)
    ensures !FloorAllowed(raw) <==> raw.required && ((raw.types == [] && raw.union == [])
                                                     || exists e <- raw.union :: e.from != "" || e.relation != "")
  {
    RulesCome(raw.union);
    hide UnionRules;
  }

  method CompileRelation(raw: RawRelation) returns (r: Result<RelationDef, CompileError>)
    ensures r.Ok? <==> FloorAllowed(raw)
    ensures r.Ok? ==> IsCompiled(raw, r.value) && KeepsEntries(raw, r.value)
    ensures r.Err? ==> r.error == RequiredNotDirect
    ensures r.Err? <==> raw.required && ((raw.types == [] && raw.union == [])
                                        || exists e <- raw.union :: e.from != "" || e.relation != "")
  {
    hide KeepsEntries;
    var rewrites := [];
    if |raw.types| > 0 && |raw.union| == 0 {
      rewrites := [DIRECT];
    } else if |raw.union| > 0 {
      rewrites := [DIRECT];
      for i := 0 to |raw.union|
        invariant rewrites == [DIRECT] + UnionRules(raw.union[..i])
      {
        var e := raw.union[i];
        assert raw.union[..i + 1][..i] == raw.union[..i];
        if e.from != "" {
          rewrites := rewrites + [RewriteRule(false, "", Some(FromLookup(e.from, e.lookup)))];
        } else if e.relation != "" {
          rewrites := rewrites + [RewriteRule(false, e.relation, None)];
        }
      }
      assert raw.union[..|raw.union|] == raw.union;
    }
    assert rewrites == RulesOf(raw);
    FloorRefused(raw);
    var minHolders := 0;
    if raw.required {
      if |rewrites| != 1 || !rewrites[0].direct { return Err(RequiredNotDirect); }
      minHolders := 1;
    }
    var def := RelationDef(raw.types, rewrites, minHolders);
    CompiledKeepsEntries(raw, def);
    return Ok(def);
  }

  ghost predicate IsCompiled(raw: RawRelation, def: RelationDef) {
    def == RelationDef(raw.types, RulesOf(raw), if raw.required then 1 else 0)
  }

  /** m has exactly raw's types and relations, each compiled on its own. */
  ghost predicate Mirrors(raw: RawModel, m: Model) {
    && m.types.Keys == raw.types.Keys
    && forall ot <- raw.types ::
         && m.types[ot].Keys == raw.types[ot].Keys
         && forall r <- raw.types[ot] :: IsCompiled(raw.types[ot][r], m.types[ot][r])
  }

  /** Decoding lets no from/lookup entry through without a lookup. */
  ghost predicate Decoded(raw: RawModel) {
    forall ot, r, e | ot in raw.types && r in raw.types[ot] && e in raw.types[ot][r].union ::
      e.from != "" ==> e.lookup != ""
  }

  // ---- references ----

  /** `type` or `type#relation` names something in the model. */
  predicate TypeRefResolves(m: Model, ref: string) {
    var (base, rel, hasRel) := CutAt(ref, '#');
    base in m.types && (hasRel ==> rel in m.types[base])
  }

  predicate SomeTargetHas(m: Model, targets: seq<string>, lookup: string) {
    exists t <- targets :: HasRelation(m, CutAt(t, '#').0, lookup)
  }

  predicate RuleResolves(m: Model, ot: string, rw: RewriteRule)
    requires ot in m.types
  {
    && (rw.computedRelation != "" ==> rw.computedRelation in m.types[ot])
    && (rw.fromLookup.Some? ==>
          var fl := rw.fromLookup.value;
          && fl.from in m.types[ot]
          && (|m.types[ot][fl.from].directTypes| > 0 ==>
                SomeTargetHas(m, m.types[ot][fl.from].directTypes, fl.lookup)))
  }

  predicate RelationResolves(m: Model, ot: string, r: string)
    requires HasRelation(m, ot, r)
  {
    && (forall ref <- m.types[ot][r].directTypes :: TypeRefResolves(m, ref))
    && (forall rw <- m.types[ot][r].rewrites :: RuleResolves(m, ot, rw))
  }

  ghost predicate Resolves(m: Model) {
    forall ot, r | HasRelation(m, ot, r) :: RelationResolves(m, ot, r)
  }

  method ValidateRule(m: Model, ot: string, rw: RewriteRule) returns (ok: bool)
    requires ot in m.types
    ensures ok <==> RuleResolves(m, ot, rw)
  {
    hide CutAt;
    if rw.computedRelation != "" && rw.computedRelation !in m.types[ot] { return false; }
    if rw.fromLookup.Some? {
      var fl := rw.fromLookup.value;
      if fl.from !in m.types[ot] { return false; }
      var targets := m.types[ot][fl.from].directTypes;
      var found := false;
      for k := 0 to |targets|
        invariant found <==> SomeTargetHas(m, targets[..k], fl.lookup)
      {
        assert targets[..k + 1] == targets[..k] + [targets[k]];
        found := found || HasRelation(m, CutAt(targets[k], '#').0, fl.lookup);
      }
      assert targets[..|targets|] == targets;
      if !found && |targets| > 0 { return false; }
    }
    return true;
  }

  method ValidateRelation(m: Model, ot: string, r: string) returns (ok: bool)
    requires HasRelation(m, ot, r)
    ensures ok <==> RelationResolves(m, ot, r)
  {
    hide TypeRefResolves, RuleResolves;
    var def := m.types[ot][r];
    for i := 0 to |def.directTypes|
      invariant forall j | 0 <= j < i :: TypeRefResolves(m, def.directTypes[j])
    {
      if !TypeRefResolves(m, def.directTypes[i]) { return false; }
    }
    for i := 0 to |def.rewrites|
      invariant forall j | 0 <= j < i :: RuleResolves(m, ot, def.rewrites[j])
    {
      var fine := ValidateRule(m, ot, def.rewrites[i]);
      if !fine { return false; }
    }
    return true;
  }

  method Validate(m: Model) returns (ok: bool)
    ensures ok <==> Resolves(m)
  {
    var types := m.types.Keys;
    while types != {}
      invariant types <= m.types.Keys
      invariant forall ot, r | HasRelation(m, ot, r) && ot !in types :: RelationResolves(m, ot, r)
    {
      var ot :| ot in types;
      types := types - {ot};
      var relations := m.types[ot].Keys;
      while relations != {}
        invariant relations <= m.types[ot].Keys
        invariant forall r | r in m.types[ot] && r !in relations :: RelationResolves(m, ot, r)
      {
        var r :| r in relations;
        relations := relations - {r};
        var fine := ValidateRelation(m, ot, r);
        if !fine { return false; }
      }
    }
    return true;
  }

  method CompileType(raw: map<string, RawRelation>) returns (r: Result<map<string, RelationDef>, CompileError>)
    ensures r.Ok? <==> forall name <- raw :: FloorAllowed(raw[name])
    ensures r.Ok? ==> r.value.Keys == raw.Keys && forall name <- raw :: IsCompiled(raw[name], r.value[name])
    ensures r.Err? ==> r.error == RequiredNotDirect
  {
    hide FloorAllowed, IsCompiled;
    var done: map<string, RelationDef> := map[];
    var left := raw.Keys;
    while left != {}
      invariant left <= raw.Keys && done.Keys == raw.Keys - left
      invariant forall name <- done :: FloorAllowed(raw[name]) && IsCompiled(raw[name], done[name])
    {
      var name :| name in left;
      left := left - {name};
      var compiled := CompileRelation(raw[name]);
      if compiled.Err? { return Err(compiled.error); }
      done := done[name := compiled.value];
    }
    return Ok(done);
  }

  ghost predicate FloorsAllowed(raw: RawModel) {
    forall ot, r | ot in raw.types && r in raw.types[ot] :: FloorAllowed(raw.types[ot][r])
  }

  /** A source is accepted exactly when its floors sit on direct relations and every reference resolves. */
  method Compile(raw: RawModel) returns (r: Result<Model, CompileError>)
    ensures r.Ok? ==> FloorsAllowed(raw) && Mirrors(raw, r.value) && Resolves(r.value)
    ensures r.Ok? ==> r.value.version == if raw.version == "" then "1.0" else raw.version
    ensures r.Err? ==> if r.error == RequiredNotDirect then !FloorsAllowed(raw)
                       else FloorsAllowed(raw) && forall m | Mirrors(raw, m) :: !Resolves(m)
  {
    hide FloorAllowed, IsCompiled, RelationResolves;
    var done: map<string, map<string, RelationDef>> := map[];
    var left := raw.types.Keys;
    while left != {}
      invariant left <= raw.types.Keys && done.Keys == raw.types.Keys - left
      invariant forall ot, r | ot in done && r in raw.types[ot] :: FloorAllowed(raw.types[ot][r])
      invariant forall ot <- done ::
        done[ot].Keys == raw.types[ot].Keys && forall r <- raw.types[ot] :: IsCompiled(raw.types[ot][r], done[ot][r])
    {
      var ot :| ot in left;
      left := left - {ot};
      var compiled := CompileType(raw.types[ot]);
      if compiled.Err? { return Err(compiled.error); }
      done := done[ot := compiled.value];
    }
    var m := Model(if raw.version == "" then "1.0" else raw.version, done);
    var ok := Validate(m);
    if !ok {
      forall m' | Mirrors(raw, m') ensures !Resolves(m') { MirrorsSame(raw, m, m'); }
      return Err(UnresolvedReference);
    }
    return Ok(m);
  }

  lemma MirrorsSame(raw: RawModel, a: Model, b: Model)
    requires Mirrors(raw, a) && Mirrors(raw, b)
    ensures a.types == b.types && (Resolves(a) <==> Resolves(b))
  {
    hide RulesOf;
    forall ot | ot in raw.types ensures a.types[ot] == b.types[ot] {}
    assert a.types == b.types;
    if Resolves(a) { ResolvesByTypes(a, b); }
    if Resolves(b) { ResolvesByTypes(b, a); }
  }

  lemma ResolvesByTypes(a: Model, b: Model)
    requires a.types == b.types && Resolves(a)
    ensures Resolves(b)
  {
    forall ot, r | HasRelation(b, ot, r) ensures RelationResolves(b, ot, r) {
      assert HasRelation(a, ot, r) && RelationResolves(a, ot, r);
      forall rw | rw in b.types[ot][r].rewrites ensures RuleResolves(b, ot, rw) {
        assert RuleResolves(a, ot, rw);
        if rw.fromLookup.Some? && |b.types[ot][rw.fromLookup.value.from].directTypes| > 0 {
          var fl := rw.fromLookup.value;
          var t :| t in a.types[ot][fl.from].directTypes && HasRelation(a, CutAt(t, '#').0, fl.lookup);
          assert HasRelation(b, CutAt(t, '#').0, fl.lookup);
        }
      }
    }
  }

  /** Whether a type reference resolves, by its text. */
  lemma TypeRefMeans(m: Model, base: string, rel: string)
    requires '#' !in base
    ensures TypeRefResolves(m, base) <==> base in m.types
    ensures TypeRefResolves(m, base + "#" + rel) <==> base in m.types && rel in m.types[base]
  {
    CutAtAbsent(base, '#');
    CutAtJoined(base, '#', rel);
    assert base + "#" + rel == base + ['#'] + rel;
  }

  /** Some listed reference has the lookup on its base type. */
  ghost predicate SomeBaseHas(m: Model, refs: seq<string>, lookup: string) {
    exists base, rest | '#' !in base && (rest == "" || rest[0] == '#') && base + rest in refs ::
      base in m.types && lookup in m.types[base]
  }

  lemma BasesMean(m: Model, refs: seq<string>, lookup: string)
    ensures SomeTargetHas(m, refs, lookup) <==> SomeBaseHas(m, refs, lookup)
  {
    if SomeTargetHas(m, refs, lookup) {
      var t :| t in refs && HasRelation(m, CutAt(t, '#').0, lookup);
      var (base, rel, has) := CutAt(t, '#');
      var rest := if has then "#" + rel else "";
      assert base + rest == t;
    }
    if SomeBaseHas(m, refs, lookup) {
      var base, rest :| '#' !in base && (rest == "" || rest[0] == '#') && base + rest in refs
                        && base in m.types && lookup in m.types[base];
      if rest == "" {
        assert base + rest == base;
        CutAtAbsent(base, '#');
      } else {
        assert base + rest == base + ['#'] + rest[1..];
        CutAtJoined(base, '#', rest[1..]);
      }
    }
  }

  /** In an accepted model every name a rule uses is declared where the rule looks for it. */
  lemma ResolvedMeans(m: Model, ot: string, r: string, rw: RewriteRule)
    requires Resolves(m) && ot in m.types && r in m.types[ot] && rw in m.types[ot][r].rewrites
    ensures rw.computedRelation != "" ==> rw.computedRelation in m.types[ot]
    ensures rw.fromLookup.Some? ==>
      var fl := rw.fromLookup.value;
      && fl.from in m.types[ot]
      && (m.types[ot][fl.from].directTypes != [] ==> SomeBaseHas(m, m.types[ot][fl.from].directTypes, fl.lookup))
    ensures forall base, rel | '#' !in base ::
      && (base in m.types[ot][r].directTypes ==> base in m.types)
      && (base + "#" + rel in m.types[ot][r].directTypes ==> base in m.types && rel in m.types[base])
  {
    hide SomeBaseHas, CutAt;
    assert HasRelation(m, ot, r) && RelationResolves(m, ot, r) && RuleResolves(m, ot, rw);
    if rw.fromLookup.Some? {
      BasesMean(m, m.types[ot][rw.fromLookup.value.from].directTypes, rw.fromLookup.value.lookup);
    }
    forall base: string, rel: string | '#' !in base
      ensures base in m.types[ot][r].directTypes ==> base in m.types
      ensures base + "#" + rel in m.types[ot][r].directTypes ==> base in m.types && rel in m.types[base]
    {
      TypeRefMeans(m, base, rel);
    }
  }

  /** A model that is not accepted has a name that nothing declares. */
  lemma UnresolvedMeans(m: Model)
    requires !Resolves(m)
    ensures exists ot, r | ot in m.types && r in m.types[ot] ::
      || (exists ref <- m.types[ot][r].directTypes :: !TypeRefResolves(m, ref))
      || (exists rw <- m.types[ot][r].rewrites ::
            || (rw.computedRelation != "" && rw.computedRelation !in m.types[ot])
            || (rw.fromLookup.Some? && rw.fromLookup.value.from !in m.types[ot])
            || (rw.fromLookup.Some? && rw.fromLookup.value.from in m.types[ot]
                && m.types[ot][rw.fromLookup.value.from].directTypes != []
                && !SomeBaseHas(m, m.types[ot][rw.fromLookup.value.from].directTypes, rw.fromLookup.value.lookup)))
  {
    hide SomeBaseHas, CutAt, TypeRefResolves;
    var ot, r :| HasRelation(m, ot, r) && !RelationResolves(m, ot, r);
    if rw :| rw in m.types[ot][r].rewrites && !RuleResolves(m, ot, rw) {
      if rw.fromLookup.Some? && rw.fromLookup.value.from in m.types[ot] {
        BasesMean(m, m.types[ot][rw.fromLookup.value.from].directTypes, rw.fromLookup.value.lookup);
      }
    }
  }

  // ---- meaning ----

  predicate RawHas(raw: RawModel, n: Node) {
    n.objectType in raw.types && n.relation in raw.types[n.objectType]
  }

  function RawAt(raw: RawModel, n: Node): RawRelation
    requires RawHas(raw, n)
  {
    raw.types[n.objectType][n.relation]
  }

  /** The meaning of the source text itself: own tuples, named relations and from/lookup entries; s.model is unused. */
  least predicate RawGranted[nat](raw: RawModel, s: Scene, n: Node) {
    && RawHas(raw, n)
    && (|| (&& TakesTuples(RawAt(raw, n))
            && (DirectHit(s, n) || exists d <- UsersetTargets(s, n) :: RawGranted(raw, s, d)))
        || (exists e <- RawAt(raw, n).union :: e.from == "" && e.relation != ""
              && RawGranted(raw, s, Node(n.objectType, n.objectID, e.relation)))
        || (exists e <- RawAt(raw, n).union :: e.from != ""
              && exists d <- LookupTargets(s, n, FromLookup(e.from, e.lookup)) :: RawGranted(raw, s, d)))
  }

  /** Compilation preserves meaning, for every source, tuple set, user and object. */
  lemma {:induction false} CompilationPreservesMeaning(raw: RawModel, s: Scene, n: Node)
    requires Mirrors(raw, s.model)
    ensures Granted(s, n) <==> RawGranted(raw, s, n)
  {
    if Granted(s, n) {
      var k: nat :| Granted#[k](s, n);
      CompiledImpliesRaw(raw, s, n, k);
    }
    if RawGranted(raw, s, n) {
      var k: nat :| RawGranted#[k](raw, s, n);
      RawImpliesCompiled(raw, s, n, k);
    }
  }

  lemma RulesAt(raw: RawModel, m: Model, n: Node)
    requires Mirrors(raw, m)
    ensures Rewrites(m, n) == if RawHas(raw, n) then RulesOf(RawAt(raw, n)) else []
  {
  }

  lemma {:induction false} CompiledImpliesRaw(raw: RawModel, s: Scene, n: Node, k: nat)
    requires Mirrors(raw, s.model) && Granted#[k](s, n)
    ensures RawGranted(raw, s, n)
    decreases k
  {
    hide DirectHit, UsersetTargets, LookupTargets, Mirrors;
    RulesAt(raw, s.model, n);
    var rw :| rw in Rewrites(s.model, n) &&
              (GrantsOutright(s, n, rw) || exists d <- Targets(s, n, rw) :: Granted#[k - 1](s, d));
    UnionRulesMembers(RawAt(raw, n).union);
    if !GrantsOutright(s, n, rw) {
      var d :| d in Targets(s, n, rw) && Granted#[k - 1](s, d);
      CompiledImpliesRaw(raw, s, d, k - 1);
      if rw != DIRECT {
        var e :| e in RawAt(raw, n).union && IsRuleOf(rw, e);
      }
    }
  }

  lemma {:induction false} RawImpliesCompiled(raw: RawModel, s: Scene, n: Node, k: nat)
    requires Mirrors(raw, s.model) && RawGranted#[k](raw, s, n)
    ensures Granted(s, n)
    decreases k
  {
    hide DirectHit, UsersetTargets, LookupTargets, Mirrors;
    RulesAt(raw, s.model, n);
    var def := RawAt(raw, n);
    UnionRulesMembers(def.union);
    if TakesTuples(def) && DirectHit(s, n) {
      GrantStep(s, n, DIRECT);
    } else if TakesTuples(def) && exists d <- UsersetTargets(s, n) :: RawGranted#[k - 1](raw, s, d) {
      var d :| d in UsersetTargets(s, n) && RawGranted#[k - 1](raw, s, d);
      RawImpliesCompiled(raw, s, d, k - 1);
      assert d in Targets(s, n, DIRECT);
      GrantStep(s, n, DIRECT);
    } else if e :| e in def.union && e.from == "" && e.relation != ""
                   && RawGranted#[k - 1](raw, s, Node(n.objectType, n.objectID, e.relation)) {
      var d, rw := Node(n.objectType, n.objectID, e.relation), RewriteRule(false, e.relation, None);
      RawImpliesCompiled(raw, s, d, k - 1);
      assert IsRuleOf(rw, e) && d in Targets(s, n, rw);
      GrantStep(s, n, rw);
    } else {
      var e :| e in def.union && e.from != ""
               && exists d <- LookupTargets(s, n, FromLookup(e.from, e.lookup)) :: RawGranted#[k - 1](raw, s, d);
      var d :| d in LookupTargets(s, n, FromLookup(e.from, e.lookup)) && RawGranted#[k - 1](raw, s, d);
      var rw := RewriteRule(false, "", Some(FromLookup(e.from, e.lookup)));
      RawImpliesCompiled(raw, s, d, k - 1);
      assert IsRuleOf(rw, e) && d in Targets(s, n, rw);
      GrantStep(s, n, rw);
    }
  }

  /** A compiled relation with any rule at all takes direct tuples, and a floor means direct tuples are all it takes. */
  lemma CompiledShape(raw: RawModel, m: Model, n: Node)
    requires Mirrors(raw, m) && FloorsAllowed(raw)
    ensures Rewrites(m, n) != [] ==> exists rw <- Rewrites(m, n) :: rw.direct
    ensures MinHolders(Some(m), n.objectType, n.relation) == if RawHas(raw, n) && RawAt(raw, n).required then 1 else 0
    ensures MinHolders(Some(m), n.objectType, n.relation) > 0 ==> Rewrites(m, n) == [DIRECT]
  {
    RulesAt(raw, m, n);
    if RawHas(raw, n) {
      var def := RawAt(raw, n);
      assert IsCompiled(def, m.types[n.objectType][n.relation]) && FloorAllowed(def);
      if TakesTuples(def) { assert RulesOf(def)[0] == DIRECT; }
    }
  }
}
