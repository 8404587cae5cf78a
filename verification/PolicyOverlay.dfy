/** Policy bundles, dynamic data and their version guards (sync/sync.go, policy/engine/engine.go). */
module PolicyOverlay {
  import opened AuthModel

  /** Policy data: an object, or any other JSON value. */
  datatype Json = Leaf(text: string) | Object(fields: Fields)
  type Fields = map<string, Json>

  /** The path's parts between slashes; never empty. */
  function Split(path: string): (parts: seq<string>)
    ensures parts != []
  {
    if path == "" then [""]
    else if path[0] == '/' then [""] + Split(path[1..])
    else
      var rest := Split(path[1..]);
      [[path[0]] + rest[0]] + rest[1..]
  }

  predicate SlashFree(parts: seq<string>) {
    forall p <- parts :: '/' !in p
  }

  function JoinSlash(parts: seq<string>): string
    requires parts != []
  {
    if |parts| == 1 then parts[0] else parts[0] + "/" + JoinSlash(parts[1..])
  }

  /** The parts hold no slash, and joined by slashes they give the path. */
  lemma {:induction false} SplitSpells(path: string)
    ensures SlashFree(Split(path)) && JoinSlash(Split(path)) == path
    decreases |path|
  {
    if path != "" {
      SplitSpells(path[1..]);
      assert path == [path[0]] + path[1..];
      var rest := Split(path[1..]);
      if path[0] == '/' {
        assert Split(path)[1..] == rest;
      } else {
        var head := [path[0]] + rest[0];
        assert Split(path) == [head] + rest[1..];
        forall p | p in Split(path) ensures '/' !in p {
          if p in rest[1..] { assert p in rest; } else { assert p == head && rest[0] in rest; }
        }
        assert Split(path)[1..] == rest[1..];
      }
    }
  }

  /** Splitting undoes joining, so the parts are the only ones. */
  lemma {:induction false} SplitJoined(parts: seq<string>)
    requires parts != [] && SlashFree(parts)
    ensures Split(JoinSlash(parts)) == parts
    decreases |parts|
  {
    assert parts[0] in parts;
    if |parts| == 1 {
      SplitPlain(parts[0]);
      assert parts == [parts[0]];
    } else {
      assert SlashFree(parts[1..]);
      SplitJoined(parts[1..]);
      SplitHead(parts[0], JoinSlash(parts[1..]));
      assert parts == [parts[0]] + parts[1..];
    }
  }

  lemma {:induction false} SplitPlain(p: string)
    requires '/' !in p
    ensures Split(p) == [p]
  {
    if p != "" {
      assert p == [p[0]] + p[1..];
      SplitPlain(p[1..]);
    }
  }

  lemma {:induction false} SplitHead(p: string, rest: string)
    requires '/' !in p
    ensures Split(p + "/" + rest) == [p] + Split(rest)
  {
    var path := p + "/" + rest;
    if p == "" {
      assert path[1..] == rest;
    } else {
      assert p == [p[0]] + p[1..];
      assert path[1..] == p[1..] + "/" + rest;
      SplitHead(p[1..], rest);
    }
  }

  function Inner(fields: Fields, name: string): Fields {
    if name in fields && fields[name].Object? then fields[name].fields else map[]
  }

  /** Sets a value deep in the data, replacing whatever is in the way by objects. */
  function SetNested(fields: Fields, parts: seq<string>, value: Json): Fields
    requires parts != []
    decreases |parts|
  {
    if |parts| == 1 then fields[parts[0] := value]
    else fields[parts[0] := Object(SetNested(Inner(fields, parts[0]), parts[1..], value))]
  }

  /** A store write: the parent object must already be there. */
  function Put(fields: Fields, parts: seq<string>, value: Json): (r: Option<Fields>)
    requires parts != []
    ensures r.Some? ==> r.value == SetNested(fields, parts, value)
    decreases |parts|
  {
    if |parts| == 1 then Some(fields[parts[0] := value])
    else if parts[0] !in fields || !fields[parts[0]].Object? then None
    else
      var inner := Put(fields[parts[0]].fields, parts[1..], value);
      if inner.None? then None else Some(fields[parts[0] := Object(inner.value)])
  }

  function Lookup(fields: Fields, parts: seq<string>): Option<Json>
    requires parts != []
    decreases |parts|
  {
    if parts[0] !in fields then None
    else if |parts| == 1 then Some(fields[parts[0]])
    else if fields[parts[0]].Object? then Lookup(fields[parts[0]].fields, parts[1..])
    else None
  }

  predicate Apart(p: seq<string>, q: seq<string>) {
    !(p <= q) && !(q <= p)
  }

  lemma ApartTails(p: seq<string>, q: seq<string>)
    requires p != [] && q != [] && Apart(p, q) && p[0] == q[0]
    ensures |p| > 1 && |q| > 1 && Apart(p[1..], q[1..])
  {
    assert p == [p[0]] + p[1..] && q == [q[0]] + q[1..];
  }

  /** What SetNested puts under the first part. */
  function Branch(f: Fields, p: seq<string>, v: Json): Json
    requires p != []
  {
    if |p| == 1 then v else Object(SetNested(Inner(f, p[0]), p[1..], v))
  }

  lemma SetNestedIsUpdate(f: Fields, p: seq<string>, v: Json)
    requires p != []
    ensures SetNested(f, p, v) == f[p[0] := Branch(f, p, v)]
  {
  }

  lemma {:induction false} SetNestedCommutes(f: Fields, p: seq<string>, v: Json, q: seq<string>, w: Json)
    requires p != [] && q != [] && Apart(p, q)
    ensures SetNested(SetNested(f, p, v), q, w) == SetNested(SetNested(f, q, w), p, v)
    decreases |p|
  {
    hide SetNested;
    var fp, fq := SetNested(f, p, v), SetNested(f, q, w);
    SetNestedIsUpdate(f, p, v);
    SetNestedIsUpdate(f, q, w);
    SetNestedIsUpdate(fp, q, w);
    SetNestedIsUpdate(fq, p, v);
    if p[0] == q[0] {
      ApartTails(p, q);
      SetNestedCommutes(Inner(f, p[0]), p[1..], v, q[1..], w);
      SameUpdate(f, p[0], Branch(f, p, v), Branch(f, q, w), Branch(fp, q, w));
    } else {
      assert Inner(fp, q[0]) == Inner(f, q[0]) && Inner(fq, p[0]) == Inner(f, p[0]);
      SwapUpdates(f, p[0], Branch(f, p, v), q[0], Branch(f, q, w));
    }
  }

  lemma SameUpdate(f: Fields, k: string, a: Json, b: Json, c: Json)
    ensures f[k := a][k := c] == f[k := b][k := c]
  {
  }

  lemma SwapUpdates(f: Fields, k: string, a: Json, l: string, b: Json)
    requires k != l
    ensures f[k := a][l := b] == f[l := b][k := a]
  {
  }

  lemma {:induction false} SetNestedOverwrites(f: Fields, p: seq<string>, v: Json, w: Json)
    requires p != []
    ensures SetNested(SetNested(f, p, v), p, w) == SetNested(f, p, w)
    decreases |p|
  {
    if |p| > 1 { SetNestedOverwrites(Inner(f, p[0]), p[1..], v, w); }
  }

  lemma {:induction false} LookupSet(f: Fields, p: seq<string>, v: Json)
    requires p != []
    ensures Lookup(SetNested(f, p, v), p) == Some(v)
    decreases |p|
  {
    if |p| > 1 { LookupSet(Inner(f, p[0]), p[1..], v); }
  }

  /** A write leaves every unrelated path as it was, missing ones included. */
  lemma {:induction false} LookupApart(f: Fields, p: seq<string>, q: seq<string>, w: Json)
    requires p != [] && q != [] && Apart(p, q)
    ensures Lookup(SetNested(f, q, w), p) == Lookup(f, p)
    decreases |p|
  {
    if p[0] == q[0] {
      ApartTails(p, q);
      LookupApart(Inner(f, p[0]), p[1..], q[1..], w);
    }
  }

  /** Every proper prefix of the path is an object. */
  ghost predicate ParentsAreObjects(f: Fields, parts: seq<string>) {
    forall k | 0 < k < |parts| :: Lookup(f, parts[..k]).Some? && Lookup(f, parts[..k]).value.Object?
  }

  lemma ParentsUnfold(f: Fields, parts: seq<string>)
    requires |parts| > 1
    ensures ParentsAreObjects(f, parts) <==>
      parts[0] in f && f[parts[0]].Object? && ParentsAreObjects(f[parts[0]].fields, parts[1..])
  {
    assert forall k | 0 < k < |parts| :: parts[..k][0] == parts[0] && parts[..k][1..] == parts[1..][..k - 1];
    assert Lookup(f, parts[..1]) == if parts[0] in f then Some(f[parts[0]]) else None;
    if parts[0] in f && f[parts[0]].Object? {
      var inner := f[parts[0]].fields;
      assert forall k | 1 < k < |parts| :: Lookup(f, parts[..k]) == Lookup(inner, parts[1..][..k - 1]);
      if ParentsAreObjects(f, parts) {
        forall k | 0 < k < |parts[1..]|
          ensures Lookup(inner, parts[1..][..k]).Some? && Lookup(inner, parts[1..][..k]).value.Object?
        {
          assert parts[1..][..k] == parts[1..][..k + 1 - 1];
          assert Lookup(f, parts[..k + 1]) == Lookup(inner, parts[1..][..k]);
        }
      }
    }
  }

  /** A store write succeeds exactly when its parents are there. */
  lemma {:induction false} PutExactly(f: Fields, parts: seq<string>, value: Json)
    requires parts != []
    ensures Put(f, parts, value).Some? <==> ParentsAreObjects(f, parts)
    decreases |parts|
  {
    if |parts| > 1 {
      ParentsUnfold(f, parts);
      if parts[0] in f && f[parts[0]].Object? { PutExactly(f[parts[0]].fields, parts[1..], value); }
    }
  }

  lemma PutTwo(f: Fields, parent: string, key: string, value: Json)
    requires Put(f, [parent, key], value).Some?
    ensures parent in f && f[parent].Object?
    ensures Put(f, [parent, key], value) == Some(f[parent := Object(f[parent].fields[key := value])])
  {
    assert [parent, key][1..] == [key];
  }

  /** A path reads what its first part holds, and further parts read inside that. */
  lemma LookupMeans(f: Fields, key: string, rest: seq<string>)
    ensures Lookup(f, [key]) == if key in f then Some(f[key]) else None
    ensures rest != [] ==>
      Lookup(f, [key] + rest) == if key in f && f[key].Object? then Lookup(f[key].fields, rest) else None
  {
    assert ([key] + rest)[1..] == rest;
  }

  /** A write among objects neither makes nor breaks the parents of an unrelated path. */
  lemma {:induction false} ParentsKept(f: Fields, p: seq<string>, q: seq<string>, w: Json)
    requires p != [] && q != [] && Apart(p, q) && ParentsAreObjects(f, q)
    ensures ParentsAreObjects(SetNested(f, q, w), p) <==> ParentsAreObjects(f, p)
    decreases |p|
  {
    hide ParentsAreObjects;
    if |p| > 1 {
      ParentsUnfold(f, p);
      ParentsUnfold(SetNested(f, q, w), p);
      if p[0] == q[0] {
        ApartTails(p, q);
        ParentsUnfold(f, q);
        ParentsKept(Inner(f, p[0]), p[1..], q[1..], w);
      }
    } else {
      NoParents(f, p);
      NoParents(SetNested(f, q, w), p);
    }
  }

  lemma NoParents(f: Fields, p: seq<string>)
    requires |p| == 1
    ensures ParentsAreObjects(f, p)
  {
  }

  // ---- laying a set of paths over data ----

  ghost predicate PrefixFree(paths: set<string>) {
    forall p <- paths, q <- paths | p != q :: Apart(Split(p), Split(q))
  }

  /** All of m laid over f, whatever the order. */
  ghost function Laid(f: Fields, m: Fields): Fields
    decreases |m|
  {
    if m == map[] then f else
      var k :| k in m;
      SetNested(Laid(f, m - {k}), Split(k), m[k])
  }

  lemma {:induction false} LaidSplit(f: Fields, m: Fields, k: string)
    requires k in m && PrefixFree(m.Keys)
    ensures Laid(f, m) == SetNested(Laid(f, m - {k}), Split(k), m[k])
    decreases |m|
  {
    hide SetNested, Split, Apart;
    var j :| j in m && Laid(f, m) == SetNested(Laid(f, m - {j}), Split(j), m[j]);
    if j != k {
      LaidSplit(f, m - {j}, k);
      LaidSplit(f, m - {k}, j);
      assert m - {j} - {k} == m - {k} - {j};
      SetNestedCommutes(Laid(f, m - {j} - {k}), Split(k), m[k], Split(j), m[j]);
    }
  }

  lemma LaidWith(f: Fields, m: Fields, k: string, v: Json)
    requires PrefixFree(m.Keys + {k})
    ensures Laid(f, m[k := v]) == SetNested(Laid(f, m), Split(k), v)
  {
    hide SetNested, Split, Apart, Laid;
    assert m[k := v].Keys == m.Keys + {k};
    LaidSplit(f, m[k := v], k);
    if k in m {
      LaidSplit(f, m, k);
      SetNestedOverwrites(Laid(f, m - {k}), Split(k), m[k], v);
      assert m[k := v] - {k} == m - {k};
    } else {
      assert m[k := v] - {k} == m;
    }
  }

  /** What was laid is what reads back. */
  lemma {:induction false} LaidReadsBack(f: Fields, m: Fields, k: string)
    requires k in m && PrefixFree(m.Keys)
    ensures Lookup(Laid(f, m), Split(k)) == Some(m[k])
  {
    hide SetNested, Split, Lookup, Laid;
    LaidSplit(f, m, k);
    LookupSet(Laid(f, m - {k}), Split(k), m[k]);
  }

  /** What was laid over data does not show on unrelated paths. */
  lemma {:induction false} LaidLeavesRest(f: Fields, m: Fields, q: seq<string>)
    requires q != [] && PrefixFree(m.Keys) && forall k <- m :: Apart(q, Split(k))
    ensures Lookup(Laid(f, m), q) == Lookup(f, q)
    decreases |m|
  {
    hide SetNested, Split, Lookup, Apart;
    if m != map[] {
      var k :| k in m && Laid(f, m) == SetNested(Laid(f, m - {k}), Split(k), m[k]);
      LaidLeavesRest(f, m - {k}, q);
      LookupApart(Laid(f, m - {k}), q, Split(k), m[k]);
    }
  }

  /** Laying paths one after the other, each finds its parents exactly if the data below had them. */
  lemma {:induction false} LaidParents(f: Fields, m: Fields, path: string)
    requires path !in m && PrefixFree(m.Keys + {path}) && forall k <- m :: ParentsAreObjects(f, Split(k))
    ensures ParentsAreObjects(Laid(f, m), Split(path)) <==> ParentsAreObjects(f, Split(path))
    decreases |m|
  {
    hide SetNested, Split, Apart, ParentsAreObjects;
    if m != map[] {
      var k :| k in m && Laid(f, m) == SetNested(Laid(f, m - {k}), Split(k), m[k]);
      var rest := m - {k};
      assert rest.Keys == m.Keys - {k};
      assert Apart(Split(path), Split(k));
      PrefixFreeSubset(m.Keys + {path}, rest.Keys + {path});
      PrefixFreeSubset(m.Keys + {path}, rest.Keys + {k});
      hide Laid, PrefixFree;
      LaidParents(f, rest, path);
      LaidParents(f, rest, k);
      ParentsKept(Laid(f, rest), Split(path), Split(k), m[k]);
    }
  }

  // ---- the client's policy state ----

  /** The loaded data, the version guards, and what is re-applied after a bundle swap. */
  datatype State = State(
    data: Option<Fields>, bundleVersion: int,
    dataVersion: map<string, int>, dataValue: Fields, baseline: Fields)

  /** A bundle update, with the data embedded in its bundle if it carries one, or a data update. */
  datatype Frame =
    | Bundle(version: int, content: Option<Fields>, compiles: bool)
    | Data(path: string, version: int, value: Json)

  function VersionOf(s: State, path: string): int {
    if path in s.dataVersion then s.dataVersion[path] else 0
  }

  /** A frame with a version at or below the last applied one is dropped. */
  predicate Stale(s: State, fr: Frame) {
    var last := match fr case Bundle(_, _, _) => s.bundleVersion case Data(path, _, _) => VersionOf(s, path);
    fr.version != 0 && fr.version <= last
  }

  /** Updates without a bundle and without a path change nothing. */
  predicate Ignored(fr: Frame) {
    if fr.Bundle? then fr.content.None? else fr.path == ""
  }

  /** The state after a frame was applied without error. */
  ghost predicate Applied(s: State, fr: Frame, s': State) {
    if Ignored(fr) || Stale(s, fr) then s' == s else
      match fr
      case Bundle(version, content, _) =>
        s' == s.(data := Some(Laid(Laid(content.value, s.baseline), s.dataValue)), bundleVersion := version)
      case Data(path, version, value) =>
        s.data.Some? && s' == s.(data := Some(SetNested(s.data.value, Split(path), value)),
                                 dataVersion := s.dataVersion[path := version],
                                 dataValue := s.dataValue[path := value])
  }

  class PolicyClient {
    var data: Option<Fields>
    var lastBundleVersion: int
    var lastDataVersion: map<string, int>
    var lastDataValue: Fields
    var baselineData: Fields

    ghost function Abs(): State reads this {
      State(data, lastBundleVersion, lastDataVersion, lastDataValue, baselineData)
    }

    constructor ()
      ensures Abs() == State(None, 0, map[], map[], map[])
    {
      data := None;
      lastBundleVersion := 0;
      lastDataVersion := map[];
      lastDataValue := map[];
      baselineData := map[];
    }

    method SeedPolicyData(baseline: Fields)
      modifies this
      ensures Abs() == old(Abs()).(baseline := baseline)
    {
      baselineData := baseline;
    }

    /** Installs a bundle's own data overlaid by policyData, in whatever order the map yields its paths. */
    method LoadBundle(embedded: Fields, compiles: bool, policyData: Fields) returns (ok: bool)
      modifies `data
      ensures ok <==> compiles
      ensures !ok ==> data == old(data)
      ensures ok && PrefixFree(policyData.Keys) ==> data == Some(Laid(embedded, policyData))
      ensures ok ==> data.Some?
    {
      hide SetNested, Split, Apart;
      var tree := embedded;
      var left := policyData.Keys;
      ghost var done: Fields := map[];
      while left != {}
        invariant left <= policyData.Keys && done.Keys == policyData.Keys - left
        invariant forall k <- done :: done[k] == policyData[k]
        invariant PrefixFree(policyData.Keys) ==> tree == Laid(embedded, done)
        invariant data == old(data)
      {
        var path :| path in left;
        left := left - {path};
        if PrefixFree(policyData.Keys) {
          PrefixFreeSubset(policyData.Keys, done.Keys + {path});
          LaidWith(embedded, done, path, policyData[path]);
        }
        tree := SetNested(tree, Split(path), policyData[path]);
        done := done[path := policyData[path]];
      }
      assert done == policyData;
      if !compiles { return false; }
      data := Some(tree);
      return true;
    }

    method SetPolicyData(path: string, value: Json) returns (ok: bool)
      modifies `data
      ensures ok <==> old(data).Some? && ParentsAreObjects(old(data).value, Split(path))
      ensures data == if ok then Some(SetNested(old(data).value, Split(path), value)) else old(data)
      ensures ok && '/' !in path ==> data == Some(old(data).value[path := value])
      ensures ok ==> forall parent, key | '/' !in parent && '/' !in key && path == parent + "/" + key ::
        && parent in old(data).value && old(data).value[parent].Object?
        && data == Some(old(data).value[parent := Object(old(data).value[parent].fields[key := value])])
      ensures ok ==> forall parts | parts != [] && SlashFree(parts) && path == JoinSlash(parts) ::
        Lookup(data.value, parts) == Some(value)
    {
      hide ParentsAreObjects;
      ghost var before := data;
      if data.None? { return false; }
      PutExactly(data.value, Split(path), value);
      var updated := Put(data.value, Split(path), value);
      if updated.None? { return false; }
      data := updated;
      if '/' !in path { SplitPlain(path); }
      forall parent: string, key: string | '/' !in parent && '/' !in key && path == parent + "/" + key
        ensures parent in before.value && before.value[parent].Object?
        ensures data == Some(before.value[parent := Object(before.value[parent].fields[key := value])])
      {
        SplitHead(parent, key);
        SplitPlain(key);
        PutTwo(before.value, parent, key, value);
      }
      forall parts | parts != [] && SlashFree(parts) && path == JoinSlash(parts)
        ensures Lookup(data.value, parts) == Some(value)
      {
        SplitJoined(parts);
        LookupSet(before.value, parts, value);
      }
      return true;
    }

    /**
     * Succeeds exactly on a stale frame, or if the bundle compiles and has the parents of every tracked path. When a
     * tracked path cannot be laid again the new bundle stays live with only some of the tracked values.
     */
    method ApplyPolicyBundle(version: int, content: Option<Fields>, compiles: bool) returns (ok: bool)
      modifies this
      ensures
        var before, fr := old(Abs()), Bundle(version, content, compiles);
        && (Ignored(fr) || Stale(before, fr) ==> ok && Abs() == before)
        && (!Ignored(fr) && !Stale(before, fr) && !compiles ==> !ok && Abs() == before)
        && (!ok ==> Abs() == before.(data := data))
        && (ok && content.Some? && (version == 0 || version > before.bundleVersion) ==> lastBundleVersion == version)
        && (version != 0 && version <= before.bundleVersion ==> ok && Abs() == before)
        && (PrefixFree(before.dataValue.Keys) && PrefixFree(before.baseline.Keys) && !Ignored(fr) ==>
              var ground := Laid(content.value, before.baseline);
              && (ok ==> Applied(before, fr, Abs()))
              && (!Stale(before, fr) && compiles ==>
                    && (ok <==> forall path <- before.dataValue :: ParentsAreObjects(ground, Split(path)))
                    && (!ok ==> PartlyLaid(ground, before.dataValue, data))))
    {
      hide SetNested, Split, Apart, Laid, ParentsAreObjects;
      if content.None? { return true; }
      if version != 0 && version <= lastBundleVersion { return true; }
      var overlays, baseline := lastDataValue, baselineData;
      var loaded := LoadBundle(content.value, compiles, baseline);
      if !loaded { return false; }
      ghost var ground := data.value;
      var left := overlays.Keys;
      ghost var done: Fields := map[];
      NothingLaid(ground);
      while left != {}
        invariant left <= overlays.Keys && done.Keys == overlays.Keys - left
        invariant forall k <- done :: done[k] == overlays[k]
        invariant PrefixFree(overlays.Keys) ==>
          data == Some(Laid(ground, done)) && forall k <- done :: ParentsAreObjects(ground, Split(k))
        invariant Abs() == old(Abs()).(data := data) && data.Some?
      {
        var path :| path in left;
        left := left - {path};
        if PrefixFree(overlays.Keys) {
          PrefixFreeSubset(overlays.Keys, done.Keys + {path});
          LaidWith(ground, done, path, overlays[path]);
          LaidParents(ground, done, path);
        }
        var written := SetPolicyData(path, overlays[path]);
        if !written {
          if PrefixFree(overlays.Keys) { assert PartlyLaid(ground, overlays, data); }
          return false;
        }
        done := done[path := overlays[path]];
      }
      assert done == overlays;
      lastBundleVersion := version;
      return true;
    }

    method ApplyPolicyData(path: string, version: int, value: Json) returns (ok: bool)
      modifies this
      ensures
        var before, fr := old(Abs()), Data(path, version, value);
        && (ok <==> Ignored(fr) || Stale(before, fr)
                    || (before.data.Some? && ParentsAreObjects(before.data.value, Split(path))))
        && (if ok then Applied(before, fr, Abs()) else Abs() == before)
      ensures
        var last := if path in old(lastDataVersion) then old(lastDataVersion)[path] else 0;
        && (path == "" || (version != 0 && version <= last) ==> ok && Abs() == old(Abs()))
        && (ok && path != "" && (version == 0 || version > last) ==>
              && lastDataVersion == old(lastDataVersion)[path := version]
              && lastDataValue == old(lastDataValue)[path := value]
              && data.Some? && Lookup(data.value, Split(path)) == Some(value))
    {
      hide SetNested, Split, ParentsAreObjects;
      if path == "" { return true; }
      var last := if path in lastDataVersion then lastDataVersion[path] else 0;
      if version != 0 && version <= last { return true; }
      var written := SetPolicyData(path, value);
      if !written { return false; }
      LookupSet(old(data).value, Split(path), value);
      lastDataVersion := lastDataVersion[path := version];
      lastDataValue := lastDataValue[path := value];
      return true;
    }
  }

  /** Some but not all of the tracked values lie over the data. */
  ghost predicate PartlyLaid(ground: Fields, tracked: Fields, data: Option<Fields>) {
    exists done: Fields ::
      done.Keys < tracked.Keys && (forall k <- done :: done[k] == tracked[k]) && data == Some(Laid(ground, done))
  }

  lemma NothingLaid(f: Fields)
    ensures Laid(f, map[]) == f
  {
  }

  lemma PrefixFreeSubset(paths: set<string>, some: set<string>)
    requires PrefixFree(paths) && some <= paths
    ensures PrefixFree(some)
  {
    hide Split, Apart;
  }

  // ---- any order, any duplication ----

  /** A frame of version 0 always applies and sets the guard back to 0, whatever was applied before. */
  lemma VersionZeroResets(s: State, fr: Frame, s': State)
    requires fr.version == 0 && !Ignored(fr) && Applied(s, fr, s')
    ensures match fr
      case Bundle(_, content, _) =>
        s'.bundleVersion == 0 && s'.data == Some(Laid(Laid(content.value, s.baseline), s.dataValue))
      case Data(path, _, value) =>
        s'.dataVersion == s.dataVersion[path := 0] && s'.dataValue == s.dataValue[path := value]
    ensures forall next: Frame | !Ignored(next) && next.version > 0
      && (if fr.Bundle? then next.Bundle? else next.Data? && next.path == fr.path) :: !Stale(s', next)
  {
    hide Laid, SetNested, Split;
  }

  /** What the control plane published: the content of a version is fixed. */
  datatype Published = Published(bundles: int -> Fields, values: (string, int) -> Json)

  ghost predicate Genuine(pub: Published, fr: Frame) {
    !Ignored(fr) ==>
      && fr.version > 0
      && match fr
         case Bundle(version, content, _) => content.value == pub.bundles(version)
         case Data(path, version, value) => value == pub.values(path, version)
  }

  /** The highest bundle version among the frames, 0 if there is none. */
  function MaxBundle(frames: seq<Frame>): int {
    if frames == [] then 0 else
      var m, fr := MaxBundle(frames[..|frames| - 1]), frames[|frames| - 1];
      if fr.Bundle? && !Ignored(fr) && fr.version > m then fr.version else m
  }

  function MaxData(frames: seq<Frame>, path: string): int {
    if frames == [] then 0 else
      var m, fr := MaxData(frames[..|frames| - 1], path), frames[|frames| - 1];
      if fr.Data? && !Ignored(fr) && fr.path == path && fr.version > m then fr.version else m
  }

  function DataPaths(frames: seq<Frame>): set<string> {
    set i | 0 <= i < |frames| && frames[i].Data? && !Ignored(frames[i]) :: frames[i].path
  }

  /** The newest value of every path mentioned. */
  ghost function Newest(pub: Published, frames: seq<Frame>): Fields {
    map p | p in DataPaths(frames) :: pub.values(p, MaxData(frames, p))
  }

  ghost function NewestVersions(frames: seq<Frame>): map<string, int> {
    map p | p in DataPaths(frames) :: MaxData(frames, p)
  }

  /** A client that bootstrapped from a bundle over its prefix-free baseline, before any frame. */
  ghost predicate Bootstrapped(s: State, embedded: Fields) {
    && PrefixFree(s.baseline.Keys)
    && s.data == Some(Laid(embedded, s.baseline))
    && s.bundleVersion == 0 && s.dataVersion == map[] && s.dataValue == map[]
  }

  ghost predicate Run(pub: Published, states: seq<State>, frames: seq<Frame>) {
    && |states| == |frames| + 1
    && forall i | 0 <= i < |frames| :: Genuine(pub, frames[i]) && Applied(states[i], frames[i], states[i + 1])
  }

  /** The data that a set of frames calls for, however they were ordered or repeated. */
  ghost function Wanted(pub: Published, embedded: Fields, baseline: Fields, frames: seq<Frame>): Fields {
    var bundle := if MaxBundle(frames) == 0 then embedded else pub.bundles(MaxBundle(frames));
    Laid(Laid(bundle, baseline), Newest(pub, frames))
  }

  lemma {:induction false} FramesConverge(pub: Published, embedded: Fields, states: seq<State>, frames: seq<Frame>)
    requires Run(pub, states, frames) && Bootstrapped(states[0], embedded) && PrefixFree(DataPaths(frames))
    ensures InStep(pub, embedded, states[0].baseline, frames, states[|frames|])
    decreases |frames|
  {
    hide SetNested, Split, Apart, Laid;
    if frames == [] {
      NothingLaid(Laid(embedded, states[0].baseline));
      assert DataPaths(frames) == {};
    } else {
      var front, fr := frames[..|frames| - 1], frames[|frames| - 1];
      assert DataPaths(front) <= DataPaths(frames);
      PrefixFreeSubset(DataPaths(frames), DataPaths(front));
      FramesConverge(pub, embedded, states[..|frames|], front);
      assert frames == front + [fr];
      var s, s' := states[|frames| - 1], states[|frames|];
      if Ignored(fr) {
        IgnoredStep(pub, embedded, states[0].baseline, s, front, fr);
      } else if fr.Bundle? {
        BundleStep(pub, embedded, states[0].baseline, s, s', front, fr);
      } else {
        DataStep(pub, embedded, states[0].baseline, s, s', front, fr);
      }
    }
  }

  /** s is where a run over these frames must be. */
  ghost predicate InStep(pub: Published, embedded: Fields, baseline: Fields, frames: seq<Frame>, s: State) {
    && s.baseline == baseline
    && s.bundleVersion == MaxBundle(frames) && s.dataVersion == NewestVersions(frames)
    && s.dataValue == Newest(pub, frames)
    && s.data == Some(Wanted(pub, embedded, baseline, frames))
  }

  lemma IgnoredStep(pub: Published, embedded: Fields, baseline: Fields, s: State, front: seq<Frame>, fr: Frame)
    requires Ignored(fr) && InStep(pub, embedded, baseline, front, s)
    ensures InStep(pub, embedded, baseline, front + [fr], s)
  {
    hide SetNested, Split, Laid, MaxBundle, MaxData, DataPaths;
    Recount(front, fr);
    assert Newest(pub, front + [fr]) == Newest(pub, front);
    assert NewestVersions(front + [fr]) == NewestVersions(front);
  }

  lemma BundleStep(pub: Published, embedded: Fields, baseline: Fields, s: State, s': State,
                   front: seq<Frame>, fr: Frame)
    requires fr.Bundle? && !Ignored(fr) && Genuine(pub, fr) && Applied(s, fr, s')
    requires InStep(pub, embedded, baseline, front, s)
    ensures InStep(pub, embedded, baseline, front + [fr], s')
  {
    hide SetNested, Split, Laid, MaxBundle, MaxData, DataPaths;
    Recount(front, fr);
    Maxima(front, "");
    assert Newest(pub, front + [fr]) == Newest(pub, front);
    assert NewestVersions(front + [fr]) == NewestVersions(front);
  }

  lemma DataStep(pub: Published, embedded: Fields, baseline: Fields, s: State, s': State, front: seq<Frame>, fr: Frame)
    requires fr.Data? && !Ignored(fr) && Genuine(pub, fr) && Applied(s, fr, s')
    requires InStep(pub, embedded, baseline, front, s)
    requires PrefixFree(DataPaths(front + [fr]))
    ensures InStep(pub, embedded, baseline, front + [fr], s')
  {
    hide SetNested, Split, Apart, Laid, MaxBundle, MaxData, DataPaths;
    var frames, path := front + [fr], fr.path;
    Recount(front, fr);
    MaxDataAbsent(front, path);
    if Stale(s, fr) {
      assert path in DataPaths(front);
      assert DataPaths(frames) == DataPaths(front);
      assert Newest(pub, frames) == Newest(pub, front);
      assert NewestVersions(frames) == NewestVersions(front);
    } else {
      assert Newest(pub, frames) == Newest(pub, front)[path := fr.value];
      assert NewestVersions(frames) == NewestVersions(front)[path := fr.version];
      LaidWith(Laid(if MaxBundle(front) == 0 then embedded else pub.bundles(MaxBundle(front)), baseline),
               Newest(pub, front), path, fr.value);
    }
  }

  lemma Recount(front: seq<Frame>, fr: Frame)
    ensures
      var frames := front + [fr];
      && MaxBundle(frames) == (if fr.Bundle? && !Ignored(fr) && fr.version > MaxBundle(front) then fr.version
                               else MaxBundle(front))
      && (forall p :: MaxData(frames, p) ==
            if fr.Data? && !Ignored(fr) && fr.path == p && fr.version > MaxData(front, p) then fr.version
            else MaxData(front, p))
      && DataPaths(frames) == DataPaths(front) + if fr.Data? && !Ignored(fr) then {fr.path} else {}
  {
    var frames := front + [fr];
    assert frames[..|front|] == front;
    forall p ensures p in DataPaths(frames) <==>
        p in DataPaths(front) || (fr.Data? && !Ignored(fr) && p == fr.path)
    {
      if p in DataPaths(front) {
        var i :| 0 <= i < |front| && front[i].Data? && !Ignored(front[i]) && front[i].path == p;
        assert frames[i] == front[i];
      }
      if fr.Data? && !Ignored(fr) && p == fr.path { assert frames[|front|] == fr; }
    }
  }

  lemma {:induction false} MaxDataAbsent(frames: seq<Frame>, path: string)
    ensures path !in DataPaths(frames) ==> MaxData(frames, path) == 0
    ensures MaxData(frames, path) >= 0
  {
    if frames != [] {
      var front, fr := frames[..|frames| - 1], frames[|frames| - 1];
      assert frames == front + [fr];
      Recount(front, fr);
      MaxDataAbsent(front, path);
    }
  }

  /** After any frames in any order, every tracked path reads back its newest value: no bundle swap reverts it. */
  lemma SwapNeverReverts(pub: Published, embedded: Fields, states: seq<State>, frames: seq<Frame>, path: string)
    requires Run(pub, states, frames) && Bootstrapped(states[0], embedded) && PrefixFree(DataPaths(frames))
    requires path in DataPaths(frames)
    ensures states[|frames|].data.Some?
    ensures Lookup(states[|frames|].data.value, Split(path)) == Some(pub.values(path, MaxData(frames, path)))
  {
    hide SetNested, Split, Lookup, Laid;
    FramesConverge(pub, embedded, states, frames);
    LaidReadsBack(Laid(if MaxBundle(frames) == 0 then embedded else pub.bundles(MaxBundle(frames)), states[0].baseline),
                  Newest(pub, frames), path);
  }

  /** After any frames in any order, seeded data that no frame is about reads back as it was seeded. */
  lemma BaselineSurvives(pub: Published, embedded: Fields, states: seq<State>, frames: seq<Frame>, path: string)
    requires Run(pub, states, frames) && Bootstrapped(states[0], embedded) && PrefixFree(DataPaths(frames))
    requires path in states[0].baseline
    requires forall p <- DataPaths(frames) :: Apart(Split(path), Split(p))
    ensures states[|frames|].data.Some?
    ensures Lookup(states[|frames|].data.value, Split(path)) == Some(states[0].baseline[path])
  {
    hide SetNested, Split, Lookup, Laid, Apart;
    FramesConverge(pub, embedded, states, frames);
    var bundle := if MaxBundle(frames) == 0 then embedded else pub.bundles(MaxBundle(frames));
    var baseline := states[0].baseline;
    LaidReadsBack(bundle, baseline, path);
    LaidLeavesRest(Laid(bundle, baseline), Newest(pub, frames), Split(path));
  }

  /** Two runs over the same frames, reordered and repeated at will, end in the same data. */
  lemma OrderDoesNotMatter(pub: Published, embedded: Fields,
                           a: seq<State>, fa: seq<Frame>, b: seq<State>, fb: seq<Frame>)
    requires Run(pub, a, fa) && Run(pub, b, fb) && Bootstrapped(a[0], embedded) && a[0] == b[0]
    requires PrefixFree(DataPaths(fa)) && (forall fr :: fr in fa <==> fr in fb)
    ensures a[|fa|] == b[|fb|]
  {
    hide SetNested, Split, Apart, Laid, MaxBundle, MaxData;
    SameMaxima(fa, fb);
    FramesConverge(pub, embedded, a, fa);
    FramesConverge(pub, embedded, b, fb);
    assert Newest(pub, fa) == Newest(pub, fb) && NewestVersions(fa) == NewestVersions(fb);
  }

  lemma SameMaxima(fa: seq<Frame>, fb: seq<Frame>)
    requires forall fr :: fr in fa <==> fr in fb
    ensures DataPaths(fa) == DataPaths(fb) && MaxBundle(fa) == MaxBundle(fb)
    ensures forall p :: MaxData(fa, p) == MaxData(fb, p)
  {
    hide MaxBundle, MaxData;
    forall p ensures p in DataPaths(fa) <==> p in DataPaths(fb) {
      if p in DataPaths(fa) {
        var i :| 0 <= i < |fa| && fa[i].Data? && !Ignored(fa[i]) && fa[i].path == p;
        assert fa[i] in fb;
      }
      if p in DataPaths(fb) {
        var i :| 0 <= i < |fb| && fb[i].Data? && !Ignored(fb[i]) && fb[i].path == p;
        assert fb[i] in fa;
      }
    }
    Maxima(fa, "");
    Maxima(fb, "");
    forall p ensures MaxData(fa, p) == MaxData(fb, p) {
      Maxima(fa, p);
      Maxima(fb, p);
    }
  }

  lemma {:induction false} Maxima(frames: seq<Frame>, path: string)
    ensures forall fr <- frames :: fr.Bundle? && !Ignored(fr) ==> fr.version <= MaxBundle(frames)
    ensures MaxBundle(frames) == 0
      || exists fr <- frames :: fr.Bundle? && !Ignored(fr) && fr.version == MaxBundle(frames)
    ensures forall fr <- frames :: fr.Data? && !Ignored(fr) && fr.path == path ==> fr.version <= MaxData(frames, path)
    ensures MaxData(frames, path) == 0
      || exists fr <- frames :: fr.Data? && !Ignored(fr) && fr.path == path && fr.version == MaxData(frames, path)
    ensures MaxBundle(frames) >= 0 && MaxData(frames, path) >= 0
  {
    if frames != [] {
      var front, fr := frames[..|frames| - 1], frames[|frames| - 1];
      assert frames == front + [fr];
      Maxima(front, path);
      assert forall x :: x in frames <==> x in front || x == fr;
    }
  }
}
