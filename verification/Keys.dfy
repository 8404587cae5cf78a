/** The concatenated string keys of the tuple indexes, and when they identify what they are built from. */
module Keys {
  import opened AuthModel

  function ObjectRelationKey(objectType: string, objectID: string, relation: string): string {
    objectType + ":" + objectID + "#" + relation
  }

  function SlotKey(t: Tuple): string {
    ObjectRelationKey(t.objectType, t.objectID, t.relation)
  }

  function SubjectKey(t: Tuple): string {
    t.userType + ":" + t.userID
  }

  function TupleKey(t: Tuple): string {
    SlotKey(t) + "@" + SubjectKey(t) + "#" + t.userRelation
  }

  /** Components that keep the separators readable: the first `:`, `#` and `@` end their field. */
  predicate ObjectPartClean(t: Tuple) {
    ':' !in t.objectType && '#' !in t.objectID
  }

  predicate SubjectPartClean(t: Tuple) {
    ':' !in t.userType && '#' !in t.userID
  }

  predicate WellFormed(t: Tuple) {
    ObjectPartClean(t) && SubjectPartClean(t) && '@' !in t.relation
  }

  ghost predicate AllWellFormed(ts: set<Tuple>) {
    forall t <- ts :: WellFormed(t)
  }

  /** Two tuples that compete for one entry of the primary index. */
  predicate SameSlot(a: Tuple, b: Tuple) {
    SlotKey(a) == SlotKey(b) && TupleKey(a) == TupleKey(b)
  }

  lemma {:induction false} SplitAtFirst(c: char, a: string, x: string, b: string, y: string)
    requires c !in a && c !in b
    requires a + [c] + x == b + [c] + y
    ensures a == b && x == y
  {
    var l, r := a + [c] + x, b + [c] + y;
    assert l[|a|] == c && r[|b|] == c;
    assert forall i :: 0 <= i < |a| ==> l[i] == a[i];
    assert forall i :: 0 <= i < |b| ==> r[i] == b[i];
    assert |a| == |b|;
    assert a == l[..|a|] == r[..|b|] == b;
    assert x == l[|a| + 1..] == r[|b| + 1..] == y;
  }

  /** The text before the first c, the text after it, and whether there is one. */
  function CutAt(s: string, c: char): (r: (string, string, bool))
    ensures c !in r.0
    ensures if r.2 then s == r.0 + [c] + r.1 else s == r.0 && r.1 == ""
  {
    if s == "" then ("", "", false)
    else if s[0] == c then ("", s[1..], true)
    else
      var rest := CutAt(s[1..], c);
      ([s[0]] + rest.0, rest.1, rest.2)
  }

  lemma CutAtJoined(a: string, c: char, b: string)
    requires c !in a
    ensures CutAt(a + [c] + b, c) == (a, b, true)
  {
    var s := a + [c] + b;
    var r := CutAt(s, c);
    assert s[|a|] == c && c in s;
    SplitAtFirst(c, a, b, r.0, r.1);
  }

  /** The parts of a user key spell it, cut at its first `:` and the first `#` after that. */
  lemma UserKeyParts(key: string)
    ensures
      var (userType, userID, userRelation) := ParseUserKey(key);
      if ':' !in key then userType == key && userID == "" && userRelation == ""
      else
        && ':' !in userType && '#' !in userID
        && (|| (userRelation == "" && key == userType + ":" + userID)
            || key == userType + ":" + userID + "#" + userRelation)
  {
  }

  /** The parts of an object key spell it, cut at its first `:`; the ID may hold anything. */
  lemma ObjectKeyParts(key: string)
    ensures
      var (objectType, objectID) := ParseObjectKey(key);
      if ':' !in key then objectType == key && objectID == ""
      else ':' !in objectType && key == objectType + ":" + objectID
  {
  }

  lemma CutAtAbsent(a: string, c: char)
    requires c !in a
    ensures CutAt(a, c) == (a, "", false)
  {
  }

  /** One object-relation key names one object and relation. */
  lemma ObjectRelationKeyInjective(ot1: string, id1: string, r1: string, ot2: string, id2: string, r2: string)
    requires ':' !in ot1 && ':' !in ot2 && '#' !in id1 && '#' !in id2
    requires ObjectRelationKey(ot1, id1, r1) == ObjectRelationKey(ot2, id2, r2)
    ensures ot1 == ot2 && id1 == id2 && r1 == r2
  {
    assert ObjectRelationKey(ot1, id1, r1) == ot1 + [':'] + (id1 + ['#'] + r1);
    assert ObjectRelationKey(ot2, id2, r2) == ot2 + [':'] + (id2 + ['#'] + r2);
    SplitAtFirst(':', ot1, id1 + ['#'] + r1, ot2, id2 + ['#'] + r2);
    SplitAtFirst('#', id1, r1, id2, r2);
  }

  /** Without a second `#` the key has one reading. */
  lemma OnlySplit(ot1: string, id1: string, r1: string, ot2: string, id2: string, r2: string)
    requires ':' !in ot1 && ':' !in ot2 && '#' !in id2 && '#' !in r2
    requires ObjectRelationKey(ot1, id1, r1) == ObjectRelationKey(ot2, id2, r2)
    ensures ot1 == ot2 && id1 == id2 && r1 == r2
  {
    var rest1, rest2 := id1 + ['#'] + r1, id2 + ['#'] + r2;
    assert ObjectRelationKey(ot1, id1, r1) == ot1 + [':'] + rest1;
    assert ObjectRelationKey(ot2, id2, r2) == ot2 + [':'] + rest2;
    SplitAtFirst(':', ot1, rest1, ot2, rest2);
    assert rest1[|id1|] == '#';
    assert forall k | 0 <= k < |rest2| && k != |id2| :: rest2[k] != '#';
    assert id1 == rest1[..|id1|] == rest2[..|id2|] == id2;
    assert r1 == rest1[|id1| + 1..] == rest2[|id2| + 1..] == r2;
  }

  /** A text splits at a second `#` exactly when there is one. */
  lemma OtherSplit(id: string, r: string) returns (id': string, r': string)
    requires '#' in id || '#' in r
    ensures id + "#" + r == id' + "#" + r' && id != id'
  {
    if '#' in id {
      var k :| 0 <= k < |id| && id[k] == '#';
      id', r' := id[..k], id[k + 1..] + "#" + r;
      assert id == id[..k] + "#" + id[k + 1..];
    } else {
      var k :| 0 <= k < |r| && r[k] == '#';
      id', r' := id + "#" + r[..k], r[k + 1..];
      assert r == r[..k] + "#" + r[k + 1..];
    }
  }

  lemma SharedKey(u: Tuple, ot: string, id: string, r: string)
    requires u.objectType == ot && u.objectID + "#" + u.relation == id + "#" + r
    ensures SlotKey(u) == ObjectRelationKey(ot, id, r)
  {
    assert SlotKey(u) == ot + ":" + (u.objectID + "#" + u.relation);
    assert ObjectRelationKey(ot, id, r) == ot + ":" + (id + "#" + r);
  }

  /** A text of the given length, free of separators. */
  function Repeat(n: nat): string {
    seq(n, i => 'u')
  }

  /** On well-formed tuples the full key identifies the tuple. */
  lemma TupleKeyInjective(a: Tuple, b: Tuple)
    requires WellFormed(a) && WellFormed(b) && TupleKey(a) == TupleKey(b)
    ensures a == b
  {
    var ra := a.userType + [':'] + (a.userID + ['#'] + a.userRelation);
    var rb := b.userType + [':'] + (b.userID + ['#'] + b.userRelation);
    assert TupleKey(a) == a.objectType + [':'] + (a.objectID + ['#'] + (a.relation + ['@'] + ra));
    assert TupleKey(b) == b.objectType + [':'] + (b.objectID + ['#'] + (b.relation + ['@'] + rb));
    SplitAtFirst(':', a.objectType, a.objectID + ['#'] + (a.relation + ['@'] + ra),
                 b.objectType, b.objectID + ['#'] + (b.relation + ['@'] + rb));
    SplitAtFirst('#', a.objectID, a.relation + ['@'] + ra, b.objectID, b.relation + ['@'] + rb);
    SplitAtFirst('@', a.relation, ra, b.relation, rb);
    SplitAtFirst(':', a.userType, a.userID + ['#'] + a.userRelation, b.userType, b.userID + ['#'] + b.userRelation);
    SplitAtFirst('#', a.userID, a.userRelation, b.userID, b.userRelation);
  }

  /** One slot belongs to one subject when subjects are clean, whatever the object and relation. */
  lemma SameSubject(a: Tuple, b: Tuple)
    requires SubjectPartClean(a) && SubjectPartClean(b) && SameSlot(a, b)
    ensures a.userType == b.userType && a.userID == b.userID && a.userRelation == b.userRelation
  {
    var n := |SlotKey(a)| + 1;
    var ra := a.userType + [':'] + (a.userID + ['#'] + a.userRelation);
    var rb := b.userType + [':'] + (b.userID + ['#'] + b.userRelation);
    assert TupleKey(a) == SlotKey(a) + ['@'] + ra && TupleKey(b) == SlotKey(b) + ['@'] + rb;
    assert ra == TupleKey(a)[n..] == TupleKey(b)[n..] == rb;
    SplitAtFirst(':', a.userType, a.userID + ['#'] + a.userRelation, b.userType, b.userID + ['#'] + b.userRelation);
    SplitAtFirst('#', a.userID, a.userRelation, b.userID, b.userRelation);
  }

  /** Within one bucket the relation's text is irrelevant: only the four delimited components must be clean. */
  lemma SlotInjective(a: Tuple, b: Tuple)
    requires ObjectPartClean(a) && ObjectPartClean(b) && SubjectPartClean(a) && SubjectPartClean(b)
    requires SameSlot(a, b)
    ensures a == b
  {
    ObjectRelationKeyInjective(a.objectType, a.objectID, a.relation, b.objectType, b.objectID, b.relation);
    SameSubject(a, b);
  }

  /** The keys are not injective in general: two objects share one bucket, and two subjects one entry. */
  lemma KeysCollide()
    ensures exists a: Tuple, b: Tuple :: a != b && SlotKey(a) == SlotKey(b) && a.objectID != b.objectID
    ensures exists a: Tuple, b: Tuple :: a != b && SameSlot(a, b)
  {
    var a := Tuple("doc", "x#y", "owner", "user", "u", "");
    var b := Tuple("doc", "x", "y#owner", "user", "u", "");
    assert SlotKey(a) == "doc:x#y#owner" == SlotKey(b);
    assert a != b && a.objectID != b.objectID;
    assert a != b && SameSlot(a, b);
  }

  // ---- keys in their text form ----

  function ParseUserKey(key: string): (string, string, string) {
    var (userType, rest, hasID) := CutAt(key, ':');
    if !hasID then (key, "", "") else
      var (userID, userRelation, _) := CutAt(rest, '#');
      (userType, userID, userRelation)
  }

  function ParseObjectKey(key: string): (string, string) {
    var (objectType, objectID, hasID) := CutAt(key, ':');
    if !hasID then (key, "") else (objectType, objectID)
  }

  function TupleOf(user: string, relation: string, target: string): (t: Tuple)
    ensures SubjectPartClean(t) && ':' !in t.objectType
  {
    var (userType, userID, userRelation) := ParseUserKey(user);
    var (objectType, objectID) := ParseObjectKey(target);
    Tuple(objectType, objectID, relation, userType, userID, userRelation)
  }

  /** Printing a tuple's user and object and parsing them back gives the tuple, whatever its user relation. */
  lemma KeysRoundTrip(t: Tuple)
    requires ':' !in t.userType && '#' !in t.userID && ':' !in t.objectType
    ensures TupleOf(UserKey(t), t.relation, t.objectType + ":" + t.objectID) == t
  {
    CutAtJoined(t.objectType, ':', t.objectID);
    if t.userRelation == "" {
      assert UserKey(t) == t.userType + [':'] + t.userID;
      CutAtJoined(t.userType, ':', t.userID);
      CutAtAbsent(t.userID, '#');
    } else {
      assert UserKey(t) == t.userType + [':'] + (t.userID + ['#'] + t.userRelation);
      CutAtJoined(t.userType, ':', t.userID + ['#'] + t.userRelation);
      CutAtJoined(t.userID, '#', t.userRelation);
    }
  }

  /** The tuples the engine's text operations can name: subject keys parse cleanly, object types have no `:`. */
  ghost predicate Parsed(t: Tuple) {
    SubjectPartClean(t) && ':' !in t.objectType
  }

  lemma ParsedExactly(t: Tuple)
    ensures Parsed(t) <==> exists user, relation, target :: TupleOf(user, relation, target) == t
  {
    if Parsed(t) { KeysRoundTrip(t); }
  }
}
