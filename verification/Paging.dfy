/** Keyset pages and their cursors (zanzibar/store/store.go, ReadPage in zanzibar/store/memory.go). */
module Paging {
  import opened AuthModel
  import opened Keys
  import opened Ordering

  const MAX_PAGE := 500
  const MAX_CURSOR := 4096
  const CURSOR_VERSION := 1

  datatype PageError = InvalidLimit | InvalidCursor

  datatype Page = Page(tuples: seq<Tuple>, next: string)

  /** The JSON/base64 envelope of a cursor and the scope hash, as given functions. */
  datatype Codec = Codec(
    seal: (int, string, Tuple) -> string,
    unseal: string -> Option<(int, string, Tuple)>,
    digest: string -> string)

  ghost predicate Faithful(c: Codec) {
    forall v, s, t :: c.seal(v, s, t) != "" && c.unseal(c.seal(v, s, t)) == Some((v, s, t))
  }

  function JoinNul(parts: seq<string>): string {
    if parts == [] then "" else if |parts| == 1 then parts[0] else parts[0] + "\0" + JoinNul(parts[1..])
  }

  function ScopeParts(tenantScope: string, f: TupleFilter): seq<string> {
    [tenantScope, f.objectType, f.objectID, f.relation, f.userType, f.userID, f.userRelation]
  }

  function PageScope(c: Codec, tenantScope: string, f: TupleFilter): string {
    c.digest(JoinNul(ScopeParts(tenantScope, f)))
  }

  function ExcludingScope(tenantScope: string, userType: string, userID: string): string {
    tenantScope + "\0exclude-subject\0" + userType + "\0" + userID
  }

  function EncodeCursor(c: Codec, tenantScope: string, f: TupleFilter, t: Tuple): Result<string, PageError> {
    if Matches(t, f) then Ok(c.seal(CURSOR_VERSION, PageScope(c, tenantScope, f), t)) else Err(InvalidCursor)
  }

  function DecodeCursor(c: Codec, cursor: string, tenantScope: string, f: TupleFilter): Result<Tuple, PageError> {
    if cursor == "" || |cursor| > MAX_CURSOR then Err(InvalidCursor)
    else match c.unseal(cursor)
      case None => Err(InvalidCursor)
      case Some((version, scope, t)) =>
        if version != CURSOR_VERSION || scope != PageScope(c, tenantScope, f) || !Matches(t, f)
        then Err(InvalidCursor) else Ok(t)
  }

  /** A cursor opens exactly if it is short, of version 1 and of this scope, and its key matches the filter. */
  lemma DecodesExactly(c: Codec, cursor: string, tenantScope: string, f: TupleFilter, t: Tuple)
    ensures DecodeCursor(c, cursor, tenantScope, f) == Ok(t) <==>
      && 0 < |cursor| <= 4096 && Matches(t, f)
      && c.unseal(cursor) == Some((1, c.digest(JoinNul(
           [tenantScope, f.objectType, f.objectID, f.relation, f.userType, f.userID, f.userRelation])), t))
  {
    hide JoinNul, Matches;
  }

  predicate LimitOk(limit: int) {
    1 <= limit <= MAX_PAGE
  }

  /** The page that a sorted listing of the matching rows calls for. */
  ghost function PageOf(c: Codec, tenantScope: string, f: TupleFilter, rows: seq<Tuple>, cursor: string, limit: int)
    : Result<Page, PageError>
  {
    if !LimitOk(limit) then Err(InvalidLimit)
    else if cursor != "" && DecodeCursor(c, cursor, tenantScope, f).Err? then Err(InvalidCursor)
    else
      var left := Remaining(c, tenantScope, f, rows, cursor);
      if |left| <= limit then Ok(Page(left, ""))
      else Ok(Page(left[..limit], c.seal(CURSOR_VERSION, PageScope(c, tenantScope, f), left[limit - 1])))
  }

  /** The rows a cursor leaves to be read; none if the cursor is refused. */
  ghost function Remaining(c: Codec, tenantScope: string, f: TupleFilter, rows: seq<Tuple>, cursor: string)
    : seq<Tuple>
  {
    if cursor == "" then rows else
      match DecodeCursor(c, cursor, tenantScope, f)
      case Ok(a) => After(rows, a)
      case Err(_) => []
  }

  ghost predicate MatchingRows(rows: seq<Tuple>, f: TupleFilter) {
    Sorted(rows) && forall i | 0 <= i < |rows| :: Matches(rows[i], f)
  }

  lemma AfterAfter(rows: seq<Tuple>, a: Tuple, x: Tuple)
    requires Sorted(rows) && TupleLess(a, x)
    ensures After(After(rows, a), x) == After(rows, x)
  {
    hide TupleLess, Passed;
    var p, q := Passed(rows, a), Passed(rows, x);
    if q < |rows| { LessTransitive(a, x, rows[q]); }
    assert p <= q;
    var s := rows[p..];
    assert forall i | 0 <= i < |s| :: s[i] == rows[p + i];
    PassedIs(s, x, q - p);
  }

  lemma PassedIs(s: seq<Tuple>, a: Tuple, p: nat)
    requires p <= |s| && (forall i | 0 <= i < p :: !TupleLess(a, s[i])) && (p < |s| ==> TupleLess(a, s[p]))
    ensures Passed(s, a) == p
  {
    hide TupleLess, Passed;
  }

  lemma LessTransitive(a: Tuple, b: Tuple, c: Tuple)
    requires TupleLess(a, b) && TupleLess(b, c)
    ensures TupleLess(a, c)
  {
    TupleLessIsTotalOrder();
  }

  lemma AfterOfMatching(rows: seq<Tuple>, f: TupleFilter, a: Tuple, n: nat)
    requires MatchingRows(rows, f) && 0 < n <= |After(rows, a)|
    ensures MatchingRows(After(rows, a), f)
    ensures After(After(rows, a), After(rows, a)[n - 1]) == After(rows, After(rows, a)[n - 1])
  {
    hide TupleLess, Matches, Passed;
    AfterIsRest(rows, a);
    var p, left := Passed(rows, a), After(rows, a);
    assert forall i | 0 <= i < |left| :: left[i] == rows[p + i];
    assert TupleLess(a, left[n - 1]) by {
      if n > 1 { LessNotMore(a, left[0], left[n - 1]); }
    }
    AfterAfter(rows, a, left[n - 1]);
  }

  /** The cursor a page hands out either is too long to be taken back or resumes strictly after the page. */
  lemma NextCursorResumes(c: Codec, tenantScope: string, f: TupleFilter, rows: seq<Tuple>, cursor: string, limit: int)
    requires Faithful(c) && MatchingRows(rows, f) && LimitOk(limit)
    requires cursor == "" || DecodeCursor(c, cursor, tenantScope, f).Ok?
    requires |Remaining(c, tenantScope, f, rows, cursor)| > limit
    ensures
      var left := Remaining(c, tenantScope, f, rows, cursor);
      var next := c.seal(CURSOR_VERSION, PageScope(c, tenantScope, f), left[limit - 1]);
      && MatchingRows(left, f)
      && next != ""
      && (DecodeCursor(c, next, tenantScope, f).Ok? <==> |next| <= MAX_CURSOR)
      && (|next| <= MAX_CURSOR ==> Remaining(c, tenantScope, f, rows, next) == After(left, left[limit - 1]))
      && |After(left, left[limit - 1])| <= |left| - limit
  {
    hide TupleLess, Matches, PageScope, After;
    var left := Remaining(c, tenantScope, f, rows, cursor);
    if cursor != "" { AfterOfMatching(rows, f, DecodeCursor(c, cursor, tenantScope, f).value, limit); }
    SplitAt(left, limit);
    var next := c.seal(CURSOR_VERSION, PageScope(c, tenantScope, f), left[limit - 1]);
    assert c.unseal(next) == Some((CURSOR_VERSION, PageScope(c, tenantScope, f), left[limit - 1]));
  }

  /** Everything read by following cursors from cursor until none is handed out. */
  ghost function Walk(c: Codec, tenantScope: string, f: TupleFilter, rows: seq<Tuple>, cursor: string, limit: int)
    : Result<seq<Tuple>, PageError>
    requires Faithful(c) && MatchingRows(rows, f)
    decreases |Remaining(c, tenantScope, f, rows, cursor)|
  {
    match PageOf(c, tenantScope, f, rows, cursor, limit)
    case Err(e) => Err(e)
    case Ok(Page(tuples, next)) =>
      if next == "" then Ok(tuples) else
        NextCursorResumes(c, tenantScope, f, rows, cursor, limit);
        match Walk(c, tenantScope, f, rows, next, limit)
        case Err(e) => Err(e)
        case Ok(more) => Ok(tuples + more)
  }

  /** Every page boundary of s has a cursor short enough to be taken back. */
  ghost predicate BoundariesFit(c: Codec, scope: string, s: seq<Tuple>, limit: int)
    requires LimitOk(limit) && Sorted(s)
    decreases |s|
  {
    |s| <= limit ||
    (&& |c.seal(CURSOR_VERSION, scope, s[limit - 1])| <= MAX_CURSOR
     && (SplitAt(s, limit); AfterIsRest(s, s[limit - 1]);
         BoundariesFit(c, scope, After(s, s[limit - 1]), limit)))
  }

  /** The rows of s that following cursors gets to before one is refused. */
  ghost function Readable(c: Codec, scope: string, s: seq<Tuple>, limit: int): seq<Tuple>
    requires LimitOk(limit) && Sorted(s)
    decreases |s|
  {
    if |s| <= limit then s
    else if |c.seal(CURSOR_VERSION, scope, s[limit - 1])| > MAX_CURSOR then s[..limit]
    else
      SplitAt(s, limit);
      AfterIsRest(s, s[limit - 1]);
      s[..limit] + Readable(c, scope, After(s, s[limit - 1]), limit)
  }

  /** Distinct rows are read in order without a gap; all rows are read if every boundary cursor fits. */
  lemma {:induction false} ReadableRows(c: Codec, scope: string, s: seq<Tuple>, limit: int)
    requires LimitOk(limit) && Sorted(s)
    ensures
      var read := Readable(c, scope, s, limit);
      && Sorted(read) && (forall t <- read :: t in s)
      && (Increasing(s) ==> read <= s)
      && (BoundariesFit(c, scope, s, limit) ==> forall t <- s :: t in read)
      && (BoundariesFit(c, scope, s, limit) && Increasing(s) ==> read == s)
    decreases |s|
  {
    hide TupleLess, Sorted, Increasing, After;
    if |s| > limit {
      SplitAt(s, limit);
      AfterIsRest(s, s[limit - 1]);
      TakeSorted(s, limit);
      var rest := After(s, s[limit - 1]);
      ReadableRows(c, scope, rest, limit);
      if |c.seal(CURSOR_VERSION, scope, s[limit - 1])| <= MAX_CURSOR {
        JoinSorted(s[..limit], Readable(c, scope, rest, limit));
      }
    }
  }

  /**
   * Following cursors from the start terminates; it fails exactly when some boundary cursor is too long, and
   * otherwise yields the rows in order: every row, and each exactly once when the rows are distinct.
   */
  lemma {:induction false} WalkReadsEverythingOnce(c: Codec, tenantScope: string, f: TupleFilter,
                                                   rows: seq<Tuple>, limit: int)
    requires Faithful(c) && MatchingRows(rows, f) && LimitOk(limit)
    ensures
      var all := Walk(c, tenantScope, f, rows, "", limit);
      && (all.Ok? <==> BoundariesFit(c, PageScope(c, tenantScope, f), rows, limit))
      && (all.Err? ==> all.error == InvalidCursor)
      && (all.Ok? ==> Sorted(all.value) && forall t :: t in all.value <==> t in rows)
      && (all.Ok? && Increasing(rows) ==> all.value == rows)
  {
    hide Walk, Readable, BoundariesFit, Sorted, Increasing;
    WalkFrom(c, tenantScope, f, rows, "", limit);
    ReadableRows(c, PageScope(c, tenantScope, f), rows, limit);
  }

  lemma {:induction false} WalkFrom(c: Codec, tenantScope: string, f: TupleFilter,
                                    rows: seq<Tuple>, cursor: string, limit: int)
    requires Faithful(c) && MatchingRows(rows, f) && LimitOk(limit)
    requires cursor == "" || DecodeCursor(c, cursor, tenantScope, f).Ok?
    ensures
      var left, scope := Remaining(c, tenantScope, f, rows, cursor), PageScope(c, tenantScope, f);
      && Sorted(left)
      && Walk(c, tenantScope, f, rows, cursor, limit) ==
         if BoundariesFit(c, scope, left, limit) then Ok(Readable(c, scope, left, limit)) else Err(InvalidCursor)
    decreases |Remaining(c, tenantScope, f, rows, cursor)|
  {
    hide TupleLess, PageScope, DecodeCursor, After, Sorted, Increasing, Matches;
    var left := Remaining(c, tenantScope, f, rows, cursor);
    if cursor != "" { AfterIsRest(rows, DecodeCursor(c, cursor, tenantScope, f).value); }
    if |left| > limit {
      NextCursorResumes(c, tenantScope, f, rows, cursor, limit);
      SplitAt(left, limit);
      AfterIsRest(left, left[limit - 1]);
      var next := c.seal(CURSOR_VERSION, PageScope(c, tenantScope, f), left[limit - 1]);
      if |next| <= MAX_CURSOR { WalkFrom(c, tenantScope, f, rows, next, limit); }
    }
  }

  /** Any envelope at least as long as the ID it carries: one long ID before the last page ends every scan. */
  lemma LongIDStopsWalk(c: Codec, tenantScope: string, f: TupleFilter, rows: seq<Tuple>, limit: int)
    requires Faithful(c) && MatchingRows(rows, f) && LimitOk(limit)
    requires forall v, s, t :: |c.seal(v, s, t)| >= |t.objectID|
    requires |rows| > limit && |rows[limit - 1].objectID| > 4096
    ensures Walk(c, tenantScope, f, rows, "", limit) == Err(InvalidCursor)
  {
    hide Walk;
    WalkFrom(c, tenantScope, f, rows, "", limit);
    assert |c.seal(CURSOR_VERSION, PageScope(c, tenantScope, f), rows[limit - 1])| > MAX_CURSOR;
  }

  lemma TakeSorted(s: seq<Tuple>, n: nat)
    requires Sorted(s) && n <= |s|
    ensures Sorted(s[..n])
  {
    hide TupleLess;
  }

  lemma JoinSorted(a: seq<Tuple>, b: seq<Tuple>)
    requires Sorted(a) && Sorted(b) && forall t, u | t in a && u in b :: TupleLess(t, u)
    ensures Sorted(a + b)
  {
    hide TupleLess;
    var s := a + b;
    forall i, j | 0 <= i < j < |s| ensures !TupleLess(s[j], s[i]) {
      if i < |a| && j >= |a| {
        assert s[i] in a && s[j] in b;
        LessAsymmetric(s[i], s[j]);
      }
    }
  }

  // ---- cursors are bound to their scope and filter ----

  ghost predicate NulFree(parts: seq<string>) {
    forall p <- parts :: '\0' !in p
  }

  lemma {:induction false} JoinNulInjective(a: seq<string>, b: seq<string>)
    requires a != [] && b != [] && NulFree(a) && NulFree(b) && JoinNul(a) == JoinNul(b)
    ensures a == b
    decreases |a|
  {
    assert a == [a[0]] + a[1..] && b == [b[0]] + b[1..];
    assert a[0] in a && b[0] in b;
    if |a| > 1 { assert JoinNul(a)[|a[0]|] == '\0'; assert '\0' in JoinNul(a); }
    if |b| > 1 { assert JoinNul(b)[|b[0]|] == '\0'; assert '\0' in JoinNul(b); }
    if |a| > 1 && |b| > 1 {
      SplitAtFirst('\0', a[0], JoinNul(a[1..]), b[0], JoinNul(b[1..]));
      JoinNulInjective(a[1..], b[1..]);
    }
  }

  lemma JoinNulCons(head: string, tail: seq<string>)
    requires tail != []
    ensures JoinNul([head] + tail) == head + "\0" + JoinNul(tail)
  {
    assert ([head] + tail)[1..] == tail;
  }

  /** A cursor opens only under the tenant scope and filter it was made for, and yields the key it was made from. */
  lemma CursorIsBound(c: Codec, scope: string, f: TupleFilter, t: Tuple, scope': string, f': TupleFilter)
    requires Faithful(c) && (forall x, y :: c.digest(x) == c.digest(y) ==> x == y)
    requires NulFree(ScopeParts(scope, f)) && NulFree(ScopeParts(scope', f')) && Matches(t, f)
    ensures
      var got := DecodeCursor(c, EncodeCursor(c, scope, f, t).value, scope', f');
      got.Ok? ==> got.value == t && scope == scope' && f == f'
  {
    var key := c.seal(CURSOR_VERSION, PageScope(c, scope, f), t);
    assert c.unseal(key) == Some((CURSOR_VERSION, PageScope(c, scope, f), t));
    if DecodeCursor(c, key, scope', f').Ok? {
      var a, b := ScopeParts(scope, f), ScopeParts(scope', f');
      JoinNulInjective(a, b);
      assert a[0] == b[0] && a[1] == b[1] && a[2] == b[2] && a[3] == b[3];
      assert a[4] == b[4] && a[5] == b[5] && a[6] == b[6];
    }
  }

  lemma NulAssociates(a: string, b: string, c: string)
    ensures (a + "\0" + b) + "\0" + c == a + "\0" + (b + "\0" + c)
  {
  }

  lemma {:induction false} JoinNulAppend(xs: seq<string>, ys: seq<string>)
    requires xs != [] && ys != []
    ensures JoinNul(xs + ys) == JoinNul(xs) + "\0" + JoinNul(ys)
    decreases |xs|, 0
  {
    var head, rest := xs[0], xs[1..];
    assert xs == [head] + rest;
    if |xs| == 1 {
      JoinNulCons(head, ys);
    } else {
      assert xs + ys == [head] + (rest + ys);
      JoinNulStep(head, rest, ys);
    }
  }

  lemma JoinNulStep(head: string, rest: seq<string>, ys: seq<string>)
    requires rest != [] && ys != []
    ensures JoinNul([head] + (rest + ys)) == JoinNul([head] + rest) + "\0" + JoinNul(ys)
    decreases |rest|, 1
  {
    hide JoinNul;
    JoinNulCons(head, rest + ys);
    JoinNulCons(head, rest);
    JoinNulAppend(rest, ys);
    NulAssociates(head, JoinNul(rest), JoinNul(ys));
  }

  lemma ExclusionMark()
    ensures '\0' !in "exclude-subject" && "\0exclude-subject\0" == "\0" + "exclude-subject" + "\0"
  {
    var s := "exclude-subject";
    assert forall i | 0 <= i < |s| :: s[i] != '\0';
  }

  lemma ExcludingScopeParts(userType: string, userID: string)
    ensures ExcludingScope("", userType, userID) == JoinNul(["", "exclude-subject", userType, userID])
    ensures '\0' !in "exclude-subject"
  {
    ExclusionMark();
    ScopeJoined("exclude-subject", userType, userID);
    assert "" + "\0exclude-subject\0" == "\0exclude-subject\0";
  }

  lemma ScopeJoined(mark: string, userType: string, userID: string)
    ensures ("\0" + mark + "\0") + userType + "\0" + userID == JoinNul(["", mark, userType, userID])
  {
    hide JoinNul;
    JoinNulCons("", [mark]);
    JoinNulCons(userType, [userID]);
    assert [""] + [mark] == ["", mark] && [userType] + [userID] == [userType, userID];
    JoinNulOne(mark);
    JoinNulOne(userID);
    JoinNulAppend(["", mark], [userType, userID]);
    assert ["", mark] + [userType, userID] == ["", mark, userType, userID];
  }

  lemma JoinNulOne(s: string)
    ensures JoinNul([s]) == s
  {
  }

  /** A plain cursor never opens a subject-excluding scan, nor the other way round. */
  lemma ExclusionIsBound(c: Codec, f: TupleFilter, userType: string, userID: string, f': TupleFilter)
    requires forall x, y :: c.digest(x) == c.digest(y) ==> x == y
    requires NulFree(ScopeParts("", f)) && NulFree(ScopeParts("", f')) && NulFree([userType, userID])
    ensures PageScope(c, ExcludingScope("", userType, userID), f) != PageScope(c, "", f')
  {
    hide JoinNul, ExcludingScope;
    var scope := ExcludingScope("", userType, userID);
    var head, tail := ["", "exclude-subject", userType, userID], ScopeParts("", f)[1..];
    ExcludingScopeParts(userType, userID);
    JoinNulAppend(head, tail);
    assert ScopeParts(scope, f) == [scope] + tail;
    JoinNulCons(scope, tail);
    assert userType in [userType, userID] && userID in [userType, userID];
    assert NulFree(head + tail) && |head + tail| == 10;
    if PageScope(c, scope, f) == PageScope(c, "", f') {
      JoinNulInjective(head + tail, ScopeParts("", f'));
      assert false;
    }
  }
}
