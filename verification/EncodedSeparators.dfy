/** Where an escape shows: in a path exactly when in one of its segments, before and after re-encoding. */
module EncodedSeparators {
  import opened Text
  import opened PercentEncoding
  import opened UrlPaths

  const SLASH: Byte := 47
  const BACKSLASH: Byte := 92

  /** The escape of `b` occurs in `s`, in either case. */
  predicate Shows(s: string, b: Byte) {
    Contains(Lower(s), LowerEscape(b))
  }

  predicate AnyShows(segments: seq<string>, b: Byte) {
    exists i | 0 <= i < |segments| :: Shows(segments[i], b)
  }

  lemma ShownAt(s: string, b: Byte) returns (i: nat)
    requires Shows(s, b)
    ensures i + 3 <= |s| && OccursAt(Lower(s), LowerEscape(b), i)
  {
    i :| 0 <= i <= |Lower(s)| && OccursAt(Lower(s), LowerEscape(b), i);
  }

  lemma EscapeChars(s: string, b: Byte, i: nat, k: nat)
    requires i + 3 <= |s| && OccursAt(Lower(s), LowerEscape(b), i) && k < 3
    ensures LowerChar(s[i + k]) == LowerEscape(b)[k] && !IsSeparator(s[i + k])
  {
    assert Lower(s)[i..i + 3][k] == Lower(s)[i + k];
  }

  /** No escape reaches across a separator. */
  lemma ShowsAcross(front: string, c: char, rest: string, b: Byte)
    requires IsSeparator(c)
    ensures Shows(front + [c] + rest, b) <==> Shows(front, b) || Shows(rest, b)
  {
    var s := front + [c] + rest;
    if Shows(s, b) {
      var i := ShownAt(s, b);
      NotAcross(front, c, rest, b, i);
    }
    if Shows(front, b) {
      LowerConcat(front, [c] + rest);
      ContainsInside("", Lower(front), Lower([c] + rest), LowerEscape(b));
      assert "" + Lower(front) + Lower([c] + rest) == Lower(s) by { assert front + ([c] + rest) == s; }
    }
    if Shows(rest, b) {
      LowerConcat(front + [c], rest);
      ContainsInside(Lower(front + [c]), Lower(rest), "", LowerEscape(b));
      assert Lower(front + [c]) + Lower(rest) + "" == Lower(s);
    }
  }

  lemma NotAcross(front: string, c: char, rest: string, b: Byte, i: nat)
    requires IsSeparator(c) && i + 3 <= |front + [c] + rest|
    requires OccursAt(Lower(front + [c] + rest), LowerEscape(b), i)
    ensures Shows(front, b) || Shows(rest, b)
  {
    var s, e := front + [c] + rest, LowerEscape(b);
    var l := Lower(s);
    EscapeChars(s, b, i, 0);
    EscapeChars(s, b, i, 1);
    EscapeChars(s, b, i, 2);
    var n := |front|;
    assert s[n] == c;
    if i + 3 <= n {
      assert Lower(front)[i..i + 3] == l[i..i + 3];
      assert OccursAt(Lower(front), e, i);
    } else {
      assert i > n;
      assert Lower(rest)[i - n - 1..i - n + 2] == l[i..i + 3];
      assert OccursAt(Lower(rest), e, i - n - 1);
    }
  }

  lemma EmptyShowsNothing(b: Byte)
    ensures !Shows("", b)
  {
    assert |Lower("")| == 0;
  }

  /** The text of a path shows an escape exactly when one of its segments does. */
  lemma {:induction false} ShowsInPath(xs: seq<string>, b: Byte)
    ensures Shows(PathText(xs), b) <==> AnyShows(xs, b)
  {
    EmptyShowsNothing(b);
    if xs != [] {
      ShowsInPath(xs[1..], b);
      ShowsSlash(xs[0], PathText(xs[1..]), b);
      AnyShowsFirst(xs, b);
    }
  }

  lemma ShowsSlash(x: string, rest: string, b: Byte)
    requires rest == "" || rest[0] == '/'
    ensures Shows("/" + x + rest, b) <==> Shows(x, b) || Shows(rest, b)
  {
    EmptyShowsNothing(b);
    ShowsAcross("", '/', x + rest, b);
    assert "" + ['/'] + (x + rest) == "/" + x + rest;
    if rest == "" {
      assert x + rest == x;
    } else {
      ShowsAcross(x, '/', rest[1..], b);
      assert x + ['/'] + rest[1..] == x + rest;
      ShowsAcross("", '/', rest[1..], b);
      assert "" + ['/'] + rest[1..] == rest;
    }
  }

  lemma AnyShowsFirst(xs: seq<string>, b: Byte)
    requires xs != []
    ensures AnyShows(xs, b) <==> Shows(xs[0], b) || AnyShows(xs[1..], b)
  {
    if AnyShows(xs, b) {
      var i :| 0 <= i < |xs| && Shows(xs[i], b);
      assert i > 0 ==> xs[1..][i - 1] == xs[i];
    }
    if AnyShows(xs[1..], b) {
      var i :| 0 <= i < |xs[1..]| && Shows(xs[1..][i], b);
      assert xs[i + 1] == xs[1..][i];
    }
  }

  /** So does any text, over its segments. */
  lemma {:induction false} ShowsInSegments(front: string, rest: string, b: Byte)
    requires NoSeparators(front)
    ensures Shows(front + rest, b) <==> AnyShows(Segments(front + rest), b)
    decreases |rest|
  {
    var s := front + rest;
    if rest == "" {
      assert s == front;
      OneSegment(front);
      assert Segments(s)[0] == s;
    } else if IsSeparator(rest[0]) {
      ShowsInSegments("", rest[1..], b);
      assert "" + rest[1..] == rest[1..];
      ShowsAcross(front, rest[0], rest[1..], b);
      assert front + [rest[0]] + rest[1..] == s;
      FirstSegment(front, rest);
      AnyShowsFirst(Segments(s), b);
    } else {
      ShowsInSegments(front + [rest[0]], rest[1..], b);
      assert front + [rest[0]] + rest[1..] == s;
    }
  }

  lemma FirstSegment(front: string, rest: string)
    requires NoSeparators(front) && rest != "" && IsSeparator(rest[0])
    ensures Segments(front + rest)[0] == front && Segments(front + rest)[1..] == Segments(rest[1..])
  {
    OneSegment(front);
    SegmentsConcat(front, rest);
    assert Segments(rest)[1..] == Segments(rest[1..]);
  }

  // ---- Re-encoding --------------------------------------------------------------------------

  /** The escape of `b` is at the front of `s`. */
  predicate StartsEscape(s: string, b: Byte) {
    |s| >= 3 && Lower(s[..3]) == LowerEscape(b)
  }

  lemma ShowsFirst(s: string, b: Byte)
    requires s != ""
    ensures Shows(s, b) <==> StartsEscape(s, b) || Shows(s[1..], b)
  {
    var l, e := Lower(s), LowerEscape(b);
    assert l[1..] == Lower(s[1..]);
    if Shows(s, b) {
      var i := ShownAt(s, b);
      if i == 0 {
        assert Lower(s[..3]) == l[0..3];
      } else {
        assert l[1..][i - 1..i + 2] == l[i..i + 3];
        assert OccursAt(l[1..], e, i - 1);
      }
    }
    if StartsEscape(s, b) {
      assert l[0..3] == Lower(s[..3]);
      assert OccursAt(l, e, 0);
    }
    if Shows(s[1..], b) {
      var i := ShownAt(s[1..], b);
      assert l[i + 1..i + 4] == l[1..][i..i + 3];
      assert OccursAt(l, e, i + 1);
    }
  }

  lemma EscapeHasHex(s: string, b: Byte)
    requires StartsEscape(s, b)
    ensures s[0] == '%' && IsUnreservedChar(s[1]) && IsUnreservedChar(s[2])
  {
    var l := Lower(s[..3]);
    assert l[0] == LowerChar(s[0]) && l[1] == LowerChar(s[1]) && l[2] == LowerChar(s[2]);
    HexIsKept(b / 16);
    HexIsKept(b % 16);
    assert LowerEscape(b)[1] == LowerChar(HexDigit(b / 16)) && LowerEscape(b)[2] == LowerChar(HexDigit(b % 16));
  }

  lemma HexIsKept(n: nat)
    requires n < 16
    ensures IsAsciiAlphanumeric(LowerChar(HexDigit(n)))
  {
  }

  /** Bytes other than `b` show no escape of it. */
  lemma {:induction false} OthersShowNot(bytes: seq<Byte>, rest: string, b: Byte)
    requires b !in bytes
    ensures Shows(EscapeAll(bytes) + rest, b) <==> Shows(rest, b)
  {
    if bytes == [] {
      assert EscapeAll(bytes) + rest == rest;
    } else {
      var more := EscapeAll(bytes[1..]) + rest;
      OthersShowNot(bytes[1..], rest, b);
      assert EscapeAll(bytes) + rest == Escape(bytes[0]) + more;
      OneShowsNot(bytes[0], more, b);
    }
  }

  lemma OneShowsNot(a: Byte, rest: string, b: Byte)
    requires a != b
    ensures Shows(Escape(a) + rest, b) <==> Shows(rest, b)
  {
    var s := Escape(a) + rest;
    if Shows(s, b) {
      var i := ShownAt(s, b);
      EscapeAfterEscape(a, rest, b, i);
    }
    if Shows(rest, b) {
      LowerConcat(Escape(a), rest);
      ContainsInside(Lower(Escape(a)), Lower(rest), "", LowerEscape(b));
      assert Lower(Escape(a)) + Lower(rest) + "" == Lower(s);
    }
  }

  lemma Utf8Has(c: char, b: Byte)
    requires b in Utf8(c) && b < 0x80
    ensures c as int == b
  {
  }

  /** The front of a text is an escape exactly when it is after re-encoding, if its first character stays. */
  lemma StartsAfter(parser: Parser, s: string, b: Byte)
    requires Ordinary(parser) && s != "" && !parser.encodes(s[0])
    ensures StartsEscape(Reencode(parser, s), b) <==> StartsEscape(s, b)
  {
    var e := Reencode(parser, s);
    if StartsEscape(s, b) {
      EscapeHasHex(s, b);
      assert s == s[..3] + s[3..];
      KeptFront(parser, s);
    }
    if StartsEscape(e, b) {
      EscapeHasHex(e, b);
      PercentFront(parser, s);
      KeptFront(parser, s);
    }
  }

  lemma KeptFront(parser: Parser, s: string)
    requires |s| >= 3 && !parser.encodes(s[0]) && !parser.encodes(s[1]) && !parser.encodes(s[2])
    ensures |Reencode(parser, s)| >= 3 && Reencode(parser, s)[..3] == s[..3]
  {
    assert s[1..][0] == s[1] && s[1..][1..][0] == s[2];
    var r2 := Reencode(parser, s[1..][1..]);
    assert r2[0] == s[2];
    var r1 := Reencode(parser, s[1..]);
    assert r1 == [s[1]] + r2;
    assert Reencode(parser, s) == [s[0]] + r1;
  }

  /** Three characters that come out unescaped went in so. */
  lemma PercentFront(parser: Parser, s: string)
    requires Ordinary(parser) && s != "" && !parser.encodes(s[0])
    requires var e := Reencode(parser, s); |e| >= 3 && e[1] != '%' && e[2] != '%'
    ensures |s| >= 3 && !parser.encodes(s[1]) && !parser.encodes(s[2])
  {
    var e := Reencode(parser, s);
    ReencodedHead(parser, s);
    assert e[1] == e[1..][0] && s[1..] != "";
    ReencodedHead(parser, s[1..]);
    assert e[2] == e[1..][1..][0] && s[1..][1..] != "";
    ReencodedHead(parser, s[1..][1..]);
  }

  /** Re-encoding a segment shows no separator that was not there, and hides none. */
  lemma {:induction false} ReencodedShows(parser: Parser, s: string, b: Byte)
    requires Ordinary(parser) && NoSeparators(s) && (b == SLASH || b == BACKSLASH)
    ensures Shows(Reencode(parser, s), b) <==> Shows(s, b)
  {
    if s != "" {
      var rest := Reencode(parser, s[1..]);
      ReencodedShows(parser, s[1..], b);
      ShowsFirst(s, b);
      if parser.encodes(s[0]) {
        assert !IsSeparator(s[0]);
        if b in Utf8(s[0]) {
          Utf8Has(s[0], b);
        }
        OthersShowNot(Utf8(s[0]), rest, b);
        ReencodedHead(parser, s);
        if StartsEscape(s, b) {
          EscapeHasHex(s, b);
        }
      } else {
        StartsAfter(parser, s, b);
        ReencodedHead(parser, s);
        ShowsFirst(Reencode(parser, s), b);
      }
    }
  }

  lemma ReencodedAnyShows(parser: Parser, xs: seq<string>, b: Byte)
    requires Ordinary(parser) && AllApart(xs) && (b == SLASH || b == BACKSLASH)
    ensures AnyShows(ReencodeAll(parser, xs), b) <==> AnyShows(xs, b)
  {
    var e := ReencodeAll(parser, xs);
    forall i | 0 <= i < |xs| ensures Shows(e[i], b) <==> Shows(xs[i], b) {
      ReencodedShows(parser, xs[i], b);
    }
  }

  // ---- The path state -----------------------------------------------------------------------

  lemma CurrentForm(s: string)
    requires IsCurrent(s)
    ensures |s| == 1 || (|s| == 3 && DotEscape(s))
  {
    assert SpellsDots(s[1..], 0) || SpellsDots(s[3..], 0);
  }

  lemma CurrentShowsNot(s: string, b: Byte)
    requires IsCurrent(s) && b != DOT
    ensures !Shows(s, b)
  {
    CurrentForm(s);
    EscapeOfDot(b);
    assert LowerEscape(b)[1] == LowerChar(HexDigit(b / 16)) && LowerEscape(b)[2] == LowerChar(HexDigit(b % 16));
    assert LowerChar('2') == '2';
    HexTwo(b / 16);
    if Shows(s, b) {
      var i := ShownAt(s, b);
    }
  }

  lemma HexTwo(n: nat)
    requires n < 16
    ensures LowerChar(HexDigit(n)) == '2' ==> HexDigit(n) == '2'
  {
  }

  lemma {:induction false} DropShows(todo: seq<string>, b: Byte)
    requires b != DOT
    ensures AnyShows(DropDots(todo), b) <==> AnyShows(todo, b)
  {
    EmptyShowsNothing(b);
    if todo != [] {
      DropShows(todo[1..], b);
      AnyShowsFirst(todo, b);
      var r := DropDots(todo);
      if IsCurrent(todo[0]) {
        CurrentShowsNot(todo[0], b);
        if |todo| == 1 {
          assert todo[1..] == [];
        }
      } else {
        assert r[0] == todo[0] && r[1..] == DropDots(todo[1..]);
        AnyShowsFirst(r, b);
      }
    }
  }

  /** What the path state yields was in the path, or is empty. */
  lemma {:induction false} StateShows(done: seq<string>, todo: seq<string>, b: Byte)
    requires AnyShows(PathState(done, todo), b)
    ensures AnyShows(done, b) || AnyShows(todo, b)
    decreases |todo|
  {
    EmptyShowsNothing(b);
    if todo != [] {
      var last := |todo| == 1;
      var shorter := if done == [] then [] else done[..|done| - 1];
      var next := if IsParent(todo[0]) then (if last then shorter + [""] else shorter)
                  else if IsCurrent(todo[0]) then (if last then done + [""] else done)
                  else done + [todo[0]];
      StateShows(next, todo[1..], b);
      AnyShowsFirst(todo, b);
      NextShows(done, next, todo[0], b);
    }
  }

  lemma NextShows(done: seq<string>, next: seq<string>, segment: string, b: Byte)
    requires forall x | x in next :: x in done || x == "" || x == segment
    ensures AnyShows(next, b) ==> AnyShows(done, b) || Shows(segment, b)
  {
    EmptyShowsNothing(b);
    if AnyShows(next, b) {
      var i :| 0 <= i < |next| && Shows(next[i], b);
      assert next[i] in next;
    }
  }

  /** Nothing shows in the resolved path that is not in the reference; all that is, when it is resolved as
      written. */
  lemma ResolvedShows(parser: Parser, t: string, b: Byte)
    requires Ordinary(parser) && t != "" && t[0] == '/' && Resolve(parser, t).Some?
    requires b == SLASH || b == BACKSLASH
    ensures Shows(Resolve(parser, t).value, b) ==> Shows(PathPart(t), b)
    ensures Shows(AsWritten(parser, t), b) <==> Shows(PathPart(t), b)
  {
    WrittenShows(parser, t, b);
    PathSegmentsApart(t);
    if NamesAuthority(t) {
      var end := AuthorityEnd(t, SkipSeparators(t, 0));
      var front := AuthoritySegments(t, end);
      PathSegmentsApart(t[end..]);
      BehindShows(parser, PathSegments(t), front, SegmentsBehind(t[end..]), b);
    } else {
      PathShows(parser, PathSegments(t), b);
    }
    PartShows(t, b);
  }

  lemma PartShows(t: string, b: Byte)
    requires t != "" && t[0] == '/'
    ensures Shows(PathPart(t), b) <==> AnyShows(PathSegments(t), b)
  {
    var p := PathPart(t);
    ShowsInSegments("", p, b);
    assert "" + p == p;
    EmptyShowsNothing(b);
    AnyShowsFirst(Segments(p), b);
  }

  lemma WrittenShows(parser: Parser, t: string, b: Byte)
    requires Ordinary(parser) && t != "" && t[0] == '/' && (b == SLASH || b == BACKSLASH)
    ensures Shows(AsWritten(parser, t), b) <==> Shows(PathPart(t), b)
  {
    var e := ReencodeAll(parser, PathSegments(t));
    PathSegmentsApart(t);
    ReencodedAnyShows(parser, PathSegments(t), b);
    DropShows(e, b);
    ShowsInPath(DropDots(e), b);
    PartShows(t, b);
  }

  lemma PathShows(parser: Parser, segments: seq<string>, b: Byte)
    requires Ordinary(parser) && AllApart(segments) && (b == SLASH || b == BACKSLASH)
    ensures Shows(PathOf(parser, segments), b) ==> AnyShows(segments, b)
  {
    var e := ReencodeAll(parser, segments);
    ShowsInPath(PathState([], e), b);
    ReencodedAnyShows(parser, segments, b);
    if AnyShows(PathState([], e), b) {
      StateShows([], e, b);
    }
  }

  lemma BehindShows(parser: Parser, all: seq<string>, front: seq<string>, behind: seq<string>, b: Byte)
    requires Ordinary(parser) && AllApart(behind) && (b == SLASH || b == BACKSLASH)
    requires all == [""] + (front + behind) || behind == [""]
    ensures Shows(PathOf(parser, behind), b) ==> AnyShows(all, b)
  {
    PathShows(parser, behind, b);
    EmptyShowsNothing(b);
    if AnyShows(behind, b) {
      var i :| 0 <= i < |behind| && Shows(behind[i], b);
      assert all[1 + |front| + i] == behind[i];
    }
  }
}
