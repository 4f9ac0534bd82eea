/**
 What joining a reference that starts with a separator to an authority-only http or https URL gives, by
 section 4.4 of the WHATWG URL Standard: stripping, the authority, re-encoding and the path state.
 */
module UrlPaths {
  import opened Text
  import opened PercentEncoding

  // ---- Pieces of a reference ----------------------------------------------------------------

  predicate IsSeparator(c: char) {
    c == '/' || c == '\\'
  }

  /** The pieces between separators. */
  function Segments(s: string): (r: seq<string>)
    ensures r != []
  {
    if s == "" then [""]
    else
      var rest := Segments(s[1..]);
      if IsSeparator(s[0]) then [""] + rest else [[s[0]] + rest[0]] + rest[1..]
  }

  /** The part before the first `?` or `#`. */
  function PathPart(endpoint: string): string {
    if endpoint == "" || endpoint[0] == '?' || endpoint[0] == '#' then ""
    else [endpoint[0]] + PathPart(endpoint[1..])
  }

  predicate IsNewline(c: char) {
    c == '\t' || c == '\n' || c == '\r'
  }

  /** C0 controls and the space go from both ends. */
  function TrimEdges(s: string): string {
    if s == "" then ""
    else if s[0] <= ' ' then TrimEdges(s[1..])
    else if s[|s| - 1] <= ' ' then TrimEdges(s[..|s| - 1])
    else s
  }

  function DropNewlines(s: string): string {
    if s == "" then "" else (if IsNewline(s[0]) then "" else [s[0]]) + DropNewlines(s[1..])
  }

  /** What the parser reads of a text. */
  function Strip(s: string): string {
    DropNewlines(TrimEdges(s))
  }

  /** C0 controls and the space. */
  predicate AllControls(s: string) {
    forall i | 0 <= i < |s| :: s[i] as int <= 0x20
  }

  /** The ends of a text that are controls or space go, and every tab and newline inside it. */
  lemma {:induction false} StripExactly(before: string, s: string, after: string)
    requires AllControls(before) && AllControls(after)
    requires s != "" ==> s[0] as int > 0x20 && s[|s| - 1] as int > 0x20
    ensures Strip(before + s + after) == DropNewlines(s)
    decreases |before| + |after|
  {
    var t := before + s + after;
    if before != "" {
      assert t[1..] == before[1..] + s + after && t[0] == before[0];
      StripExactly(before[1..], s, after);
    } else if after != "" {
      var n := |after| - 1;
      assert t[..|t| - 1] == before + s + after[..n] && t[|t| - 1] == after[n];
      if s == "" {
        assert t[1..] == before + s + after[1..];
        StripExactly(before, s, after[1..]);
      } else {
        assert t[0] == s[0];
        StripExactly(before, s, after[..n]);
      }
    } else {
      assert t == s;
    }
  }

  lemma {:induction false} DropExactly(a: string, b: string, c: char)
    ensures DropNewlines(a + b) == DropNewlines(a) + DropNewlines(b)
    ensures DropNewlines([c]) == if c == '\t' || c == '\n' || c == '\r' then "" else [c]
  {
    assert [c][1..] == "";
    if a == "" {
      assert a + b == b;
    } else {
      assert (a + b)[1..] == a[1..] + b;
      DropExactly(a[1..], b, c);
    }
  }

  lemma {:induction false} TrimKeepsSlash(s: string)
    requires s != "" && s[0] == '/'
    ensures TrimEdges(s) != "" && TrimEdges(s)[0] == '/'
  {
    if s[|s| - 1] <= ' ' {
      TrimKeepsSlash(s[..|s| - 1]);
    }
  }

  lemma StripKeepsSlash(s: string)
    requires s != "" && s[0] == '/'
    ensures Strip(s) != "" && Strip(s)[0] == '/'
  {
    TrimKeepsSlash(s);
  }

  lemma {:induction false} NothingToDrop(s: string)
    requires forall i | 0 <= i < |s| :: s[i] > ' '
    ensures DropNewlines(s) == s
  {
    if s != "" {
      NothingToDrop(s[1..]);
    }
  }

  lemma NothingToStrip(s: string)
    requires forall i | 0 <= i < |s| :: s[i] > ' '
    ensures Strip(s) == s
  {
    NothingToDrop(s);
  }

  lemma {:induction false} NoQuery(s: string)
    requires forall i | 0 <= i < |s| :: s[i] != '?' && s[i] != '#'
    ensures PathPart(s) == s
  {
    if s != "" {
      NoQuery(s[1..]);
    }
  }

  predicate NoSeparators(s: string) {
    forall i | 0 <= i < |s| :: !IsSeparator(s[i])
  }

  lemma {:induction false} OneSegment(s: string)
    requires NoSeparators(s)
    ensures Segments(s) == [s]
  {
    if s != "" {
      OneSegment(s[1..]);
      assert [s[0]] + s[1..] == s;
    }
  }

  lemma {:induction false} SegmentsSplit(a: string, b: string)
    requires NoSeparators(a)
    ensures Segments(a + "/" + b) == [a] + Segments(b)
  {
    var s := a + "/" + b;
    if a == "" {
      assert s[1..] == b;
    } else {
      assert s[1..] == a[1..] + "/" + b;
      SegmentsSplit(a[1..], b);
      assert Segments(s[1..])[0] == a[1..] && Segments(s[1..])[1..] == Segments(b);
      assert s[0] == a[0] && [a[0]] + a[1..] == a;
    }
  }

  lemma {:induction false} SegmentsHaveNone(s: string)
    ensures forall i | 0 <= i < |Segments(s)| :: NoSeparators(Segments(s)[i])
  {
    if s != "" {
      SegmentsHaveNone(s[1..]);
      var rest := Segments(s[1..]);
      assert NoSeparators(rest[0]);
    }
  }

  lemma {:induction false} SegmentsConcat(a: string, b: string)
    requires b != "" && IsSeparator(b[0])
    ensures Segments(a + b) == Segments(a) + Segments(b)[1..]
  {
    if a == "" {
      assert a + b == b && [""] + Segments(b)[1..] == Segments(b);
    } else {
      assert (a + b)[1..] == a[1..] + b && (a + b)[0] == a[0];
      SegmentsConcat(a[1..], b);
      SegmentsFirst(a[0], Segments(a[1..]), Segments(b)[1..]);
    }
  }

  /** What one more character in front does to the pieces does not depend on those behind. */
  lemma SegmentsFirst(c: char, x: seq<string>, y: seq<string>)
    requires x != []
    ensures [[c] + (x + y)[0]] + (x + y)[1..] == [[c] + x[0]] + x[1..] + y
    ensures [""] + (x + y) == [""] + x + y
  {
    assert (x + y)[1..] == x[1..] + y;
  }

  // ---- The path state -----------------------------------------------------------------------

  /** `segment` is `n` dots, each written plainly or as an escape. */
  predicate SpellsDots(segment: string, n: nat) {
    if n == 0 then segment == ""
    else
      || (segment != "" && segment[0] == '.' && SpellsDots(segment[1..], n - 1))
      || (|segment| >= 3 && segment[0] == '%' && segment[1] == '2' && LowerChar(segment[2]) == 'e'
          && SpellsDots(segment[3..], n - 1))
  }

  /** Single-dot and double-dot segments of section 4.1 of the WHATWG URL Standard. */
  predicate IsCurrent(segment: string) {
    SpellsDots(segment, 1)
  }

  predicate IsParent(segment: string) {
    SpellsDots(segment, 2)
  }

  /** The path state of section 4.4 of the WHATWG URL Standard, over the segments of a path. */
  function PathState(done: seq<string>, todo: seq<string>): seq<string>
    decreases |todo|
  {
    if todo == [] then done
    else
      var last := |todo| == 1;
      var shorter := if done == [] then [] else done[..|done| - 1];
      PathState(
        if IsParent(todo[0]) then (if last then shorter + [""] else shorter)
        else if IsCurrent(todo[0]) then (if last then done + [""] else done)
        else done + [todo[0]],
        todo[1..])
  }

  function PathText(segments: seq<string>): string {
    if segments == [] then "" else "/" + segments[0] + PathText(segments[1..])
  }

  /** The segments without single dots; a last one leaves an empty segment. */
  function DropDots(todo: seq<string>): seq<string> {
    if todo == [] then []
    else if IsCurrent(todo[0]) then (if |todo| == 1 then [""] else DropDots(todo[1..]))
    else [todo[0]] + DropDots(todo[1..])
  }

  lemma {:induction false} NothingPopped(done: seq<string>, todo: seq<string>)
    requires forall i | 0 <= i < |todo| :: !IsParent(todo[i])
    ensures PathState(done, todo) == done + DropDots(todo)
    decreases |todo|
  {
    if todo == [] {
      assert done + [] == done;
    } else if !IsCurrent(todo[0]) {
      NothingPopped(done + [todo[0]], todo[1..]);
      assert done + [todo[0]] + DropDots(todo[1..]) == done + ([todo[0]] + DropDots(todo[1..]));
    } else if |todo| > 1 {
      NothingPopped(done, todo[1..]);
    } else {
      assert todo[1..] == [];
    }
  }

  // ---- Resolution ---------------------------------------------------------------------------

  /** `encodes` is the set of characters a path is re-encoded at; `sameOrigin` says whether an authority
      reads as the base's own host and port. */
  datatype Parser = Parser(encodes: char -> bool, sameOrigin: string -> bool)

  /** The parser leaves unreserved characters and `%` alone. */
  ghost predicate Ordinary(parser: Parser) {
    forall c: char | IsEncodedChar(c) :: !parser.encodes(c)
  }

  /** The path percent-encode set of section 1.3 of the standard. */
  predicate PathSet(c: char) {
    c < '!' || c > '~' || c == '"' || c == '#' || c == '<' || c == '>' || c == '?' || c == '^' || c == '`'
    || c == '{' || c == '}'
  }

  lemma PathSetIsOrdinary(sameOrigin: string -> bool)
    ensures Ordinary(Parser(PathSet, sameOrigin))
  {
  }

  function EscapeAll(bytes: seq<Byte>): string {
    if bytes == [] then "" else Escape(bytes[0]) + EscapeAll(bytes[1..])
  }

  function ReencodeChar(parser: Parser, c: char): string {
    if parser.encodes(c) then EscapeAll(Utf8(c)) else [c]
  }

  function Reencode(parser: Parser, s: string): string {
    if s == "" then "" else ReencodeChar(parser, s[0]) + Reencode(parser, s[1..])
  }

  function ReencodeAll(parser: Parser, segments: seq<string>): seq<string> {
    seq(|segments|, i requires 0 <= i < |segments| => Reencode(parser, segments[i]))
  }

  /** Two separators in front start an authority, and more of them are skipped. */
  predicate NamesAuthority(t: string) {
    |t| >= 2 && IsSeparator(t[0]) && IsSeparator(t[1])
  }

  function SkipSeparators(t: string, i: nat): (j: nat)
    requires i <= |t|
    ensures i <= j <= |t| && forall k | i <= k < j :: IsSeparator(t[k])
    decreases |t| - i
  {
    if i < |t| && IsSeparator(t[i]) then SkipSeparators(t, i + 1) else i
  }

  predicate EndsAuthority(c: char) {
    IsSeparator(c) || c == '?' || c == '#'
  }

  function AuthorityEnd(t: string, i: nat): (j: nat)
    requires i <= |t|
    ensures i <= j <= |t| && (forall k | i <= k < j :: !EndsAuthority(t[k])) && (j < |t| ==> EndsAuthority(t[j]))
    decreases |t| - i
  {
    if i < |t| && !EndsAuthority(t[i]) then AuthorityEnd(t, i + 1) else i
  }

  /** The segments of the path of a reference without authority. */
  function PathSegments(t: string): seq<string> {
    Segments(PathPart(t))[1..]
  }

  function PathOf(parser: Parser, segments: seq<string>): string {
    PathText(PathState([], ReencodeAll(parser, segments)))
  }

  /** The path of the joined URL, or `None` when it has another origin or cannot be read. */
  function Resolve(parser: Parser, t: string): Option<string>
    requires t != "" && t[0] == '/'
  {
    if !NamesAuthority(t) then Some(PathOf(parser, PathSegments(t)))
    else
      var start := SkipSeparators(t, 0);
      var end := AuthorityEnd(t, start);
      if parser.sameOrigin(t[start..end]) then Some(PathOf(parser, SegmentsBehind(t[end..]))) else None
  }

  /** The segments of the path behind an authority; an empty path is the root. */
  function SegmentsBehind(rest: string): seq<string> {
    if PathPart(rest) == "" then [""] else PathSegments(rest)
  }

  /** What the path is written as: all its segments, re-encoded, with single dots dropped. */
  function AsWritten(parser: Parser, t: string): string {
    PathText(DropDots(ReencodeAll(parser, PathSegments(t))))
  }

  predicate NoParents(segments: seq<string>) {
    forall i | 0 <= i < |segments| :: !IsParent(segments[i])
  }

  predicate AllApart(segments: seq<string>) {
    forall i | 0 <= i < |segments| :: NoSeparators(segments[i])
  }

  /** What is resolved: a reference without authority always, to its own path; one with an authority exactly
      when that reads as the base's origin, to the path behind it. */
  lemma ResolveExactly(parser: Parser, slashes: string, authority: string, rest: string)
    requires |slashes| >= 2 && slashes[0] == '/' && forall i | 0 <= i < |slashes| :: IsSeparator(slashes[i])
    requires forall i | 0 <= i < |authority| :: !EndsAuthority(authority[i])
    requires rest != "" ==> EndsAuthority(rest[0]) && (authority == "" ==> !IsSeparator(rest[0]))
    ensures var t := slashes + authority + rest;
            && t[0] == '/'
            && (Resolve(parser, t).Some? <==> parser.sameOrigin(authority))
            && (parser.sameOrigin(authority) ==>
                  Resolve(parser, t) == Some(PathOf(parser, if PathPart(rest) == "" then [""] else PathSegments(rest))))
  {
    AuthorityFound(slashes, authority, rest);
  }

  lemma AuthorityFound(slashes: string, authority: string, rest: string)
    requires |slashes| >= 2 && slashes[0] == '/' && forall i | 0 <= i < |slashes| :: IsSeparator(slashes[i])
    requires forall i | 0 <= i < |authority| :: !EndsAuthority(authority[i])
    requires rest != "" ==> EndsAuthority(rest[0]) && (authority == "" ==> !IsSeparator(rest[0]))
    ensures var t := slashes + authority + rest;
            var start := SkipSeparators(t, 0);
            var end := AuthorityEnd(t, start);
            t[0] == '/' && NamesAuthority(t) && t[start..end] == authority && t[end..] == rest
  {
    var t := slashes + authority + rest;
    var n, m := |slashes|, |slashes| + |authority|;
    assert forall i | 0 <= i < n :: t[i] == slashes[i];
    assert forall i | n <= i < m :: t[i] == authority[i - n];
    assert m < |t| ==> t[m] == rest[0];
    SkipAll(t, 0, n);
    EndAt(t, n, m);
    assert t[n..m] == authority && t[m..] == rest;
  }

  lemma {:induction false} SkipAll(t: string, i: nat, n: nat)
    requires i <= n <= |t| && (forall k | i <= k < n :: IsSeparator(t[k])) && (n < |t| ==> !IsSeparator(t[n]))
    ensures SkipSeparators(t, i) == n
    decreases n - i
  {
    if i < n {
      SkipAll(t, i + 1, n);
    }
  }

  lemma {:induction false} EndAt(t: string, i: nat, m: nat)
    requires i <= m <= |t| && (forall k | i <= k < m :: !EndsAuthority(t[k])) && (m < |t| ==> EndsAuthority(t[m]))
    ensures AuthorityEnd(t, i) == m
    decreases m - i
  {
    if i < m {
      EndAt(t, i + 1, m);
    }
  }

  // ---- When a path is resolved as written ---------------------------------------------------

  /** The text of a path determines its segments. */
  lemma {:induction false} TextSegments(xs: seq<string>)
    requires AllApart(xs)
    ensures Segments(PathText(xs)) == [""] + xs
  {
    if xs == [] {
      assert [""] + xs == [""];
    } else {
      TextSegments(xs[1..]);
      SlashSegments(xs[0], PathText(xs[1..]), xs[1..]);
      assert [xs[0]] + xs[1..] == xs;
    }
  }

  lemma SlashSegments(x: string, rest: string, ys: seq<string>)
    requires NoSeparators(x) && Segments(rest) == [""] + ys && (rest == "" || rest[0] == '/')
    ensures Segments("/" + x + rest) == [""] + ([x] + ys)
  {
    OneSegment(x);
    if rest == "" {
      assert x + rest == x && ys == [];
    } else {
      SegmentsConcat(x, rest);
      assert Segments(rest)[1..] == ys;
    }
    SegmentsSplit("", x + rest);
    assert "" + "/" + (x + rest) == "/" + x + rest;
  }

  lemma SameTextSame(xs: seq<string>, ys: seq<string>)
    requires AllApart(xs) && AllApart(ys) && PathText(xs) == PathText(ys)
    ensures xs == ys
  {
    TextSegments(xs);
    TextSegments(ys);
    assert ([""] + xs)[1..] == xs && ([""] + ys)[1..] == ys;
  }

  /** The path state yields no parent segment, keeps segments apart, and no more of them than dropping
      single dots would. */
  lemma {:induction false} StateKeeps(done: seq<string>, todo: seq<string>)
    requires NoParents(done) && AllApart(done) && AllApart(todo)
    ensures NoParents(PathState(done, todo)) && AllApart(PathState(done, todo))
    ensures |PathState(done, todo)| <= |done| + |DropDots(todo)|
    decreases |todo|
  {
    if todo != [] {
      var last := |todo| == 1;
      var shorter := if done == [] then [] else done[..|done| - 1];
      var next := if IsParent(todo[0]) then (if last then shorter + [""] else shorter)
                  else if IsCurrent(todo[0]) then (if last then done + [""] else done)
                  else done + [todo[0]];
      assert NoParents(shorter) && AllApart(shorter);
      assert NoParents(next) && AllApart(next);
      StateKeeps(next, todo[1..]);
      DotsDiffer(todo[0]);
    }
  }

  lemma DotsDiffer(s: string)
    ensures !(IsCurrent(s) && IsParent(s))
  {
    if IsCurrent(s) && IsParent(s) {
      SpellsOnce(s, 1, 2);
    }
  }

  /** A text spells one number of dots only. */
  lemma {:induction false} SpellsOnce(s: string, m: nat, n: nat)
    requires SpellsDots(s, m) && SpellsDots(s, n)
    ensures m == n
    decreases m
  {
    if m > 0 && n > 0 {
      if s[0] == '.' {
        SpellsOnce(s[1..], m - 1, n - 1);
      } else {
        SpellsOnce(s[3..], m - 1, n - 1);
      }
    }
  }

  lemma {:induction false} DropKeeps(todo: seq<string>)
    requires AllApart(todo)
    ensures AllApart(DropDots(todo))
    ensures NoParents(DropDots(todo)) ==> NoParents(todo)
    ensures todo != [] ==> DropDots(todo) != []
  {
    if todo != [] {
      DropKeeps(todo[1..]);
      DotsDiffer(todo[0]);
      var r := DropDots(todo);
      if !IsCurrent(todo[0]) {
        assert r[0] == todo[0] && r[1..] == DropDots(todo[1..]);
        forall i | 0 <= i < |r| ensures NoSeparators(r[i]) {
          assert i > 0 ==> r[i] == DropDots(todo[1..])[i - 1];
        }
      }
      if NoParents(r) {
        forall i | 0 <= i < |todo| ensures !IsParent(todo[i]) {
          DropKeepsOne(todo, i);
        }
      }
    }
  }

  /** A parent segment is not dropped. */
  lemma {:induction false} DropKeepsOne(todo: seq<string>, i: nat)
    requires i < |todo| && NoParents(DropDots(todo))
    ensures !IsParent(todo[i])
  {
    DotsDiffer(todo[0]);
    var r := DropDots(todo);
    if i == 0 {
      if !IsCurrent(todo[0]) {
        assert r[0] == todo[0];
      }
    } else {
      if !IsCurrent(todo[0]) {
        assert r[1..] == DropDots(todo[1..]);
        forall k | 0 <= k < |r[1..]| ensures !IsParent(r[1..][k]) {
          assert r[1..][k] == r[k + 1];
        }
      }
      DropKeepsOne(todo[1..], i - 1);
    }
  }

  /** Segments resolve as written exactly when none of them is a parent segment. */
  lemma StateExactly(todo: seq<string>)
    requires AllApart(todo)
    ensures PathText(PathState([], todo)) == PathText(DropDots(todo)) <==> NoParents(todo)
  {
    DropKeeps(todo);
    StateKeeps([], todo);
    if NoParents(todo) {
      NothingPopped([], todo);
      assert [] + DropDots(todo) == DropDots(todo);
    }
    if PathText(PathState([], todo)) == PathText(DropDots(todo)) {
      SameTextSame(PathState([], todo), DropDots(todo));
    }
  }

  // ---- Re-encoding --------------------------------------------------------------------------

  lemma ReencodedChar(parser: Parser, c: char)
    requires Ordinary(parser) && parser.encodes(c)
    ensures var e := ReencodeChar(parser, c);
            |e| >= 3 && e[0] == '%' && !(e[1] == '2' && LowerChar(e[2]) == 'e')
    ensures c != '.' && c != '%'
  {
    assert IsEncodedChar('.') && IsEncodedChar('%');
    var b := Utf8(c)[0];
    assert b != DOT;
    EscapeOfDot(b);
  }

  /** The first character after re-encoding. */
  lemma ReencodedHead(parser: Parser, s: string)
    requires Ordinary(parser) && s != ""
    ensures var e := Reencode(parser, s);
            && e != "" && e[0] == (if parser.encodes(s[0]) then '%' else s[0])
            && (!parser.encodes(s[0]) ==> e[1..] == Reencode(parser, s[1..]))
  {
    if parser.encodes(s[0]) {
      ReencodedChar(parser, s[0]);
    }
  }

  /** Re-encoding neither makes nor hides a dot. */
  lemma {:induction false} ReencodedSpells(parser: Parser, s: string, n: nat)
    requires Ordinary(parser)
    ensures SpellsDots(Reencode(parser, s), n) <==> SpellsDots(s, n)
    decreases |s|
  {
    if s != "" && n > 0 {
      var e := Reencode(parser, s);
      ReencodedHead(parser, s);
      if parser.encodes(s[0]) {
        ReencodedChar(parser, s[0]);
        assert e[1] == ReencodeChar(parser, s[0])[1] && e[2] == ReencodeChar(parser, s[0])[2];
      } else if s[0] == '%' {
        EscapeStays(parser, s);
        if |s| >= 3 {
          ReencodedSpells(parser, s[3..], n - 1);
        }
      } else if s[0] == '.' {
        ReencodedSpells(parser, s[1..], n - 1);
      }
    } else if s != "" {
      ReencodedHead(parser, s);
    }
  }

  predicate DotEscape(s: string) {
    |s| >= 3 && s[0] == '%' && s[1] == '2' && LowerChar(s[2]) == 'e'
  }

  /** The escape of a dot stays what it is, and nothing else becomes one. */
  lemma EscapeStays(parser: Parser, s: string)
    requires Ordinary(parser) && s != "" && s[0] == '%'
    ensures DotEscape(Reencode(parser, s)) <==> DotEscape(s)
    ensures DotEscape(s) ==> Reencode(parser, s)[3..] == Reencode(parser, s[3..])
  {
    assert IsEncodedChar('%') && IsEncodedChar('2') && IsEncodedChar('e') && IsEncodedChar('E');
    ReencodedHead(parser, s);
    var e := Reencode(parser, s);
    if |s| > 1 {
      ReencodedHead(parser, s[1..]);
      assert e[1] == e[1..][0];
      if |s| > 2 && !parser.encodes(s[1]) {
        ReencodedHead(parser, s[2..]);
        assert s[1..][1..] == s[2..] && s[2..][1..] == s[3..];
        assert e[2] == e[1..][1..][0];
        assert e[3..] == e[1..][1..][1..];
      }
    }
  }

  lemma {:induction false} EscapesApart(bytes: seq<Byte>)
    ensures NoSeparators(EscapeAll(bytes))
  {
    if bytes != [] {
      EscapesApart(bytes[1..]);
    }
  }

  lemma {:induction false} ReencodedApart(parser: Parser, s: string)
    requires NoSeparators(s)
    ensures NoSeparators(Reencode(parser, s))
  {
    if s != "" {
      ReencodedApart(parser, s[1..]);
      EscapesApart(Utf8(s[0]));
      assert !IsSeparator(s[0]);
    }
  }

  lemma {:induction false} NothingToReencode(parser: Parser, s: string)
    requires forall i | 0 <= i < |s| :: !parser.encodes(s[i])
    ensures Reencode(parser, s) == s
  {
    if s != "" {
      NothingToReencode(parser, s[1..]);
    }
  }

  lemma ReencodedAll(parser: Parser, segments: seq<string>)
    requires Ordinary(parser) && AllApart(segments)
    ensures AllApart(ReencodeAll(parser, segments))
    ensures NoParents(ReencodeAll(parser, segments)) <==> NoParents(segments)
  {
    var e := ReencodeAll(parser, segments);
    forall i | 0 <= i < |segments| ensures NoSeparators(e[i]) && (IsParent(e[i]) <==> IsParent(segments[i])) {
      ReencodedApart(parser, segments[i]);
      ReencodedSpells(parser, segments[i], 2);
    }
  }

  lemma PathSegmentsApart(t: string)
    ensures AllApart(PathSegments(t))
  {
    SegmentsHaveNone(PathPart(t));
    forall i | 0 <= i < |PathSegments(t)| ensures NoSeparators(PathSegments(t)[i]) {
      assert PathSegments(t)[i] == Segments(PathPart(t))[i + 1];
    }
  }

  // ---- Authorities --------------------------------------------------------------------------

  lemma {:induction false} PathPartConcat(a: string, b: string)
    requires forall i | 0 <= i < |a| :: a[i] != '?' && a[i] != '#'
    ensures PathPart(a + b) == a + PathPart(b)
  {
    if a == "" {
      assert a + b == b;
    } else {
      assert (a + b)[1..] == a[1..] + b;
      PathPartConcat(a[1..], b);
    }
  }

  lemma {:induction false} DropDotsLonger(front: seq<string>, rest: seq<string>)
    requires rest != []
    ensures |DropDots(front + rest)| >= |DropDots(rest)|
  {
    if front == [] {
      assert front + rest == rest;
    } else {
      assert (front + rest)[1..] == front[1..] + rest;
      DropDotsLonger(front[1..], rest);
    }
  }

  lemma EmptyFirst(rest: seq<string>)
    requires rest != []
    ensures DropDots([""] + rest) == [""] + DropDots(rest)
  {
    assert ([""] + rest)[1..] == rest;
  }

  /** The segments of a reference with an authority: an empty one, more, then those of the path behind. */
  lemma AuthoritySegments(t: string, end: nat) returns (front: seq<string>)
    requires NamesAuthority(t) && end == AuthorityEnd(t, SkipSeparators(t, 0))
    ensures front != [] && AllApart(front)
    ensures PathSegments(t) == [""] + (front + if PathPart(t[end..]) == "" then [] else PathSegments(t[end..]))
  {
    var a, b := t[..end], t[end..];
    assert t == a + b;
    assert SkipSeparators(t, 0) >= 2;
    PathPartConcat(a, b);
    assert PathPart(b) != "" ==> PathPart(b)[0] == b[0];
    front := Segments(a[2..]);
    SegmentsHaveNone(a[2..]);
    FrontSegments(a, PathPart(b));
  }

  lemma FrontSegments(a: string, own: string)
    requires NamesAuthority(a) && (own == "" || IsSeparator(own[0]))
    ensures Segments(a + own)[1..] == [""] + (Segments(a[2..]) + if own == "" then [] else Segments(own)[1..])
  {
    TwoFirst(a);
    if own == "" {
      assert a + own == a;
      TailOfTwo(Segments(a[2..]), []);
    } else {
      SegmentsConcat(a, own);
      TailOfTwo(Segments(a[2..]), Segments(own)[1..]);
    }
  }

  lemma TailOfTwo(x: seq<string>, y: seq<string>)
    ensures (["", ""] + x + y)[1..] == [""] + (x + y) && ["", ""] + x + [] == ["", ""] + x
  {
  }

  lemma SeparatorFirst(s: string)
    requires s != "" && IsSeparator(s[0])
    ensures Segments(s) == [""] + Segments(s[1..])
  {
  }

  lemma TwoFirst(a: string)
    requires NamesAuthority(a)
    ensures Segments(a) == ["", ""] + Segments(a[2..])
  {
    SeparatorFirst(a);
    SeparatorFirst(a[1..]);
    assert a[1..][1..] == a[2..];
    assert [""] + ([""] + Segments(a[2..])) == ["", ""] + Segments(a[2..]);
  }

  /** A reference that names an authority is never resolved as written. */
  lemma AuthorityChanges(parser: Parser, t: string)
    requires Ordinary(parser) && NamesAuthority(t) && t[0] == '/' && Resolve(parser, t).Some?
    ensures Resolve(parser, t).value != AsWritten(parser, t)
  {
    var end := AuthorityEnd(t, SkipSeparators(t, 0));
    var front := AuthoritySegments(t, end);
    var behind := SegmentsBehind(t[end..]);
    PathSegmentsApart(t);
    PathSegmentsApart(t[end..]);
    LongerWritten(parser, PathSegments(t), front, behind);
  }

  lemma LongerWritten(parser: Parser, all: seq<string>, front: seq<string>, behind: seq<string>)
    requires Ordinary(parser) && AllApart(all) && AllApart(behind) && front != [] && behind != []
    requires all == [""] + (front + behind) || (all == [""] + front && behind == [""])
    ensures PathOf(parser, behind) != PathText(DropDots(ReencodeAll(parser, all)))
  {
    var a, f, b := ReencodeAll(parser, all), ReencodeAll(parser, front), ReencodeAll(parser, behind);
    ReencodedAll(parser, all);
    ReencodedAll(parser, behind);
    ReencodedFront(parser, all, front, behind);
    LongerTexts(a, f, b);
  }

  lemma ReencodedFront(parser: Parser, all: seq<string>, front: seq<string>, behind: seq<string>)
    requires all == [""] + (front + behind) || (all == [""] + front && behind == [""])
    ensures var a, f, b := ReencodeAll(parser, all), ReencodeAll(parser, front), ReencodeAll(parser, behind);
            a == [""] + (f + b) || (a == [""] + f && b == [""])
  {
    var a, f, b := ReencodeAll(parser, all), ReencodeAll(parser, front), ReencodeAll(parser, behind);
    assert Reencode(parser, "") == "";
    if all == [""] + (front + behind) {
      assert a == [""] + (f + b);
    } else {
      assert a == [""] + f && b == [""];
    }
  }

  lemma LongerTexts(all: seq<string>, front: seq<string>, behind: seq<string>)
    requires front != [] && behind != [] && AllApart(all) && AllApart(behind)
    requires all == [""] + (front + behind) || (all == [""] + front && behind == [""])
    ensures PathText(PathState([], behind)) != PathText(DropDots(all))
  {
    WrittenIsLonger(all, front, behind);
    StateKeeps([], behind);
    DropKeeps(all);
    if PathText(PathState([], behind)) == PathText(DropDots(all)) {
      SameTextSame(PathState([], behind), DropDots(all));
    }
  }

  lemma WrittenIsLonger(all: seq<string>, front: seq<string>, behind: seq<string>)
    requires front != [] && behind != [] && AllApart(all)
    requires all == [""] + (front + behind) || (all == [""] + front && behind == [""])
    ensures |DropDots(all)| > |DropDots(behind)|
  {
    if all == [""] + (front + behind) {
      EmptyFirst(front + behind);
      DropDotsLonger(front, behind);
    } else {
      EmptyFirst(front);
      assert AllApart(front) by { assert forall i | 0 <= i < |front| :: front[i] == all[i + 1]; }
      DropKeeps(front);
    }
  }

  /** The exact condition, for every reference the parser can read. */
  lemma ResolvedAsWritten(parser: Parser, t: string)
    requires Ordinary(parser) && t != "" && t[0] == '/' && Resolve(parser, t).Some?
    ensures Resolve(parser, t).value == AsWritten(parser, t) <==>
            !NamesAuthority(t) && NoParents(PathSegments(t))
  {
    if NamesAuthority(t) {
      AuthorityChanges(parser, t);
    } else {
      PathSegmentsApart(t);
      ReencodedAll(parser, PathSegments(t));
      StateExactly(ReencodeAll(parser, PathSegments(t)));
    }
  }
}
