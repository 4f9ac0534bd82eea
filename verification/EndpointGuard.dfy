/**
 The guard that decides which endpoints a client may request: an absolute path that stays on the base's
 origin, shows no parent segment or encoded separator, and resolves inside an API tree.
 */
module EndpointGuard {
  import opened Text
  import opened PercentEncoding
  import opened UrlPaths
  import opened EncodedSeparators

  predicate IsDoubleDot(segment: string) {
    var l := Lower(segment);
    l == ".." || l == ".%2e" || l == "%2e." || l == "%2e%2e"
  }

  predicate HasTraversal(endpoint: string) {
    exists i | 0 <= i < |Segments(endpoint)| :: IsDoubleDot(Segments(endpoint)[i])
  }

  predicate HasEncodedSeparator(endpoint: string) {
    var p := Lower(PathPart(endpoint));
    Contains(p, "%2f") || Contains(p, "%5c")
  }

  /** Without a required prefix every path will do. */
  predicate Within(path: string, prefix: Option<string>) {
    prefix.Some? ==> path == prefix.value || prefix.value + "/" <= path
  }

  /** The resolved path when the guard lets the request through. The checks read the endpoint as given, the
      parser what is left of it after stripping. */
  function Guard(parser: Parser, endpoint: string, prefix: Option<string>): Option<string> {
    if endpoint == "" || endpoint[0] != '/' || HasTraversal(endpoint) || HasEncodedSeparator(endpoint) then None
    else
      StripKeepsSlash(endpoint);
      match Resolve(parser, Strip(endpoint))
      case None => None
      case Some(path) => if Within(path, prefix) then Some(path) else None
  }

  // ---- What the guard guarantees ------------------------------------------------------------

  /** One dot in front, in the lower-case text. */
  lemma DotInFront(s: string)
    ensures s != "" ==> (s[0] == '.' <==> Lower(s)[0] == '.')
    ensures s != "" ==> Lower(s)[1..] == Lower(s[1..])
    ensures |s| >= 3 ==> Lower(s)[3..] == Lower(s[3..])
    ensures |s| >= 3 ==>
              (s[0] == '%' && s[1] == '2' && LowerChar(s[2]) == 'e' <==> Lower(s)[..3] == "%2e")
  {
    if |s| >= 3 {
      var l := Lower(s);
      assert l[..3] == [l[0], l[1], l[2]];
    }
  }

  lemma CurrentByCase(s: string)
    ensures IsCurrent(s) <==> Lower(s) == "." || Lower(s) == "%2e"
  {
    var l := Lower(s);
    DotInFront(s);
    if |s| == 1 {
      assert SpellsDots(s[1..], 0) && l == [l[0]];
    } else if |s| == 3 {
      assert SpellsDots(s[3..], 0) && !SpellsDots(s[1..], 0) && l == l[..3];
    } else {
      assert |l| == |s|;
      assert s != "" ==> !SpellsDots(s[1..], 0);
      assert |s| >= 3 ==> !SpellsDots(s[3..], 0);
    }
  }

  /** The parent segments of the URL Standard are exactly those the guard looks for. */
  lemma DoubleDotIsParent(s: string)
    ensures IsParent(s) <==> IsDoubleDot(s)
  {
    var l := Lower(s);
    DotInFront(s);
    if s != "" {
      CurrentByCase(s[1..]);
      assert l == [l[0]] + l[1..];
    }
    if |s| >= 3 {
      CurrentByCase(s[3..]);
      assert l == l[..3] + l[3..];
    }
    assert "." + "." == ".." && "." + "%2e" == ".%2e" && "%2e" + "." == "%2e." && "%2e" + "%2e" == "%2e%2e";
    assert ".."[1..] == "." && ".%2e"[1..] == "%2e" && "%2e."[3..] == "." && "%2e%2e"[3..] == "%2e";
    assert "%2e."[..3] == "%2e" && "%2e%2e"[..3] == "%2e";
  }

  /** Nothing but the tree itself, or what lies under it behind a slash. */
  predicate InTree(path: string, tree: string) {
    path == tree || (|tree| < |path| && path[..|tree|] == tree && path[|tree|] == '/')
  }

  /** Who is let through: an endpoint that starts with a slash, has no parent segment among the pieces between
      its separators and no encoded separator before its query, is read by the parser as this origin's path,
      and lies in the required tree if there is one. */
  lemma GuardExactly(parser: Parser, endpoint: string, prefix: Option<string>)
    ensures Guard(parser, endpoint, prefix).Some? <==>
            && endpoint != "" && endpoint[0] == '/'
            && NoParents(Segments(endpoint))
            && !Shows(PathPart(endpoint), SLASH) && !Shows(PathPart(endpoint), BACKSLASH)
            && Strip(endpoint) != "" && Strip(endpoint)[0] == '/'
            && Resolve(parser, Strip(endpoint)).Some?
            && (prefix.Some? ==> InTree(Resolve(parser, Strip(endpoint)).value, prefix.value))
    ensures Guard(parser, endpoint, prefix).Some? ==>
              Guard(parser, endpoint, prefix) == Resolve(parser, Strip(endpoint))
  {
    SeparatorShows(endpoint);
    TraversalExactly(endpoint);
    if endpoint != "" && endpoint[0] == '/' {
      StripKeepsSlash(endpoint);
      var path := Resolve(parser, Strip(endpoint));
      if path.Some? && prefix.Some? {
        TreeExactly(path.value, prefix.value);
      }
    }
  }

  lemma TraversalExactly(endpoint: string)
    ensures HasTraversal(endpoint) <==> !NoParents(Segments(endpoint))
  {
    forall i | 0 <= i < |Segments(endpoint)|
      ensures IsDoubleDot(Segments(endpoint)[i]) <==> IsParent(Segments(endpoint)[i])
    {
      DoubleDotIsParent(Segments(endpoint)[i]);
    }
  }

  lemma TreeExactly(path: string, tree: string)
    ensures Within(path, Some(tree)) <==> InTree(path, tree)
  {
    if |tree| < |path| && path[..|tree|] == tree && path[|tree|] == '/' {
      assert path[..|tree| + 1] == tree + "/";
    }
    if tree + "/" <= path {
      assert path[..|tree|] == (tree + "/")[..|tree|] == tree;
      assert path[|tree|] == (tree + "/")[|tree|];
    }
  }

  /** A sibling whose name only begins like the tree is refused. */
  lemma SiblingRefused(parser: Parser, endpoint: string, tree: string, c: char, rest: string)
    requires c != '/' && endpoint != "" && endpoint[0] == '/'
    requires Strip(endpoint) != "" && Strip(endpoint)[0] == '/'
    requires Resolve(parser, Strip(endpoint)) == Some(tree + [c] + rest)
    ensures Guard(parser, endpoint, Some(tree)).None?
  {
    var path := tree + [c] + rest;
    assert path[|tree|] == c && path != tree;
    TreeExactly(path, tree);
  }

  /** For every accepted endpoint, whatever it contains: it is resolved as written exactly when, after
      stripping, it names no authority and its path has no parent segment. That holds whenever there is
      nothing to strip, no query, no fragment and no authority. */
  lemma AcceptedPopsNothing(parser: Parser, endpoint: string, prefix: Option<string>)
    requires Ordinary(parser) && Guard(parser, endpoint, prefix).Some?
    ensures prefix.Some? ==> InTree(Guard(parser, endpoint, prefix).value, prefix.value)
    ensures var t := Strip(endpoint);
            Guard(parser, endpoint, prefix).value == AsWritten(parser, t) <==>
            !NamesAuthority(t) && NoParents(PathSegments(t))
    ensures Strip(endpoint) == endpoint == PathPart(endpoint) && !NamesAuthority(endpoint) ==>
              Guard(parser, endpoint, prefix).value == AsWritten(parser, endpoint)
  {
    StripKeepsSlash(endpoint);
    ResolvedAsWritten(parser, Strip(endpoint));
    if prefix.Some? {
      TreeExactly(Guard(parser, endpoint, prefix).value, prefix.value);
    }
    if PathPart(endpoint) == endpoint {
      ShownParents(endpoint);
    }
  }

  /** Without a query the check sees every parent segment of the text it reads. */
  lemma ShownParents(endpoint: string)
    requires PathPart(endpoint) == endpoint && !HasTraversal(endpoint)
    ensures NoParents(PathSegments(endpoint))
  {
    var own := PathSegments(endpoint);
    forall i | 0 <= i < |own| ensures !IsParent(own[i]) {
      assert own[i] == Segments(endpoint)[i + 1];
      DoubleDotIsParent(own[i]);
    }
  }

  /** The path a request is made for shows an encoded separator. */
  predicate ShowsSeparator(path: string) {
    Shows(path, SLASH) || Shows(path, BACKSLASH)
  }

  lemma SeparatorShows(t: string)
    ensures HasEncodedSeparator(t) <==> ShowsSeparator(PathPart(t))
  {
    assert LowerEscape(SLASH) == "%2f" && LowerEscape(BACKSLASH) == "%5c";
  }

  /** An accepted endpoint brings an encoded separator into the path only if the stripped text has one, and
      so never when there is nothing to strip; resolved as written, it brings every one the text has. */
  lemma AcceptedShowsSeparator(parser: Parser, endpoint: string, prefix: Option<string>)
    requires Ordinary(parser) && Guard(parser, endpoint, prefix).Some?
    ensures var path, t := Guard(parser, endpoint, prefix).value, Strip(endpoint);
            && (ShowsSeparator(path) ==> HasEncodedSeparator(t))
            && (t == endpoint ==> !ShowsSeparator(path))
            && (!NamesAuthority(t) && NoParents(PathSegments(t)) ==>
                  (ShowsSeparator(path) <==> HasEncodedSeparator(t)))
  {
    StripKeepsSlash(endpoint);
    var t := Strip(endpoint);
    SeparatorShows(t);
    ResolvedAsWritten(parser, t);
    ResolvedShows(parser, t, SLASH);
    ResolvedShows(parser, t, BACKSLASH);
  }

  // ---- Endpoints that are not resolved as written -------------------------------------------

  lemma NoPercent(s: string, b: Byte)
    requires forall i | 0 <= i < |s| :: s[i] != '%'
    ensures !Contains(Lower(s), LowerEscape(b))
  {
    if Contains(Lower(s), LowerEscape(b)) {
      var i :| 0 <= i <= |Lower(s)| && OccursAt(Lower(s), LowerEscape(b), i);
      assert s + "" == s;
      EscapeStartsLater(s, "", b, i);
    }
  }

  /** Texts with no `%`, `?` or `#` have no encoded separator. */
  lemma PlainText(s: string)
    requires forall i | 0 <= i < |s| :: s[i] != '%'
    ensures !HasEncodedSeparator(s)
  {
    PathPartChars(s);
    NoPercent(PathPart(s), SLASH);
    NoPercent(PathPart(s), BACKSLASH);
    assert LowerEscape(SLASH) == "%2f" && LowerEscape(BACKSLASH) == "%5c";
  }

  lemma {:induction false} PathPartChars(s: string)
    requires forall i | 0 <= i < |s| :: s[i] != '%'
    ensures forall i | 0 <= i < |PathPart(s)| :: PathPart(s)[i] != '%'
  {
    if PathPart(s) != "" {
      PathPartChars(s[1..]);
    }
  }

  lemma RootSegments(segment: string)
    requires NoSeparators(segment)
    ensures Segments("/" + segment) == ["", segment]
  {
    OneSegment(segment);
    SegmentsSplit("", segment);
    assert "" + "/" + segment == "/" + segment;
  }

  /** A plain name: kept by the parser, without escapes, and no dots. */
  predicate IsName(s: string) {
    s != "" && NoEscapes(s) && !IsParent(s) && !IsCurrent(s)
  }

  predicate NoEscapes(s: string) {
    forall i | 0 <= i < |s| :: IsUnreservedChar(s[i])
  }

  /** Dots are spelled with unreserved characters and `%` only. */
  lemma {:induction false} SpelledChars(s: string, n: nat)
    requires SpellsDots(s, n)
    ensures AllKept(s)
    decreases n
  {
    if n > 0 {
      if s[0] == '.' {
        SpelledChars(s[1..], n - 1);
        assert s == [s[0]] + s[1..];
      } else {
        SpelledChars(s[3..], n - 1);
        assert s == [s[0], s[1], s[2]] + s[3..];
      }
    }
  }

  lemma OtherCharIsNoParent(s: string, i: nat)
    requires i < |s| && !IsEncodedChar(s[i])
    ensures !IsDoubleDot(s)
  {
    DoubleDotIsParent(s);
    if IsParent(s) {
      SpelledChars(s, 2);
    }
  }

  /** A query hides a parent segment that ends the path. */
  lemma ParentBeforeQuery(parser: Parser, dots: string)
    requires Ordinary(parser) && IsParent(dots) && NoEscapes(dots)
    ensures var endpoint := "/" + dots + "?";
            Guard(parser, endpoint, None) == Some("/") && AsWritten(parser, endpoint) == "/" + dots
  {
    var endpoint := "/" + dots + "?";
    assert dots != "" && endpoint[1] == dots[0];
    QueryText(dots);
    PlainText(endpoint);
    NothingToStrip(endpoint);
    FixedSegments();
    DoubleDotIsParent("");
    OtherCharIsNoParent(dots + "?", |dots|);
    assert !HasTraversal(endpoint);
    ParentAlone(parser, dots);
  }

  lemma QueryText(dots: string)
    requires NoEscapes(dots)
    ensures var endpoint := "/" + dots + "?";
            Segments(endpoint) == ["", dots + "?"] && PathSegments(endpoint) == [dots]
  {
    RootSegments(dots + "?");
    RootSegments(dots);
    assert "/" + (dots + "?") == "/" + dots + "?";
    PathPartConcat("/" + dots, "?");
    assert PathPart("/" + dots + "?") == "/" + dots + "" == "/" + dots;
    assert ["", dots][1..] == [dots];
  }

  lemma ParentAlone(parser: Parser, dots: string)
    requires Ordinary(parser) && IsParent(dots) && NoEscapes(dots)
    ensures PathOf(parser, [dots]) == "/" && PathText(DropDots(ReencodeAll(parser, [dots]))) == "/" + dots
  {
    NothingToReencode(parser, dots);
    assert ReencodeAll(parser, [dots]) == [dots];
    DotsDiffer(dots);
    assert [dots][1..] == [];
    assert PathState([], [dots]) == [""];
    assert DropDots([dots]) == [dots] + [];
    OneText("");
    OneText(dots);
  }

  lemma OneText(segment: string)
    ensures PathText([segment]) == "/" + segment
  {
    assert [segment][1..] == [] && "/" + segment + "" == "/" + segment;
  }

  /** A tab inside a parent segment hides it from the check, and the parser removes the tab. */
  lemma ParentAroundTab(parser: Parser, a: string, x: string, y: string, b: string)
    requires Ordinary(parser) && IsName(a) && IsName(b) && NoEscapes(x) && NoEscapes(y) && IsParent(x + y)
    ensures var endpoint := "/" + a + "/" + x + "\t" + y + "/" + b;
            && Guard(parser, endpoint, None) == Some("/" + b)
            && AsWritten(parser, Strip(endpoint)) == "/" + a + "/" + (x + y) + "/" + b
  {
    var endpoint := "/" + a + "/" + x + "\t" + y + "/" + b;
    var dots := x + "\t" + y;
    TabText(a, x, y, b);
    PlainText(endpoint);
    OtherCharIsNoParent(dots, |x|);
    TabPasses(endpoint, a, dots, b);
    assert "/" + a + "/" + (x + y) + "/" + b == Strip(endpoint);
    assert Strip(endpoint)[1] == a[0];
    ParentBetween(parser, a, x + y, b);
  }

  lemma TabInstance(parser: Parser, endpoint: string)
    requires Ordinary(parser) && endpoint == "/a/.\t./b"
    ensures Guard(parser, endpoint, None) == Some("/b")
  {
    var a, dot, b := Letters(endpoint);
    ParentAroundTab(parser, a, dot, dot, b);
    assert "/" + b == "/b";
  }

  lemma Letters(endpoint: string) returns (a: string, dot: string, b: string)
    requires endpoint == "/a/.\t./b"
    ensures a == "a" && b == "b" && IsName(a) && IsName(b) && NoEscapes(dot) && IsParent(dot + dot)
    ensures endpoint == "/" + a + "/" + dot + "\t" + dot + "/" + b
  {
    a, dot, b := ['a'], ['.'], ['b'];
    LetterIsName('a');
    LetterIsName('b');
    TwoDotsAreParent('.');
  }

  lemma LetterIsName(c: char)
    requires IsAsciiAlphanumeric(c)
    ensures IsName([c])
  {
  }

  lemma TwoDotsAreParent(dot: char)
    requires dot == '.'
    ensures IsParent([dot] + [dot]) && NoEscapes([dot])
  {
    var s := [dot] + [dot];
    assert s[1..] == [dot] && s[1..][1..] == "";
    assert SpellsDots(s[1..][1..], 0) && SpellsDots(s[1..], 1);
  }

  lemma TabPasses(endpoint: string, a: string, dots: string, b: string)
    requires Segments(endpoint) == ["", a, dots, b] && !IsDoubleDot(dots) && IsName(a) && IsName(b)
    ensures !HasTraversal(endpoint)
  {
    FixedSegments();
    DoubleDotIsParent("");
    DoubleDotIsParent(a);
    DoubleDotIsParent(b);
  }

  lemma TabText(a: string, x: string, y: string, b: string)
    requires NoEscapes(a) && NoEscapes(x) && NoEscapes(y) && NoEscapes(b) && b != ""
    ensures var endpoint := "/" + a + "/" + x + "\t" + y + "/" + b;
            && Segments(endpoint) == ["", a, x + "\t" + y, b]
            && Strip(endpoint) == "/" + a + "/" + (x + y) + "/" + b
            && PathSegments(Strip(endpoint)) == [a, x + y, b]
  {
    TabStrips(a, x, y, b);
    PathSplit(a, x + "\t" + y, b);
    assert "/" + a + "/" + (x + "\t" + y) + "/" + b == "/" + a + "/" + x + "\t" + y + "/" + b;
    PathSplit(a, x + y, b);
    NoQuery("/" + a + "/" + (x + y) + "/" + b);
    assert ["", a, x + y, b][1..] == [a, x + y, b];
  }

  lemma PathSplit(a: string, b: string, c: string)
    requires NoSeparators(a) && NoSeparators(b) && NoSeparators(c)
    ensures Segments("/" + a + "/" + b + "/" + c) == ["", a, b, c]
  {
    FourSegments(a, b, c);
    assert "/" + a + "/" + b + "/" + c == "" + "/" + (a + "/" + (b + "/" + c));
  }

  lemma TabStrips(a: string, x: string, y: string, b: string)
    requires NoEscapes(a) && NoEscapes(x) && NoEscapes(y) && NoEscapes(b) && b != ""
    ensures Strip("/" + a + "/" + x + "\t" + y + "/" + b) == "/" + a + "/" + (x + y) + "/" + b
  {
    var front, back := "/" + a + "/" + x, y + "/" + b;
    var endpoint := "/" + a + "/" + x + "\t" + y + "/" + b;
    assert endpoint == front + "\t" + back && "/" + a + "/" + (x + y) + "/" + b == front + back;
    TabDrops(front, back);
    assert endpoint[0] == '/' && endpoint[|endpoint| - 1] == b[|b| - 1] > ' ';
  }

  lemma {:induction false} TabDrops(a: string, b: string)
    requires (forall i | 0 <= i < |a| :: a[i] > ' ') && (forall i | 0 <= i < |b| :: b[i] > ' ')
    ensures DropNewlines(a + "\t" + b) == a + b
  {
    var s := a + "\t" + b;
    if a == "" {
      assert s[0] == '\t' && s[1..] == b;
      NothingToDrop(b);
      assert a + b == b;
    } else {
      assert s[0] == a[0] && s[1..] == a[1..] + "\t" + b;
      TabDrops(a[1..], b);
      assert [a[0]] + (a[1..] + b) == a + b;
    }
  }

  lemma ParentBetween(parser: Parser, a: string, dots: string, b: string)
    requires Ordinary(parser) && IsName(a) && IsName(b) && IsParent(dots) && NoEscapes(dots)
    ensures PathOf(parser, [a, dots, b]) == "/" + b
    ensures PathText(DropDots(ReencodeAll(parser, [a, dots, b]))) == "/" + a + "/" + dots + "/" + b
  {
    NothingToReencode(parser, a);
    NothingToReencode(parser, dots);
    NothingToReencode(parser, b);
    assert ReencodeAll(parser, [a, dots, b]) == [a, dots, b];
    DotsDiffer(dots);
    ParentPops(a, dots, b);
    ThreeDrop(a, dots, b);
    ThreeSegments(a, dots, b);
  }

  lemma ParentPops(a: string, dots: string, b: string)
    requires IsName(a) && IsName(b) && IsParent(dots)
    ensures PathText(PathState([], [a, dots, b])) == "/" + b
  {
    assert [a, dots, b][1..] == [dots, b] && [dots, b][1..] == [b] && [b][1..] == [];
    assert [] + [a] == [a] && [a][..0] == [];
    assert PathState([], [b]) == [b];
    OneText(b);
    assert PathState([a], [dots, b]) == PathState([], [b]);
  }

  // ---- Endpoints built from an action id ----------------------------------------------------

  const TREE := "/nvue_v1"
  const ACTIONS := "/nvue_v1/action/"

  /** The endpoint of an action job. */
  function ActionEndpoint(id: seq<Byte>): string {
    ACTIONS + PercentEncode(id)
  }

  lemma ActionSegments(id: seq<Byte>)
    ensures Segments(ActionEndpoint(id)) == ["", "nvue_v1", "action", PercentEncode(id)]
  {
    var e := PercentEncode(id);
    EncodedChars(id);
    var a, b := FixedNames(e);
    FourSegments(a, b, e);
  }

  /** The fixed names of an action path, and the two ways to write the path with a last segment. */
  lemma FixedNames(e: string) returns (a: string, b: string)
    ensures a == "nvue_v1" && b == "action" && NoSeparators(a) && NoSeparators(b) && AllKept(a) && AllKept(b)
    ensures ACTIONS + e == "" + "/" + (a + "/" + (b + "/" + e))
    ensures ACTIONS + e == "/" + a + "/" + b + "/" + e
  {
    a, b := "nvue_v1", "action";
  }

  lemma FourSegments(a: string, b: string, c: string)
    requires NoSeparators(a) && NoSeparators(b) && NoSeparators(c)
    ensures Segments("" + "/" + (a + "/" + (b + "/" + c))) == ["", a, b, c]
  {
    OneSegment(c);
    SegmentsSplit(b, c);
    SegmentsSplit(a, b + "/" + c);
    SegmentsSplit("", a + "/" + (b + "/" + c));
    assert [""] + ([a] + ([b] + [c])) == ["", a, b, c];
  }

  /** The parser reads an action endpoint as it is: nothing to strip, no authority, no query. */
  lemma ActionIsPlain(id: seq<Byte>)
    ensures var s := ActionEndpoint(id);
            s[0] == '/' && !NamesAuthority(s) && Strip(s) == s && PathPart(s) == s
  {
    ActionChars(id);
    NothingToStrip(ActionEndpoint(id));
    NoQuery(ActionEndpoint(id));
  }

  lemma ActionChars(id: seq<Byte>)
    ensures var s := ActionEndpoint(id);
            && |s| >= 2 && s[0] == '/' && !IsSeparator(s[1])
            && forall i | 0 <= i < |s| :: s[i] > ' ' && s[i] != '?' && s[i] != '#'
  {
    var s, e := ActionEndpoint(id), PercentEncode(id);
    EncodedChars(id);
    FixedChars();
    forall i | 0 <= i < |s| ensures s[i] > ' ' && s[i] != '?' && s[i] != '#' {
      if i >= |ACTIONS| {
        assert s[i] == e[i - |ACTIONS|];
      } else {
        assert s[i] == ACTIONS[i];
      }
    }
  }

  lemma FixedChars()
    ensures forall i | 0 <= i < |ACTIONS| :: ACTIONS[i] > ' ' && ACTIONS[i] != '?' && ACTIONS[i] != '#'
  {
  }

  function Dots(n: nat): seq<Byte> {
    if n == 0 then [] else [DOT] + Dots(n - 1)
  }

  /** An encoded id spells dots only when the id is written with dots. */
  lemma {:induction false} EncodedSpells(id: seq<Byte>, n: nat)
    ensures SpellsDots(PercentEncode(id), n) <==> id == Dots(n)
  {
    if id != [] && n > 0 {
      var b, e := id[0], PercentEncode(id);
      EncodedSpells(id[1..], n - 1);
      assert id == [b] + id[1..];
      assert Dots(n)[0] == DOT && Dots(n)[1..] == Dots(n - 1);
      if IsUnreserved(b) {
        assert e[0] == b as char && e[1..] == PercentEncode(id[1..]);
      } else {
        assert e[0] == '%' && e[1] == HexDigit(b / 16) && e[2] == HexDigit(b % 16);
        EscapeOfDot(b);
      }
    }
  }

  lemma EncodedDots(id: seq<Byte>)
    ensures IsParent(PercentEncode(id)) <==> id == [DOT, DOT]
    ensures IsCurrent(PercentEncode(id)) <==> id == [DOT]
  {
    EncodedSpells(id, 1);
    EncodedSpells(id, 2);
    assert Dots(1) == [DOT] && Dots(2) == [DOT] + Dots(1);
  }

  lemma ActionEncodedSeparator(id: seq<Byte>)
    ensures HasEncodedSeparator(ActionEndpoint(id)) <==> SLASH in id || BACKSLASH in id
  {
    var s := ActionEndpoint(id);
    ActionIsPlain(id);
    assert LowerEscape(SLASH) == "%2f" && LowerEscape(BACKSLASH) == "%5c";
    ShowsInEndpoint(id, SLASH);
    ShowsInEndpoint(id, BACKSLASH);
  }

  lemma ShowsInEndpoint(id: seq<Byte>, b: Byte)
    requires !IsUnreserved(b)
    ensures Contains(Lower(ActionEndpoint(id)), LowerEscape(b)) <==> b in id
  {
    var e := PercentEncode(id);
    var s := Lower(ActionEndpoint(id));
    EscapeShows(id, b);
    LowerConcat(ACTIONS, e);
    if Contains(s, LowerEscape(b)) {
      var i :| 0 <= i <= |s| && OccursAt(s, LowerEscape(b), i);
      EscapeStartsLater(ACTIONS, e, b, i);
      assert OccursAt(Lower(e), LowerEscape(b), i - |ACTIONS|);
    }
    if b in id {
      ContainsInside(Lower(ACTIONS), Lower(e), "", LowerEscape(b));
      assert Lower(ACTIONS) + Lower(e) + "" == s;
    }
  }

  lemma FixedSegments()
    ensures !IsParent("") && !IsParent("nvue_v1") && !IsParent("action")
    ensures !IsCurrent("nvue_v1") && !IsCurrent("action")
  {
  }

  lemma ActionTraversal(id: seq<Byte>)
    ensures HasTraversal(ActionEndpoint(id)) <==> id == [DOT, DOT]
  {
    var segments := Segments(ActionEndpoint(id));
    ActionSegments(id);
    EncodedDots(id);
    FixedSegments();
    forall i | 0 <= i < |segments| ensures IsDoubleDot(segments[i]) <==> IsParent(segments[i]) {
      DoubleDotIsParent(segments[i]);
    }
    assert segments[3] == PercentEncode(id);
  }

  lemma ActionResolves(parser: Parser, id: seq<Byte>)
    requires Ordinary(parser) && id != [DOT, DOT]
    ensures Resolve(parser, ActionEndpoint(id)) == Some(if id == [DOT] then ACTIONS else ActionEndpoint(id))
  {
    var e := PercentEncode(id);
    ActionIsPlain(id);
    ActionSegments(id);
    EncodedDots(id);
    FixedSegments();
    EncodedChars(id);
    var a, b := FixedNames(e);
    var _, _ := FixedNames("");
    assert PathSegments(ActionEndpoint(id)) == [a, b, e];
    ThreeResolve(parser, a, b, e);
    assert ACTIONS + "" == ACTIONS;
  }

  predicate AllKept(s: string) {
    forall i | 0 <= i < |s| :: IsEncodedChar(s[i])
  }

  lemma ThreeResolve(parser: Parser, a: string, b: string, c: string)
    requires Ordinary(parser) && AllKept(a) && AllKept(b) && AllKept(c)
    requires !IsParent(a) && !IsParent(b) && !IsParent(c) && !IsCurrent(a) && !IsCurrent(b)
    ensures PathOf(parser, [a, b, c]) == "/" + a + "/" + b + "/" + (if IsCurrent(c) then "" else c)
  {
    var last := if IsCurrent(c) then "" else c;
    NothingToReencode(parser, a);
    NothingToReencode(parser, b);
    NothingToReencode(parser, c);
    assert ReencodeAll(parser, [a, b, c]) == [a, b, c];
    NothingPopped([], [a, b, c]);
    ThreeDrop(a, b, c);
    assert [] + [a, b, last] == [a, b, last];
    ThreeSegments(a, b, last);
  }

  lemma ThreeDrop(a: string, b: string, c: string)
    requires !IsCurrent(a) && !IsCurrent(b)
    ensures DropDots([a, b, c]) == [a, b, if IsCurrent(c) then "" else c]
  {
    assert [a, b, c][1..] == [b, c] && [b, c][1..] == [c] && [c][1..] == [];
    var last := if IsCurrent(c) then "" else c;
    assert DropDots([c]) == [last];
    assert DropDots([b, c]) == [b, last];
  }

  lemma ThreeSegments(a: string, b: string, c: string)
    ensures PathText([a, b, c]) == "/" + a + "/" + b + "/" + c
  {
    assert [a, b, c][1..] == [b, c] && [b, c][1..] == [c] && [c][1..] == [];
    assert PathText([c]) == "/" + c;
    assert PathText([b, c]) == "/" + b + ("/" + c);
    assert PathText([a, b, c]) == "/" + a + ("/" + b + ("/" + c));
  }

  lemma ActionsWithin(e: string)
    ensures Within(ACTIONS + e, Some(TREE))
  {
    assert TREE + "/" <= ACTIONS <= ACTIONS + e;
  }

  /** The endpoint of an action is accepted exactly when its id has no separator and is not `..`. */
  lemma AcceptedExactlyWhen(parser: Parser, id: seq<Byte>)
    requires Ordinary(parser)
    ensures Guard(parser, ActionEndpoint(id), Some(TREE)).Some? <==>
            SLASH !in id && BACKSLASH !in id && id != [DOT, DOT]
  {
    ActionIsPlain(id);
    ActionEncodedSeparator(id);
    ActionTraversal(id);
    if id != [DOT, DOT] {
      ActionResolves(parser, id);
      ActionsWithin("");
      ActionsWithin(PercentEncode(id));
      assert ACTIONS + "" == ACTIONS;
    }
  }

  lemma TailOf(front: string, rest: string)
    ensures (front + rest)[|front|..] == rest
  {
  }

  lemma ActionLastSegment(id: seq<Byte>)
    ensures var last := ActionEndpoint(id)[|ACTIONS|..];
            PercentDecode(last) == Some(id) && NoSeparators(last)
  {
    DecodeEncode(id);
    EncodedChars(id);
    TailOf(ACTIONS, PercentEncode(id));
  }

  /** An accepted endpoint is requested as built, and its last segment stands for the id; only the id
      `.` is lost, to the path of its parent. */
  lemma AcceptedNamesTheId(parser: Parser, id: seq<Byte>)
    requires Ordinary(parser) && Guard(parser, ActionEndpoint(id), Some(TREE)).Some?
    ensures var path := Guard(parser, ActionEndpoint(id), Some(TREE)).value;
            if id == [DOT] then path == ACTIONS
            else path == ActionEndpoint(id) && PercentDecode(path[|ACTIONS|..]) == Some(id)
                 && NoSeparators(path[|ACTIONS|..])
  {
    AcceptedExactlyWhen(parser, id);
    ActionIsPlain(id);
    ActionResolves(parser, id);
    ActionLastSegment(id);
  }
}
