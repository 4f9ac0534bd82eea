/**
 Redaction of literal secrets in log text: how the literals are ordered and guarded, and what a
 leftmost-first scan with the resulting alternation replaces.
 */
module LogSanitizer {
  import opened Text

  predicate IsWordChar(c: char) {
    IsAsciiAlphanumeric(c) || c == '_'
  }

  // ---- Building the alternation -------------------------------------------------------------

  /** A literal and the sides on which it must end at a word boundary. */
  datatype Pattern = Pattern(literal: string, guardLeft: bool, guardRight: bool)

  function PatternOf(s: string): Pattern
    requires s != ""
  {
    Pattern(s, IsWordChar(s[0]), IsWordChar(s[|s| - 1]))
  }

  /** Bytes of a character in UTF-8. */
  function Utf8Width(c: char): nat {
    var n := c as int;
    if n < 0x80 then 1 else if n < 0x800 then 2 else if n < 0x1_0000 then 3 else 4
  }

  lemma WidthExactly(c: char)
    ensures Utf8Width(c) == |Utf8(c)|
  {
  }

  /** The length of a text in bytes. */
  function ByteLen(s: string): nat {
    if s == "" then 0 else Utf8Width(s[0]) + ByteLen(s[1..])
  }

  predicate LexicallyAtMost(a: string, b: string) {
    a == "" || (b != "" && (a[0] < b[0] || (a[0] == b[0] && LexicallyAtMost(a[1..], b[1..]))))
  }

  /** Longer literals come first; literals of one length come in lexical order. */
  predicate Precedes(a: string, b: string) {
    ByteLen(a) > ByteLen(b) || (ByteLen(a) == ByteLen(b) && LexicallyAtMost(a, b))
  }

  function InsertLiteral(x: string, s: seq<string>): seq<string> {
    if s == [] || Precedes(x, s[0]) then [x] + s else [s[0]] + InsertLiteral(x, s[1..])
  }

  /** The non-empty literals in order of precedence. */
  function Ordered(list: seq<string>): seq<string> {
    if list == [] then []
    else if list[0] == "" then Ordered(list[1..])
    else InsertLiteral(list[0], Ordered(list[1..]))
  }

  predicate LongestFirst(s: seq<string>) {
    forall i, j | 0 <= i < j < |s| :: ByteLen(s[i]) >= ByteLen(s[j])
  }

  predicate NonEmpty(s: seq<string>) {
    forall i | 0 <= i < |s| :: s[i] != ""
  }

  lemma {:induction false} InsertedLiterals(x: string, s: seq<string>)
    ensures forall l :: l in InsertLiteral(x, s) <==> l == x || l in s
  {
    if s != [] && !Precedes(x, s[0]) {
      InsertedLiterals(x, s[1..]);
      assert s == [s[0]] + s[1..];
    }
  }

  lemma {:induction false} InsertKeepsOrder(x: string, s: seq<string>)
    requires LongestFirst(s)
    ensures LongestFirst(InsertLiteral(x, s))
  {
    if s == [] || Precedes(x, s[0]) {
    } else {
      InsertKeepsOrder(x, s[1..]);
      InsertedLiterals(x, s[1..]);
      var t := InsertLiteral(x, s[1..]);
      forall j | 0 <= j < |t| ensures ByteLen(s[0]) >= ByteLen(t[j]) {
        assert t[j] in t;
        if t[j] != x {
          var k :| 0 <= k < |s[1..]| && s[1..][k] == t[j];
          assert s[k + 1] == t[j];
        }
      }
    }
  }

  /** `a` is a beginning of `b`, or smaller where they first differ. */
  ghost predicate FirstDiffers(a: string, b: string) {
    a <= b || exists k: nat :: k < |a| && k < |b| && a[..k] == b[..k] && a[k] < b[k]
  }

  lemma {:induction false} LexicalExactly(a: string, b: string)
    ensures LexicallyAtMost(a, b) <==> FirstDiffers(a, b)
  {
    if a != "" && b != "" && a[0] == b[0] {
      LexicalExactly(a[1..], b[1..]);
      DiffersLater(a, b);
    } else if a != "" && b != "" {
      if a[0] < b[0] {
        assert a[..0] == b[..0];
      }
      if FirstDiffers(a, b) && !(a <= b) {
        var k: nat :| k < |a| && k < |b| && a[..k] == b[..k] && a[k] < b[k];
        assert k > 0 ==> a[..k][0] == b[..k][0];
      }
    }
  }

  lemma DiffersLater(a: string, b: string)
    requires a != "" && b != "" && a[0] == b[0]
    ensures FirstDiffers(a, b) <==> FirstDiffers(a[1..], b[1..])
  {
    assert a == [a[0]] + a[1..] && b == [b[0]] + b[1..];
    assert a <= b <==> a[1..] <= b[1..];
    if k: nat :| k < |a| && k < |b| && a[..k] == b[..k] && a[k] < b[k] {
      assert a[1..][..k - 1] == a[..k][1..] && b[1..][..k - 1] == b[..k][1..];
      assert a[1..][k - 1] == a[k] && b[1..][k - 1] == b[k];
    }
    if k: nat :| k < |a[1..]| && k < |b[1..]| && a[1..][..k] == b[1..][..k] && a[1..][k] < b[1..][k] {
      assert a[..k + 1] == [a[0]] + a[1..][..k] && b[..k + 1] == [b[0]] + b[1..][..k];
      assert a[k + 1] == a[1..][k] && b[k + 1] == b[1..][k];
    }
  }

  lemma {:induction false} LexicalTotal(a: string, b: string)
    ensures LexicallyAtMost(a, b) || LexicallyAtMost(b, a)
  {
    if a != "" && b != "" && a[0] == b[0] {
      LexicalTotal(a[1..], b[1..]);
    }
  }

  /** More bytes, or as many and lexically no larger. */
  ghost predicate Before(a: string, b: string) {
    ByteLen(a) > ByteLen(b) || (ByteLen(a) == ByteLen(b) && FirstDiffers(a, b))
  }

  lemma BeforeExactly(a: string, b: string)
    ensures Precedes(a, b) <==> Before(a, b)
    ensures !Precedes(a, b) ==> Before(b, a)
  {
    LexicalExactly(a, b);
    LexicalExactly(b, a);
    LexicalTotal(a, b);
  }

  ghost predicate InOrder(s: seq<string>) {
    forall i | 0 <= i < |s| - 1 :: Before(s[i], s[i + 1])
  }

  lemma InOrderCons(x: string, s: seq<string>)
    requires InOrder(s) && (s != [] ==> Before(x, s[0]))
    ensures InOrder([x] + s)
  {
    var r := [x] + s;
    forall i | 0 <= i < |r| - 1 ensures Before(r[i], r[i + 1]) {
      assert i > 0 ==> Before(s[i - 1], s[i]);
    }
  }

  lemma {:induction false} InsertInOrder(x: string, s: seq<string>)
    requires InOrder(s)
    ensures InOrder(InsertLiteral(x, s))
    ensures InsertLiteral(x, s)[0] == x || (s != [] && InsertLiteral(x, s)[0] == s[0])
  {
    if s == [] || Precedes(x, s[0]) {
      if s != [] {
        BeforeExactly(x, s[0]);
      }
      InOrderCons(x, s);
    } else {
      assert InOrder(s[1..]) by {
        assert forall i | 0 <= i < |s[1..]| - 1 :: s[1..][i] == s[i + 1] && Before(s[i + 1], s[i + 2]);
      }
      InsertInOrder(x, s[1..]);
      BeforeExactly(x, s[0]);
      assert s[1..] != [] ==> Before(s[0], s[1]);
      InOrderCons(s[0], InsertLiteral(x, s[1..]));
    }
  }

  lemma {:induction false} InsertKeepsAll(x: string, s: seq<string>)
    ensures multiset(InsertLiteral(x, s)) == multiset(s) + multiset{x}
  {
    if s != [] && !Precedes(x, s[0]) {
      InsertKeepsAll(x, s[1..]);
      assert s == [s[0]] + s[1..];
    }
  }

  /** Ordering keeps every non-empty literal as often as it is listed, by bytes and then lexically. */
  lemma {:induction false} OrderedExactly(list: seq<string>)
    ensures InOrder(Ordered(list))
    ensures forall l :: multiset(Ordered(list))[l] == if l == "" then 0 else multiset(list)[l]
  {
    if list != [] {
      OrderedExactly(list[1..]);
      assert list == [list[0]] + list[1..];
      if list[0] != "" {
        InsertInOrder(list[0], Ordered(list[1..]));
        InsertKeepsAll(list[0], Ordered(list[1..]));
      }
    }
  }

  /** Ordering keeps exactly the non-empty literals, longest first. */
  lemma {:induction false} OrderedLiterals(list: seq<string>)
    ensures LongestFirst(Ordered(list)) && NonEmpty(Ordered(list))
    ensures forall l :: l in Ordered(list) <==> l in list && l != ""
  {
    if list != [] {
      OrderedLiterals(list[1..]);
      assert list == [list[0]] + list[1..];
      if list[0] != "" {
        InsertKeepsOrder(list[0], Ordered(list[1..]));
        InsertedLiterals(list[0], Ordered(list[1..]));
        forall i | 0 <= i < |Ordered(list)| ensures Ordered(list)[i] != "" {
          assert Ordered(list)[i] in Ordered(list);
        }
      }
    }
  }

  function Patterns(ordered: seq<string>): seq<Pattern>
    requires NonEmpty(ordered)
  {
    seq(|ordered|, i requires 0 <= i < |ordered| => PatternOf(ordered[i]))
  }

  /** The loop that turns the ordered literals into guarded patterns. */
  method BuildPatterns(ordered: seq<string>) returns (patterns: seq<Pattern>)
    requires NonEmpty(ordered)
    ensures patterns == Patterns(ordered)
  {
    patterns := [];
    for i := 0 to |ordered|
      invariant patterns == Patterns(ordered)[..i]
    {
      var s := ordered[i];
      var guardLeft, guardRight := false, false;
      if IsWordChar(s[0]) { guardLeft := true; }
      if IsWordChar(s[|s| - 1]) { guardRight := true; }
      patterns := patterns + [Pattern(s, guardLeft, guardRight)];
    }
  }

  // ---- Matching -----------------------------------------------------------------------------

  predicate WordAt(s: string, i: int) {
    0 <= i < |s| && IsWordChar(s[i])
  }

  /** Position `p` lies between a word character and something else. */
  predicate Boundary(s: string, p: nat) {
    WordAt(s, p - 1) != WordAt(s, p)
  }

  predicate MatchesAt(pat: Pattern, s: string, p: nat) {
    && OccursAt(s, pat.literal, p)
    && (pat.guardLeft ==> Boundary(s, p))
    && (pat.guardRight ==> Boundary(s, p + |pat.literal|))
  }

  /** `literal` occurs at `p` and is not part of a larger word on a side where it is a word itself. */
  predicate Guarded(literal: string, s: string, p: nat) {
    && literal != "" && OccursAt(s, literal, p)
    && (WordAt(s, p) ==> !WordAt(s, p - 1))
    && (WordAt(s, p + |literal| - 1) ==> !WordAt(s, p + |literal|))
  }

  /** A letter, a digit or an underscore is at `i`. */
  predicate LetterAt(s: string, i: int) {
    0 <= i < |s| && ('a' <= s[i] <= 'z' || 'A' <= s[i] <= 'Z' || '0' <= s[i] <= '9' || s[i] == '_')
  }

  /** The boundary assertions say just that: a literal that begins or ends with a letter, a digit or an
      underscore has none next to it on that side. */
  lemma PatternIsGuard(literal: string, s: string, p: nat)
    requires literal != ""
    ensures MatchesAt(PatternOf(literal), s, p) <==> Guarded(literal, s, p)
    ensures Guarded(literal, s, p) <==>
            && OccursAt(s, literal, p)
            && !(LetterAt(s, p - 1) && LetterAt(s, p))
            && !(LetterAt(s, p + |literal| - 1) && LetterAt(s, p + |literal|))
  {
    if OccursAt(s, literal, p) {
      assert s[p] == literal[0] by { assert s[p..p + |literal|][0] == literal[0]; }
      var n := |literal| - 1;
      assert s[p + n] == literal[n] by { assert s[p..p + |literal|][n] == literal[n]; }
    }
  }

  /** The first listed literal with a guarded occurrence at `p`. */
  function FirstAt(lits: seq<string>, s: string, p: nat): (r: Option<string>)
    ensures r.Some? ==> r.value != "" && p + |r.value| <= |s|
  {
    if lits == [] then None
    else if Guarded(lits[0], s, p) then Some(lits[0])
    else FirstAt(lits[1..], s, p)
  }

  lemma {:induction false} FirstFound(lits: seq<string>, s: string, p: nat)
    ensures var r := FirstAt(lits, s, p);
            if r.Some? then r.value in lits && Guarded(r.value, s, p)
            else forall l | l in lits :: !Guarded(l, s, p)
  {
    if lits != [] && !Guarded(lits[0], s, p) {
      assert lits == [lits[0]] + lits[1..];
      FirstFound(lits[1..], s, p);
    }
  }

  /** The first alternative that matches at `p`. */
  function FirstPattern(patterns: seq<Pattern>, s: string, p: nat): (r: Option<string>)
    requires forall i | 0 <= i < |patterns| :: patterns[i].literal != ""
    ensures r.Some? ==> r.value != "" && p + |r.value| <= |s|
  {
    if patterns == [] then None
    else if MatchesAt(patterns[0], s, p) then Some(patterns[0].literal)
    else FirstPattern(patterns[1..], s, p)
  }

  lemma {:induction false} FirstByPatterns(lits: seq<string>, s: string, p: nat)
    requires NonEmpty(lits)
    ensures FirstPattern(Patterns(lits), s, p) == FirstAt(lits, s, p)
  {
    if lits != [] {
      PatternIsGuard(lits[0], s, p);
      FirstByPatterns(lits[1..], s, p);
      assert Patterns(lits)[1..] == Patterns(lits[1..]);
    }
  }

  datatype Span = Span(start: nat, literal: string)

  /** The successive matches from `p` on: leftmost first, none overlapping an earlier one. */
  function Spans(lits: seq<string>, s: string, p: nat): seq<Span>
    requires p <= |s|
    decreases |s| - p
  {
    if p == |s| then []
    else match FirstAt(lits, s, p)
      case None => Spans(lits, s, p + 1)
      case Some(l) => [Span(p, l)] + Spans(lits, s, p + |l|)
  }

  /** The scan of the compiled alternation. */
  function ReplaceAll(patterns: seq<Pattern>, s: string, replacement: string, p: nat): string
    requires p <= |s| && forall i | 0 <= i < |patterns| :: patterns[i].literal != ""
    decreases |s| - p
  {
    if p == |s| then ""
    else match FirstPattern(patterns, s, p)
      case None => [s[p]] + ReplaceAll(patterns, s, replacement, p + 1)
      case Some(l) => replacement + ReplaceAll(patterns, s, replacement, p + |l|)
  }

  /** What `sanitize` returns when only literals are configured. */
  function Sanitize(list: seq<string>, replacement: string, s: string): string {
    OrderedLiterals(list);
    ReplaceAll(Patterns(Ordered(list)), s, replacement, 0)
  }

  // ---- Properties ---------------------------------------------------------------------------

  lemma {:induction false} ByteLenConcat(a: string, b: string)
    ensures ByteLen(a + b) == ByteLen(a) + ByteLen(b)
  {
    if a == "" {
      assert a + b == b;
    } else {
      assert (a + b)[1..] == a[1..] + b;
      ByteLenConcat(a[1..], b);
    }
  }

  /** Of two literals at one place the one with more bytes is the longer text. */
  lemma BytesOrderOverlap(a: string, b: string, s: string, p: nat)
    requires OccursAt(s, a, p) && OccursAt(s, b, p) && |a| < |b|
    ensures ByteLen(a) < ByteLen(b)
  {
    assert a == b[..|a|] by {
      assert s[p..p + |b|][..|a|] == s[p..p + |a|];
    }
    assert b == a + b[|a|..];
    ByteLenConcat(a, b[|a|..]);
    assert ByteLen(b[|a|..]) >= 1;
  }

  /** With literals ordered longest first, the first alternative to match is the longest that can. */
  lemma {:induction false} FirstIsLongest(lits: seq<string>, s: string, p: nat, l: string)
    requires LongestFirst(lits) && l in lits && Guarded(l, s, p)
    ensures FirstAt(lits, s, p).Some? && |FirstAt(lits, s, p).value| >= |l|
  {
    if Guarded(lits[0], s, p) {
      var k :| 0 <= k < |lits| && lits[k] == l;
      assert ByteLen(lits[0]) >= ByteLen(l);
      if |lits[0]| < |l| {
        BytesOrderOverlap(lits[0], l, s, p);
      }
    } else {
      assert lits == [lits[0]] + lits[1..];
      FirstIsLongest(lits[1..], s, p, l);
    }
  }

  /** Every replaced span starts where a listed literal occurs, guarded, and no listed literal that
      occurs there is longer. */
  ghost predicate LongestAt(list: seq<string>, s: string, x: Span) {
    && x.literal in list && Guarded(x.literal, s, x.start)
    && forall l | l in list && Guarded(l, s, x.start) :: |l| <= |x.literal|
  }

  lemma ChoiceIsLongest(list: seq<string>, s: string, p: nat)
    requires FirstAt(Ordered(list), s, p).Some?
    ensures LongestAt(list, s, Span(p, FirstAt(Ordered(list), s, p).value))
  {
    var lits := Ordered(list);
    OrderedLiterals(list);
    FirstFound(lits, s, p);
    forall m | m in list && Guarded(m, s, p) ensures |m| <= |FirstAt(lits, s, p).value| {
      FirstIsLongest(lits, s, p, m);
    }
  }

  lemma {:induction false} SpansAreLongest(list: seq<string>, s: string, p: nat)
    requires p <= |s|
    ensures forall x | x in Spans(Ordered(list), s, p) :: LongestAt(list, s, x)
    decreases |s| - p
  {
    if p < |s| {
      SpansUnfold(Ordered(list), s, p);
      match FirstAt(Ordered(list), s, p) {
        case None => SpansAreLongest(list, s, p + 1);
        case Some(l) =>
          ChoiceIsLongest(list, s, p);
          SpansAreLongest(list, s, p + |l|);
      }
    }
  }

  /** The span takes the first character of an occurrence, and all of it when both start there. */
  predicate Takes(x: Span, p: nat, literal: string) {
    x.start <= p < x.start + |x.literal| && (x.start == p ==> |literal| <= |x.literal|)
  }

  /** An occurrence at `p` is taken by the span that starts there. */
  lemma TakenHere(lits: seq<string>, s: string, p: nat, literal: string)
    requires LongestFirst(lits) && literal in lits && Guarded(literal, s, p)
    ensures p < |s| && FirstAt(lits, s, p).Some?
    ensures Takes(Span(p, FirstAt(lits, s, p).value), p, literal)
  {
    FirstIsLongest(lits, s, p, literal);
  }

  lemma {:induction false} OccurrencesAreTaken(lits: seq<string>, s: string, p: nat, literal: string, at: nat)
    returns (x: Span)
    requires LongestFirst(lits) && literal in lits && Guarded(literal, s, at) && p <= at < |s|
    ensures x in Spans(lits, s, p) && Takes(x, at, literal)
    decreases |s| - p
  {
    SpansUnfold(lits, s, p);
    var first := FirstAt(lits, s, p);
    if at == p {
      TakenHere(lits, s, p, literal);
      x := Span(p, first.value);
    } else if first.None? {
      x := OccurrencesAreTaken(lits, s, p + 1, literal, at);
    } else if at < p + |first.value| {
      x := Span(p, first.value);
    } else {
      x := OccurrencesAreTaken(lits, s, p + |first.value|, literal, at);
    }
  }

  lemma SpansUnfold(lits: seq<string>, s: string, p: nat)
    requires p < |s|
    ensures match FirstAt(lits, s, p)
            case None => Spans(lits, s, p) == Spans(lits, s, p + 1)
            case Some(l) =>
              forall x :: x in Spans(lits, s, p) <==> x == Span(p, l) || x in Spans(lits, s, p + |l|)
  {
  }

  /** No guarded occurrence of a secret escapes: a replaced span takes its first character, and takes it
      whole unless the occurrence starts strictly inside an earlier span. */
  lemma EveryOccurrenceIsCovered(list: seq<string>, s: string, literal: string, at: nat)
    requires literal in list && Guarded(literal, s, at)
    ensures exists x :: x in Spans(Ordered(list), s, 0) && Takes(x, at, literal)
  {
    OrderedLiterals(list);
    var x := OccurrencesAreTaken(Ordered(list), s, 0, literal, at);
  }

  /** `s` from `p` on with every span replaced. */
  function Splice(s: string, spans: seq<Span>, replacement: string, p: nat): string
    requires p <= |s| && Separate(s, spans, p)
  {
    if spans == [] then s[p..]
    else s[p..spans[0].start] + replacement
         + Splice(s, spans[1..], replacement, spans[0].start + |spans[0].literal|)
  }

  /** The spans follow each other without overlap inside `s`, starting no earlier than `p`. */
  predicate Separate(s: string, spans: seq<Span>, p: nat) {
    spans == []
    || (p <= spans[0].start && spans[0].start + |spans[0].literal| <= |s|
        && Separate(s, spans[1..], spans[0].start + |spans[0].literal|))
  }

  lemma ScanUnfold(lits: seq<string>, s: string, replacement: string, p: nat)
    requires NonEmpty(lits) && p < |s|
    ensures var scan := (q: nat) requires q <= |s| => ReplaceAll(Patterns(lits), s, replacement, q);
            match FirstAt(lits, s, p)
            case None => scan(p) == [s[p]] + scan(p + 1) && Spans(lits, s, p) == Spans(lits, s, p + 1)
            case Some(l) =>
              scan(p) == replacement + scan(p + |l|) && Spans(lits, s, p) == [Span(p, l)] + Spans(lits, s, p + |l|)
  {
    FirstByPatterns(lits, s, p);
  }

  /** From `p` on the scan replaces the spans, which are in order, and keeps all else. */
  ghost predicate Spliced(lits: seq<string>, s: string, replacement: string, p: nat)
    requires NonEmpty(lits) && p <= |s|
  {
    && Separate(s, Spans(lits, s, p), p)
    && ReplaceAll(Patterns(lits), s, replacement, p) == Splice(s, Spans(lits, s, p), replacement, p)
  }

  lemma SplicedSkip(lits: seq<string>, s: string, replacement: string, p: nat)
    requires NonEmpty(lits) && p < |s| && FirstAt(lits, s, p).None? && Spliced(lits, s, replacement, p + 1)
    ensures Spliced(lits, s, replacement, p)
  {
    ScanUnfold(lits, s, replacement, p);
    SpliceOne(s, Spans(lits, s, p), replacement, p);
  }

  lemma SplicedTake(lits: seq<string>, s: string, replacement: string, p: nat, l: string)
    requires NonEmpty(lits) && p < |s| && FirstAt(lits, s, p) == Some(l) && Spliced(lits, s, replacement, p + |l|)
    ensures Spliced(lits, s, replacement, p)
  {
    ScanUnfold(lits, s, replacement, p);
    SpliceFirst(s, Span(p, l), Spans(lits, s, p + |l|), replacement);
  }

  lemma {:induction false} ScanIsSplice(lits: seq<string>, s: string, replacement: string, p: nat)
    requires NonEmpty(lits) && p <= |s|
    ensures Spliced(lits, s, replacement, p)
    decreases |s| - p
  {
    if p < |s| {
      match FirstAt(lits, s, p) {
        case None =>
          ScanIsSplice(lits, s, replacement, p + 1);
          SplicedSkip(lits, s, replacement, p);
        case Some(l) =>
          ScanIsSplice(lits, s, replacement, p + |l|);
          SplicedTake(lits, s, replacement, p, l);
      }
    }
  }

  lemma SpliceFirst(s: string, x: Span, rest: seq<Span>, replacement: string)
    requires x.start + |x.literal| <= |s| && Separate(s, rest, x.start + |x.literal|)
    ensures Separate(s, [x] + rest, x.start)
    ensures Splice(s, [x] + rest, replacement, x.start)
            == replacement + Splice(s, rest, replacement, x.start + |x.literal|)
  {
    var all := [x] + rest;
    assert all[0] == x && all[1..] == rest;
    var tail := Splice(s, rest, replacement, x.start + |x.literal|);
    assert s[x.start..x.start] + replacement + tail == replacement + tail;
  }

  /** The result is the input with exactly the spans replaced; all other text stays. */
  lemma SanitizeReplacesSpans(list: seq<string>, replacement: string, s: string)
    ensures var spans := Spans(Ordered(list), s, 0);
            Separate(s, spans, 0) && Sanitize(list, replacement, s) == Splice(s, spans, replacement, 0)
  {
    OrderedLiterals(list);
    ScanIsSplice(Ordered(list), s, replacement, 0);
  }

  lemma SpliceOne(s: string, spans: seq<Span>, replacement: string, p: nat)
    requires p < |s| && Separate(s, spans, p + 1)
    ensures Separate(s, spans, p)
    ensures Splice(s, spans, replacement, p) == [s[p]] + Splice(s, spans, replacement, p + 1)
  {
    if spans == [] {
      assert s[p..] == [s[p]] + s[p + 1..];
    } else {
      var a, b := s[p + 1..spans[0].start], Splice(s, spans[1..], replacement, spans[0].start + |spans[0].literal|);
      assert s[p..spans[0].start] == [s[p]] + a;
      assert [s[p]] + a + replacement + b == [s[p]] + (a + replacement + b);
    }
  }

  /** The literal chosen at a place depends on which literals are listed, not on their order. */
  lemma SameChoice(a: seq<string>, b: seq<string>, s: string, p: nat)
    requires LongestFirst(a) && LongestFirst(b) && forall l :: l in a <==> l in b
    ensures FirstAt(a, s, p) == FirstAt(b, s, p)
  {
    var x, y := FirstAt(a, s, p), FirstAt(b, s, p);
    FirstFound(a, s, p);
    FirstFound(b, s, p);
    if x.Some? && y.Some? {
      FirstIsLongest(b, s, p, x.value);
      FirstIsLongest(a, s, p, y.value);
      assert x.value == s[p..p + |x.value|] && y.value == s[p..p + |y.value|];
    }
  }

  lemma {:induction false} SameSpans(a: seq<string>, b: seq<string>, s: string, p: nat)
    requires LongestFirst(a) && LongestFirst(b) && (forall l :: l in a <==> l in b) && p <= |s|
    ensures Spans(a, s, p) == Spans(b, s, p)
    decreases |s| - p
  {
    if p < |s| {
      SameChoice(a, b, s, p);
      match FirstAt(a, s, p) {
        case None => SameSpans(a, b, s, p + 1);
        case Some(l) => SameSpans(a, b, s, p + |l|);
      }
    }
  }

  /** Neither the order of the secrets nor repeated or empty entries change the result. */
  lemma OrderDoesNotMatter(a: seq<string>, b: seq<string>, replacement: string, s: string)
    requires forall l | l != "" :: l in a <==> l in b
    ensures Sanitize(a, replacement, s) == Sanitize(b, replacement, s)
  {
    OrderedLiterals(a);
    OrderedLiterals(b);
    SameSpans(Ordered(a), Ordered(b), s, 0);
    SanitizeReplacesSpans(a, replacement, s);
    SanitizeReplacesSpans(b, replacement, s);
  }
}
