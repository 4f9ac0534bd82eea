/** What the models share: text operations of the Rust and Python standard libraries, and the size of a subset. */
module Text {

  datatype Option<+T> = None | Some(value: T)

  type Byte = b: int | 0 <= b < 256

  /** Characters with the Unicode property White_Space. */
  predicate IsWhitespace(c: char) {
    var n := c as int;
    0x9 <= n <= 0xD || n == 0x20 || n == 0x85 || n == 0xA0 || n == 0x1680 || 0x2000 <= n <= 0x200A
    || n == 0x2028 || n == 0x2029 || n == 0x202F || n == 0x205F || n == 0x3000
  }

  /** The characters of the property, one by one. */
  lemma WhitespaceExactly(c: char)
    ensures IsWhitespace(c) <==>
            || c == '\t' || c == '\n' || c == '\U{0B}' || c == '\U{0C}' || c == '\r' || c == ' '
            || c == '\U{85}' || c == '\U{A0}' || c == '\U{1680}' || '\U{2000}' <= c <= '\U{200A}'
            || c == '\U{2028}' || c == '\U{2029}' || c == '\U{202F}' || c == '\U{205F}' || c == '\U{3000}'
  {
  }

  function TrimStart(s: string): string {
    if s != [] && IsWhitespace(s[0]) then TrimStart(s[1..]) else s
  }

  function TrimEnd(s: string): string {
    if s != [] && IsWhitespace(s[|s| - 1]) then TrimEnd(s[..|s| - 1]) else s
  }

  function Trim(s: string): string {
    TrimEnd(TrimStart(s))
  }

  predicate AllWhitespace(s: string) {
    forall i | 0 <= i < |s| :: IsWhitespace(s[i])
  }

  /** Neither end of `s` is white space. */
  predicate Trimmed(s: string) {
    s != "" ==> !IsWhitespace(s[0]) && !IsWhitespace(s[|s| - 1])
  }

  lemma {:induction false} TrimStartDrops(before: string, s: string)
    requires AllWhitespace(before) && (s != "" ==> !IsWhitespace(s[0]))
    ensures TrimStart(before + s) == s
  {
    if before == "" {
      assert before + s == s;
    } else {
      assert (before + s)[1..] == before[1..] + s;
      TrimStartDrops(before[1..], s);
    }
  }

  lemma {:induction false} TrimEndDrops(s: string, after: string)
    requires AllWhitespace(after) && Trimmed(s)
    ensures TrimEnd(s + after) == s
  {
    if after == "" {
      assert s + after == s;
    } else {
      var n := |after| - 1;
      assert (s + after)[..|s + after| - 1] == s + after[..n];
      TrimEndDrops(s, after[..n]);
    }
  }

  /** Trimming removes the white space around a text and nothing else. */
  lemma TrimExactly(before: string, s: string, after: string)
    requires AllWhitespace(before) && Trimmed(s) && AllWhitespace(after)
    ensures Trim(before + s + after) == s
  {
    assert before + s + after == before + (s + after);
    if s == "" {
      assert before + (s + after) == before + after + "";
      TrimStartDrops(before + after, "");
    } else {
      TrimStartDrops(before, s + after);
      TrimEndDrops(s, after);
    }
  }

  predicate IsAsciiDigit(c: char) {
    '0' <= c <= '9'
  }

  predicate IsAsciiAlphanumeric(c: char) {
    'a' <= c <= 'z' || 'A' <= c <= 'Z' || IsAsciiDigit(c)
  }

  /** `needle` occurs in `s` at position `i`. */
  predicate OccursAt(s: string, needle: string, i: nat) {
    i + |needle| <= |s| && s[i..i + |needle|] == needle
  }

  predicate Contains(s: string, needle: string) {
    exists i | 0 <= i <= |s| :: OccursAt(s, needle, i)
  }

  lemma ContainsInside(before: string, middle: string, after: string, needle: string)
    requires Contains(middle, needle)
    ensures Contains(before + middle + after, needle)
  {
    var i :| 0 <= i <= |middle| && OccursAt(middle, needle, i);
    var s := before + middle + after;
    var k := |before| + i;
    assert s[k..k + |needle|] == middle[i..i + |needle|];
    assert OccursAt(s, needle, k);
  }

  function LowerChar(c: char): char {
    if 'A' <= c <= 'Z' then c + 32 as char else c
  }

  /** ASCII lower case; other characters stay as they are. */
  function Lower(s: string): string {
    seq(|s|, i requires 0 <= i < |s| => LowerChar(s[i]))
  }

  /** Letters `A` to `Z` become small, and nothing else changes. */
  lemma LowerExactly(s: string, i: nat)
    requires i < |s|
    ensures |Lower(s)| == |s|
    ensures 'A' <= s[i] <= 'Z' ==> Lower(s)[i] as int - 'a' as int == s[i] as int - 'A' as int
    ensures !('A' <= s[i] <= 'Z') ==> Lower(s)[i] == s[i]
  {
  }

  /** The parts with `sep` between neighbours. */
  function Join(parts: seq<string>, sep: string): string {
    if parts == [] then ""
    else if |parts| == 1 then parts[0]
    else parts[0] + sep + Join(parts[1..], sep)
  }

  /** Position of the first `c`, or the length when there is none. */
  function IndexOf(s: string, c: char): (n: nat)
    ensures n <= |s| && c !in s[..n]
    ensures n < |s| ==> s[n] == c
  {
    if s == "" || s[0] == c then 0 else 1 + IndexOf(s[1..], c)
  }

  /** The lines of `s` without their line ends; a carriage return before a newline goes too. */
  function Lines(s: string): seq<string>
    decreases |s|
  {
    var n := IndexOf(s, '\n');
    if s == "" then []
    else if n == |s| then [s]
    else [if n > 0 && s[n - 1] == '\r' then s[..n - 1] else s[..n]] + Lines(s[n + 1..])
  }

  /** Lines end at newlines, and a carriage return before one goes with it. */
  lemma LinesExactly(line: string, rest: string)
    requires '\n' !in line
    ensures Lines(line + "\n" + rest)
            == [if line != "" && line[|line| - 1] == '\r' then line[..|line| - 1] else line] + Lines(rest)
    ensures Lines(line) == if line == "" then [] else [line]
  {
    var s := line + "\n" + rest;
    var n := IndexOf(s, '\n');
    assert s[|line|] == '\n' && forall i | 0 <= i < |line| :: s[i] == line[i];
    FirstIndex(s, '\n', |line|);
    assert s[..n] == line && s[n + 1..] == rest;
    if line != "" {
      assert s[n - 1] == line[n - 1] && s[..n - 1] == line[..n - 1];
    }
    NoIndex(line, '\n');
  }

  lemma {:induction false} FirstIndex(s: string, c: char, n: nat)
    requires n < |s| && s[n] == c && forall i | 0 <= i < n :: s[i] != c
    ensures IndexOf(s, c) == n
  {
    if n > 0 {
      FirstIndex(s[1..], c, n - 1);
    }
  }

  lemma {:induction false} NoIndex(s: string, c: char)
    requires c !in s
    ensures IndexOf(s, c) == |s|
  {
    if s != "" {
      NoIndex(s[1..], c);
    }
  }

  // ---- UTF-8 --------------------------------------------------------------------------------

  /** The UTF-8 form of a character. */
  function Utf8(c: char): (bytes: seq<Byte>)
    ensures bytes != []
  {
    var n := c as int;
    if n < 0x80 then [n]
    else if n < 0x800 then [0xC0 + n / 64, 0x80 + n % 64]
    else if n < 0x10000 then [0xE0 + n / 64 / 64, 0x80 + n / 64 % 64, 0x80 + n % 64]
    else [0xF0 + n / 64 / 64 / 64 % 8, 0x80 + n / 64 / 64 % 64, 0x80 + n / 64 % 64, 0x80 + n % 64]
  }

  /** Every further byte adds six bits. */
  function AddBytes(value: nat, bytes: seq<Byte>): Option<nat>
    decreases |bytes|
  {
    if bytes == [] then Some(value)
    else if 0x80 <= bytes[0] < 0xC0 then AddBytes(64 * value + (bytes[0] - 0x80), bytes[1..])
    else None
  }

  /** The code point a UTF-8 form stands for; its first byte announces how many follow. */
  function CodePoint(bytes: seq<Byte>): Option<nat>
    requires bytes != []
  {
    var b, n := bytes[0], |bytes|;
    if n == 1 && b < 0x80 then Some(b)
    else if n == 2 && 0xC0 <= b < 0xE0 then AddBytes(b - 0xC0, bytes[1..])
    else if n == 3 && 0xE0 <= b < 0xF0 then AddBytes(b - 0xE0, bytes[1..])
    else if n == 4 && 0xF0 <= b < 0xF8 then AddBytes(b - 0xF0, bytes[1..])
    else None
  }

  lemma AddOne(n: nat)
    ensures AddBytes(n / 64, [0x80 + n % 64]) == Some(n)
  {
    assert [0x80 + n % 64][1..] == [];
  }

  lemma AddTwo(n: nat)
    ensures AddBytes(n / 64 / 64, [0x80 + n / 64 % 64, 0x80 + n % 64]) == Some(n)
  {
    AddOne(n);
    assert [0x80 + n / 64 % 64, 0x80 + n % 64][1..] == [0x80 + n % 64];
  }

  lemma AddThree(n: nat)
    ensures AddBytes(n / 64 / 64 / 64, [0x80 + n / 64 / 64 % 64, 0x80 + n / 64 % 64, 0x80 + n % 64]) == Some(n)
  {
    AddTwo(n);
    assert [0x80 + n / 64 / 64 % 64, 0x80 + n / 64 % 64, 0x80 + n % 64][1..] == [0x80 + n / 64 % 64, 0x80 + n % 64];
  }

  /** The UTF-8 form reads back as its character. */
  lemma Utf8Reads(c: char)
    ensures CodePoint(Utf8(c)) == Some(c as int)
  {
    var n := c as int;
    AddOne(n);
    AddTwo(n);
    AddThree(n);
    assert n < 0x110000 && n / 64 / 64 / 64 < 8;
  }

  // ---- Decimal numbers ----------------------------------------------------------------------

  function Digit(d: nat): char
    requires d < 10
  {
    '0' + d as char
  }

  function DigitValue(c: char): nat
    requires IsAsciiDigit(c)
  {
    c as int - '0' as int
  }

  predicate AllDigits(s: string) {
    forall i | 0 <= i < |s| :: IsAsciiDigit(s[i])
  }

  function Decimal(n: nat): (s: string)
    ensures s != [] && AllDigits(s)
  {
    if n < 10 then [Digit(n)] else Decimal(n / 10) + [Digit(n % 10)]
  }

  function DecimalValue(s: string): nat
    requires AllDigits(s)
  {
    if s == [] then 0 else 10 * DecimalValue(s[..|s| - 1]) + DigitValue(s[|s| - 1])
  }

  lemma {:induction false} DecimalRoundTrip(n: nat)
    ensures DecimalValue(Decimal(n)) == n
  {
    var s := Decimal(n);
    if n < 10 {
      assert s[..0] == [];
    } else {
      DecimalRoundTrip(n / 10);
      assert s[..|s| - 1] == Decimal(n / 10);
    }
  }

  lemma {:induction false} SubsetCardinality<T>(a: set<T>, b: set<T>)
    requires a <= b
    ensures |a| <= |b| && (a < b ==> |a| < |b|)
  {
    if a != {} {
      var x :| x in a;
      SubsetCardinality(a - {x}, b - {x});
    }
  }
}
