/** Percent-encoding of path segments, its inverse, and where an escape shows in an encoded text. */
module PercentEncoding {
  import opened Text

  // ---- Percent-encoding (sections 2.1 and 2.3 of RFC 3986) ----------------------------------

  predicate IsUnreservedChar(c: char) {
    IsAsciiAlphanumeric(c) || c == '-' || c == '.' || c == '_' || c == '~'
  }

  predicate IsUnreserved(b: Byte) {
    IsUnreservedChar(b as char)
  }

  function HexDigit(n: nat): char
    requires n < 16
  {
    if n < 10 then '0' + n as char else 'A' + (n - 10) as char
  }

  function Escape(b: Byte): string {
    ['%', HexDigit(b / 16), HexDigit(b % 16)]
  }

  function EncodeByte(b: Byte): string {
    if IsUnreserved(b) then [b as char] else Escape(b)
  }

  function PercentEncode(value: seq<Byte>): string {
    if value == [] then "" else EncodeByte(value[0]) + PercentEncode(value[1..])
  }

  /** Letters, digits and `-._~` stand for themselves; every other byte is `%` and two upper-case hexadecimal
      digits, the high half first. */
  lemma EncodeExactly(b: Byte, x: seq<Byte>, y: seq<Byte>)
    ensures PercentEncode([]) == ""
    ensures var c := b as char;
            PercentEncode([b])
            == if 'a' <= c <= 'z' || 'A' <= c <= 'Z' || '0' <= c <= '9' || c == '-' || c == '.' || c == '_' || c == '~'
               then [c]
               else ['%', "0123456789ABCDEF"[b / 16], "0123456789ABCDEF"[b % 16]]
    ensures PercentEncode(x + y) == PercentEncode(x) + PercentEncode(y)
  {
    HexReads(b / 16);
    HexReads(b % 16);
    assert [b][1..] == [];
    EncodeConcat(x, y);
  }

  lemma HexReads(n: nat)
    requires n < 16
    ensures HexDigit(n) == "0123456789ABCDEF"[n]
  {
  }

  lemma {:induction false} EncodeConcat(x: seq<Byte>, y: seq<Byte>)
    ensures PercentEncode(x + y) == PercentEncode(x) + PercentEncode(y)
  {
    if x == [] {
      assert x + y == y;
    } else {
      assert (x + y)[1..] == x[1..] + y;
      EncodeConcat(x[1..], y);
      assert EncodeByte(x[0]) + (PercentEncode(x[1..]) + PercentEncode(y))
             == EncodeByte(x[0]) + PercentEncode(x[1..]) + PercentEncode(y);
    }
  }

  lemma EncodeStep(value: seq<Byte>, i: nat, before: string)
    requires i < |value|
    ensures before + PercentEncode(value[i..]) == before + EncodeByte(value[i]) + PercentEncode(value[i + 1..])
  {
    assert value[i..][0] == value[i] && value[i..][1..] == value[i + 1..];
  }

  method EncodeBytes(value: seq<Byte>) returns (encoded: string)
    ensures encoded == PercentEncode(value)
  {
    encoded := "";
    for i := 0 to |value|
      invariant encoded + PercentEncode(value[i..]) == PercentEncode(value)
    {
      ghost var before := encoded;
      EncodeStep(value, i, before);
      if IsUnreserved(value[i]) {
        encoded := encoded + [value[i] as char];
      } else {
        encoded := encoded + ['%'];
        encoded := encoded + [HexDigit(value[i] / 16)];
        encoded := encoded + [HexDigit(value[i] % 16)];
      }
      assert encoded == before + EncodeByte(value[i]);
    }
  }

  function HexValue(c: char): Option<nat> {
    if '0' <= c <= '9' then Some(c as int - '0' as int)
    else if 'A' <= c <= 'F' then Some(c as int - 'A' as int + 10)
    else if 'a' <= c <= 'f' then Some(c as int - 'a' as int + 10)
    else None
  }

  /** The bytes a percent-encoded text stands for. */
  function PercentDecode(s: string): Option<seq<Byte>> {
    if s == "" then Some([])
    else if s[0] == '%' then
      if |s| < 3 || HexValue(s[1]).None? || HexValue(s[2]).None? then None
      else
        var b := 16 * HexValue(s[1]).value + HexValue(s[2]).value;
        match PercentDecode(s[3..])
        case Some(rest) => if b < 256 then Some([b] + rest) else None
        case None => None
    else if s[0] as int >= 256 then None
    else match PercentDecode(s[1..])
      case Some(rest) => Some([s[0] as int] + rest)
      case None => None
  }

  lemma HexRoundTrip(n: nat)
    requires n < 16
    ensures HexValue(HexDigit(n)) == Some(n)
  {
  }

  /** Decoding undoes encoding, for every byte string. */
  lemma {:induction false} DecodeEncode(value: seq<Byte>)
    ensures PercentDecode(PercentEncode(value)) == Some(value)
  {
    if value != [] {
      DecodeEncode(value[1..]);
      DecodeOne(value[0], PercentEncode(value[1..]), value[1..]);
      assert value == [value[0]] + value[1..];
    }
  }

  lemma DecodeOne(b: Byte, rest: string, value: seq<Byte>)
    requires PercentDecode(rest) == Some(value)
    ensures PercentDecode(EncodeByte(b) + rest) == Some([b] + value)
  {
    var s := EncodeByte(b) + rest;
    if IsUnreserved(b) {
      assert s[0] == b as char && s[1..] == rest;
    } else {
      HexRoundTrip(b / 16);
      HexRoundTrip(b % 16);
      assert s[0] == '%' && s[1] == HexDigit(b / 16) && s[2] == HexDigit(b % 16) && s[3..] == rest;
    }
  }

  /** Characters that can come out of the encoder. */
  predicate IsEncodedChar(c: char) {
    IsUnreservedChar(c) || c == '%'
  }

  lemma {:induction false} EncodedChars(value: seq<Byte>)
    ensures forall i | 0 <= i < |PercentEncode(value)| :: IsEncodedChar(PercentEncode(value)[i])
  {
    if value != [] {
      EncodedChars(value[1..]);
    }
  }

  // ---- Where an escape shows ----------------------------------------------------------------

  /** The lower-case text of an escape, as the guard looks for it. */
  function LowerEscape(b: Byte): string {
    Lower(Escape(b))
  }

  lemma LowerConcat(a: string, b: string)
    ensures Lower(a + b) == Lower(a) + Lower(b)
  {
  }

  lemma LowerHexInjective(m: nat, n: nat)
    requires m < 16 && n < 16 && LowerChar(HexDigit(m)) == LowerChar(HexDigit(n))
    ensures m == n
  {
  }

  lemma EscapesDiffer(a: Byte, b: Byte)
    requires LowerEscape(a) == LowerEscape(b)
    ensures a == b
  {
    assert LowerEscape(a)[1] == LowerChar(HexDigit(a / 16)) && LowerEscape(a)[2] == LowerChar(HexDigit(a % 16));
    assert LowerEscape(b)[1] == LowerChar(HexDigit(b / 16)) && LowerEscape(b)[2] == LowerChar(HexDigit(b % 16));
    LowerHexInjective(a / 16, b / 16);
    LowerHexInjective(a % 16, b % 16);
  }

  /** A text without `%` in front cannot take part in an escape. */
  lemma EscapeStartsLater(front: string, rest: string, b: Byte, i: nat)
    requires forall k | 0 <= k < |front| :: front[k] != '%'
    requires OccursAt(Lower(front + rest), LowerEscape(b), i)
    ensures i >= |front| && OccursAt(Lower(rest), LowerEscape(b), i - |front|)
  {
    var s, e := Lower(front + rest), LowerEscape(b);
    LowerConcat(front, rest);
    assert s[i] == s[i..i + 3][0] == e[0] == '%';
    assert forall k | 0 <= k < |front| :: s[k] == LowerChar(front[k]) != '%';
    assert s[i..i + 3] == Lower(rest)[i - |front|..i - |front| + 3];
  }

  /** An escape at the front hides no other escape in it. */
  lemma EscapeAfterEscape(a: Byte, rest: string, b: Byte, i: nat)
    requires OccursAt(Lower(Escape(a) + rest), LowerEscape(b), i)
    ensures (i == 0 && a == b) || (i >= 3 && OccursAt(Lower(rest), LowerEscape(b), i - 3))
  {
    var s, e := Lower(Escape(a) + rest), LowerEscape(b);
    LowerConcat(Escape(a), rest);
    assert s[i] == s[i..i + 3][0] == e[0] == '%';
    assert s[1] == LowerChar(HexDigit(a / 16)) && s[2] == LowerChar(HexDigit(a % 16));
    if i == 0 {
      assert s[0..3] == LowerEscape(a);
      EscapesDiffer(a, b);
    } else {
      assert s[i..i + 3] == Lower(rest)[i - 3..i];
    }
  }

  /** The guard sees the escape of `b` in an encoded text exactly when `b` was encoded that way. */
  lemma {:induction false} EscapeShows(value: seq<Byte>, b: Byte)
    ensures Contains(Lower(PercentEncode(value)), LowerEscape(b)) <==> b in value && !IsUnreserved(b)
  {
    if value == [] {
      assert Lower("") == "";
    } else {
      var a, rest := value[0], PercentEncode(value[1..]);
      var s := Lower(PercentEncode(value));
      EscapeShows(value[1..], b);
      assert value == [a] + value[1..];
      LowerConcat(EncodeByte(a), rest);
      if Contains(s, LowerEscape(b)) {
        var i :| 0 <= i <= |s| && OccursAt(s, LowerEscape(b), i);
        if IsUnreserved(a) {
          EscapeStartsLater([a as char], rest, b, i);
          assert OccursAt(Lower(rest), LowerEscape(b), i - 1);
        } else {
          EscapeAfterEscape(a, rest, b, i);
        }
      }
      if b in value && !IsUnreserved(b) {
        if b == a {
          assert OccursAt(s, LowerEscape(b), 0);
        } else {
          ContainsInside(Lower(EncodeByte(a)), Lower(rest), "", LowerEscape(b));
          assert Lower(EncodeByte(a)) + Lower(rest) + "" == s;
        }
      }
    }
  }

  // ---- Escapes of dots ----------------------------------------------------------------------

  const DOT: Byte := 46

  lemma EscapeOfDot(b: Byte)
    requires b != DOT
    ensures !(HexDigit(b / 16) == '2' && LowerChar(HexDigit(b % 16)) == 'e')
  {
    assert b == 16 * (b / 16) + b % 16;
  }
}
