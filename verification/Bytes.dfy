/** Byte strings: percent-encoding (section 2.1 of RFC 3986), UTF-8 (section 4 of RFC 3629) and splitting at '/'. */
module Bytes {

  type byte = b: int | 0 <= b < 256 witness 0
  type bytes = seq<byte>

  const PERCENT: byte := 37
  const DOT: byte := 46
  const SLASH: byte := 47
  const BACKSLASH: byte := 92

  // ---------------------------------------------------------------------------
  // Percent-encoding
  // ---------------------------------------------------------------------------

  predicate IsHex(b: byte) {
    48 <= b <= 57 || 65 <= b <= 70 || 97 <= b <= 102
  }

  function HexValue(b: byte): (v: nat)
    requires IsHex(b)
    ensures v < 16
  {
    if b <= 57 then b - 48 else if b <= 70 then b - 55 else b - 87
  }

  function HexDigit(v: nat): (b: byte)
    requires v < 16
    ensures IsHex(b) && HexValue(b) == v
  {
    if v < 10 then 48 + v else 55 + v
  }

  predicate Escape(s: bytes) {
    |s| >= 3 && s[0] == PERCENT && IsHex(s[1]) && IsHex(s[2])
  }

  /** The byte a text starts with after decoding, and how many bytes it takes; a '%' that starts no escape
      stands for itself. */
  function FirstDecoded(s: bytes): byte
    requires s != []
  {
    if Escape(s) then 16 * HexValue(s[1]) + HexValue(s[2]) else s[0]
  }

  function FirstLength(s: bytes): (n: nat)
    requires s != []
    ensures 0 < n <= |s|
  {
    if Escape(s) then 3 else 1
  }

  function PercentDecode(s: bytes): bytes {
    if s == [] then [] else [FirstDecoded(s)] + PercentDecode(s[FirstLength(s)..])
  }

  function PercentEncode(s: bytes, reserved: set<byte>): bytes {
    if s == [] then []
    else EncodeByte(s[0], reserved) + PercentEncode(s[1..], reserved)
  }

  /** Bytes outside ASCII are always escaped. */
  function EncodeByte(b: byte, reserved: set<byte>): (r: bytes)
    ensures r != [] && (r == [b] || r[0] == PERCENT)
  {
    if b >= 128 || b in reserved then [PERCENT, HexDigit(b / 16), HexDigit(b % 16)] else [b]
  }

  lemma {:induction false} DecodeEncode(s: bytes, reserved: set<byte>)
    requires PERCENT in reserved
    ensures PercentDecode(PercentEncode(s, reserved)) == s
  {
    if s != [] {
      DecodeEncode(s[1..], reserved);
      var e, rest := EncodeByte(s[0], reserved), PercentEncode(s[1..], reserved);
      assert (e + rest)[|e|..] == rest;
    }
  }

  /** Text without a '%' decodes to itself. */
  lemma {:induction false} PlainDecodes(s: bytes)
    requires 37 !in s
    ensures PercentDecode(s) == s
  {
    if s != [] {
      PlainDecodes(s[1..]);
      assert s == [s[0]] + s[1..];
    }
  }

  function HexLetter(v: nat, upper: bool): byte
    requires v < 16
  {
    if v < 10 then '0' as int + v else (if upper then 'A' as int else 'a' as int) + v - 10
  }

  lemma LetterValue(v: nat, upper: bool)
    requires v < 16
    ensures IsHex(HexLetter(v, upper)) && HexValue(HexLetter(v, upper)) == v
  {
  }

  /** An escape is two hex digits of either case. */
  lemma EscapeDecodes(a: nat, b: nat, upper: bool, rest: bytes)
    requires a < 16 && b < 16
    ensures PercentDecode([37, HexLetter(a, upper), HexLetter(b, upper)] + rest) == [16 * a + b] + PercentDecode(rest)
  {
    LetterValue(a, upper);
    LetterValue(b, upper);
    EscapeReads(HexLetter(a, upper), HexLetter(b, upper), rest);
  }

  lemma EscapeReads(x: byte, y: byte, rest: bytes)
    requires IsHex(x) && IsHex(y)
    ensures PercentDecode([37, x, y] + rest) == [16 * HexValue(x) + HexValue(y)] + PercentDecode(rest)
  {
    assert ([37, x, y] + rest)[3..] == rest;
  }

  lemma FirstSplit(a: bytes, c: byte, b: bytes)
    requires a != [] && c != PERCENT && !IsHex(c)
    ensures FirstLength(a + [c] + b) == FirstLength(a)
    ensures FirstDecoded(a + [c] + b) == FirstDecoded(a)
  {
    var s := a + [c] + b;
    assert s[0] == a[0];
    assert |a| >= 2 ==> s[1] == a[1];
    assert |a| >= 3 ==> s[2] == a[2];
    assert |a| < 3 && |s| >= 3 ==> s[1] == c || s[2] == c;
  }

  /** Decoding can be cut at any byte that is neither '%' nor a hex digit. */
  lemma {:induction false} DecodeSplit(a: bytes, c: byte, b: bytes)
    requires c != PERCENT && !IsHex(c)
    ensures PercentDecode(a + [c] + b) == PercentDecode(a) + [c] + PercentDecode(b)
  {
    var s := a + [c] + b;
    if a == [] {
      assert s[1..] == b;
    } else {
      FirstSplit(a, c, b);
      var n := FirstLength(a);
      assert s[n..] == a[n..] + [c] + b;
      DecodeSplit(a[n..], c, b);
    }
  }

  /** A byte that is neither '%' nor a hex digit is never swallowed by an escape. */
  lemma DecodeKeeps(s: bytes, c: byte)
    requires c in s && c != PERCENT && !IsHex(c)
    ensures c in PercentDecode(s)
  {
    var i :| 0 <= i < |s| && s[i] == c;
    assert s == s[..i] + [c] + s[i + 1..];
    DecodeSplit(s[..i], c, s[i + 1..]);
    assert (PercentDecode(s[..i]) + [c] + PercentDecode(s[i + 1..]))[|PercentDecode(s[..i])|] == c;
  }

  // ---------------------------------------------------------------------------
  // UTF-8
  // ---------------------------------------------------------------------------

  predicate IsTail(b: byte) {
    0x80 <= b <= 0xBF
  }

  /** The length of the well-formed sequence s starts with, or 0. */
  function Utf8Len(s: bytes): (n: nat)
    requires s != []
    ensures n <= |s|
  {
    if s[0] <= 0x7F then 1
    else if |s| >= 2 && 0xC2 <= s[0] <= 0xDF && IsTail(s[1]) then 2
    else if |s| >= 3 && 0xE0 <= s[0] <= 0xEF && IsTail(s[1]) && IsTail(s[2])
            && (s[0] == 0xE0 ==> s[1] >= 0xA0) && (s[0] == 0xED ==> s[1] <= 0x9F) then 3
    else if |s| >= 4 && 0xF0 <= s[0] <= 0xF4 && IsTail(s[1]) && IsTail(s[2]) && IsTail(s[3])
            && (s[0] == 0xF0 ==> s[1] >= 0x90) && (s[0] == 0xF4 ==> s[1] <= 0x8F) then 4
    else 0
  }

  predicate ValidUtf8(s: bytes) {
    s == [] || (Utf8Len(s) > 0 && ValidUtf8(s[Utf8Len(s)..]))
  }

  /** Text can be cut at any ASCII character. */
  lemma {:induction false} Utf8Split(a: bytes, c: byte, b: bytes)
    requires c < 128
    ensures ValidUtf8(a + [c] + b) <==> ValidUtf8(a) && ValidUtf8(b)
  {
    var s := a + [c] + b;
    if a == [] {
      assert s[1..] == b;
    } else {
      assert Utf8Len(s) == Utf8Len(a) by {
        assert s[..|a|] == a && s[|a|] == c;
      }
      var n := Utf8Len(a);
      if n > 0 {
        assert s[n..] == a[n..] + [c] + b;
        Utf8Split(a[n..], c, b);
      }
    }
  }

  // ---------------------------------------------------------------------------
  // Splitting and joining at '/'
  // ---------------------------------------------------------------------------

  function Split(s: bytes): (r: seq<bytes>)
    ensures r != []
    ensures forall i :: 0 <= i < |r| ==> SLASH !in r[i]
  {
    if s == [] then [[]]
    else
      var rest := Split(s[1..]);
      if s[0] == SLASH then [[]] + rest else [[s[0]] + rest[0]] + rest[1..]
  }

  function Join(segs: seq<bytes>): bytes {
    if segs == [] then []
    else if |segs| == 1 then segs[0]
    else segs[0] + [SLASH] + Join(segs[1..])
  }

  lemma {:induction false} JoinSplit(s: bytes)
    ensures Join(Split(s)) == s
  {
    if s != [] {
      JoinSplit(s[1..]);
      var rest := Split(s[1..]);
      if s[0] == SLASH {
        assert ([[]] + rest)[1..] == rest;
      } else {
        var segs := [[s[0]] + rest[0]] + rest[1..];
        assert segs[1..] == rest[1..];
      }
    }
  }

  /** A slash separates the segments before it from those after it. */
  lemma {:induction false} SplitConcat(a: bytes, b: bytes)
    ensures Split(a + [SLASH] + b) == Split(a) + Split(b)
  {
    var s := a + [SLASH] + b;
    if a == [] {
      assert s[1..] == b;
    } else {
      SplitConcat(a[1..], b);
      assert s[1..] == a[1..] + [SLASH] + b;
      var ra, rb := Split(a[1..]), Split(b);
      if a[0] == SLASH {
        assert [[]] + (ra + rb) == [[]] + ra + rb;
      } else {
        assert [[a[0]] + (ra + rb)[0]] + (ra + rb)[1..] == [[a[0]] + ra[0]] + ra[1..] + rb;
      }
    }
  }

  lemma {:induction false} SplitSegment(a: bytes)
    requires SLASH !in a
    ensures Split(a) == [a]
  {
    if a != [] {
      SplitSegment(a[1..]);
      assert a == [a[0]] + a[1..];
    }
  }

  lemma {:induction false} SplitJoin(segs: seq<bytes>)
    requires segs != []
    requires forall i :: 0 <= i < |segs| ==> SLASH !in segs[i]
    ensures Split(Join(segs)) == segs
  {
    SplitSegment(segs[0]);
    if |segs| > 1 {
      SplitConcat(segs[0], Join(segs[1..]));
      SplitJoin(segs[1..]);
    }
  }

  /** A joined text is valid exactly when its segments are. */
  lemma {:induction false} Utf8Join(segs: seq<bytes>)
    requires segs != []
    ensures ValidUtf8(Join(segs)) <==> forall i :: 0 <= i < |segs| ==> ValidUtf8(segs[i])
  {
    if |segs| > 1 {
      Utf8Split(segs[0], SLASH, Join(segs[1..]));
      Utf8Join(segs[1..]);
      assert forall i :: 1 <= i < |segs| ==> segs[i] == segs[1..][i - 1];
    }
  }

  /** Decoding a joined text decodes its segments. */
  lemma {:induction false} DecodeJoin(segs: seq<bytes>)
    ensures PercentDecode(Join(segs)) == Join(DecodeAll(segs))
  {
    if |segs| > 1 {
      DecodeSplit(segs[0], SLASH, Join(segs[1..]));
      DecodeJoin(segs[1..]);
      assert DecodeAll(segs)[1..] == DecodeAll(segs[1..]);
    }
  }

  function DecodeAll(segs: seq<bytes>): (r: seq<bytes>)
    ensures |r| == |segs|
  {
    seq(|segs|, i requires 0 <= i < |segs| => PercentDecode(segs[i]))
  }
}
