/** References as the schema holds them, as text: definition names written into a `$ref` and found again
    (vyuh/src/validation.rs). */
module References {
  import opened Wrappers
  import opened Bytes
  import opened JsonValues
  import opened JsonPointer
  import opened SchemaRefs

  // ---------------------------------------------------------------------------
  // Text as UTF-8 (section 3 of RFC 3629)
  // ---------------------------------------------------------------------------

  predicate Scalar(n: int) {
    0 <= n < 0xD800 || 0xE000 <= n < 0x11_0000
  }

  function EncodeScalar(n: int): (r: bytes)
    requires Scalar(n)
    ensures r != []
  {
    if n < 0x80 then [n]
    else if n < 0x800 then [0xC0 + n / 64, 0x80 + n % 64]
    else if n < 0x1_0000 then [0xE0 + n / 4096, 0x80 + n / 64 % 64, 0x80 + n % 64]
    else [0xF0 + n / 262144, 0x80 + n / 4096 % 64, 0x80 + n / 64 % 64, 0x80 + n % 64]
  }

  function Utf8(s: string): bytes {
    if s == [] then [] else EncodeScalar(s[0] as int) + Utf8(s[1..])
  }

  function TwoBytes(a: int, b: int): int {
    (a - 0xC0) * 64 + (b - 0x80)
  }

  function ThreeBytes(a: int, b: int, c: int): int {
    (a - 0xE0) * 4096 + (b - 0x80) * 64 + (c - 0x80)
  }

  function FourBytes(a: int, b: int, c: int, d: int): int {
    (a - 0xF0) * 262144 + (b - 0x80) * 4096 + (c - 0x80) * 64 + (d - 0x80)
  }

  /** The character a text starts with. */
  function FirstScalar(s: bytes): (n: int)
    requires s != [] && Utf8Len(s) > 0
    ensures Scalar(n)
  {
    if Utf8Len(s) == 1 then s[0]
    else if Utf8Len(s) == 2 then TwoBytes(s[0], s[1])
    else if Utf8Len(s) == 3 then ThreeBytes(s[0], s[1], s[2])
    else FourBytes(s[0], s[1], s[2], s[3])
  }

  function Text(s: bytes): Option<string> {
    if s == [] then Some([])
    else if Utf8Len(s) == 0 then None
    else
      var rest := Text(s[Utf8Len(s)..]);
      if rest.Some? then Some([FirstScalar(s) as char] + rest.value) else None
  }

  lemma TwoEncoded(n: int, s: bytes)
    requires 0x80 <= n < 0x800 && EncodeScalar(n) <= s
    ensures Utf8Len(s) == 2 && FirstScalar(s) == n
  {
    var a, b := n / 64, n % 64;
    assert n == 64 * a + b && s[0] == 0xC0 + a && s[1] == 0x80 + b;
  }

  lemma ThreeEncoded(n: int, s: bytes)
    requires 0x800 <= n < 0x1_0000 && Scalar(n) && EncodeScalar(n) <= s
    ensures Utf8Len(s) == 3 && FirstScalar(s) == n
  {
    var a, b, c := n / 4096, n / 64 % 64, n % 64;
    assert n / 64 == 64 * a + b && n == 64 * (n / 64) + c;
    assert s[0] == 0xE0 + a && s[1] == 0x80 + b && s[2] == 0x80 + c;
  }

  lemma FourEncoded(n: int, s: bytes)
    requires 0x1_0000 <= n < 0x11_0000 && EncodeScalar(n) <= s
    ensures Utf8Len(s) == 4 && FirstScalar(s) == n
  {
    var a, b, c, d := n / 262144, n / 4096 % 64, n / 64 % 64, n % 64;
    assert n / 4096 == 64 * a + b && n / 64 == 64 * (n / 4096) + c && n == 64 * (n / 64) + d;
    assert s[0] == 0xF0 + a && s[1] == 0x80 + b && s[2] == 0x80 + c && s[3] == 0x80 + d;
  }

  lemma FirstEncoded(n: int, rest: bytes)
    requires Scalar(n)
    ensures var s := EncodeScalar(n) + rest;
            Utf8Len(s) == |EncodeScalar(n)| && FirstScalar(s) == n && s[Utf8Len(s)..] == rest
  {
    var s := EncodeScalar(n) + rest;
    assert EncodeScalar(n) <= s && s[|EncodeScalar(n)|..] == rest;
    if n < 0x80 {
    } else if n < 0x800 {
      TwoEncoded(n, s);
    } else if n < 0x1_0000 {
      ThreeEncoded(n, s);
    } else {
      FourEncoded(n, s);
    }
  }

  /** Every text is read back from its bytes. */
  lemma {:induction false} TextOfUtf8(s: string)
    ensures Text(Utf8(s)) == Some(s) && ValidUtf8(Utf8(s))
  {
    if s != [] {
      TextOfUtf8(s[1..]);
      FirstEncoded(s[0] as int, Utf8(s[1..]));
      assert s == [s[0]] + s[1..];
    }
  }

  lemma TwoDecoded(s: bytes)
    requires s != [] && Utf8Len(s) == 2
    ensures EncodeScalar(FirstScalar(s)) == s[..2]
  {
    var n := FirstScalar(s);
    assert n / 64 == s[0] - 0xC0 && n % 64 == s[1] - 0x80;
  }

  lemma ThreeDecoded(s: bytes)
    requires s != [] && Utf8Len(s) == 3
    ensures EncodeScalar(FirstScalar(s)) == s[..3]
  {
    var n: int, a: int, b: int, c: int := FirstScalar(s), s[0] - 0xE0, s[1] - 0x80, s[2] - 0x80;
    assert n == 64 * (64 * a + b) + c;
    assert n / 64 == 64 * a + b && n % 64 == c;
    assert n / 4096 == a;
  }

  lemma FourDecoded(s: bytes)
    requires s != [] && Utf8Len(s) == 4
    ensures EncodeScalar(FirstScalar(s)) == s[..4]
  {
    var n: int, a: int, b: int := FirstScalar(s), s[0] - 0xF0, s[1] - 0x80;
    var c: int, d: int := s[2] - 0x80, s[3] - 0x80;
    assert n == 64 * (64 * (64 * a + b) + c) + d;
    assert n / 64 == 64 * (64 * a + b) + c && n % 64 == d;
    assert n / 4096 == 64 * a + b && n / 262144 == a;
  }

  lemma FirstDecodes(s: bytes)
    requires s != [] && Utf8Len(s) > 0
    ensures EncodeScalar(FirstScalar(s)) == s[..Utf8Len(s)]
  {
    if Utf8Len(s) == 2 {
      TwoDecoded(s);
    } else if Utf8Len(s) == 3 {
      ThreeDecoded(s);
    } else if Utf8Len(s) == 4 {
      FourDecoded(s);
    }
  }

  lemma OneMoreCharacter(s: bytes, rest: string)
    requires s != [] && Utf8Len(s) > 0 && Utf8(rest) == s[Utf8Len(s)..]
    ensures Utf8([FirstScalar(s) as char] + rest) == s
  {
    FirstDecodes(s);
    assert ([FirstScalar(s) as char] + rest)[1..] == rest;
    assert s == s[..Utf8Len(s)] + s[Utf8Len(s)..];
  }

  lemma {:induction false} ValidIffRead(s: bytes)
    ensures ValidUtf8(s) <==> Text(s).Some?
    decreases |s|
  {
    if s != [] && Utf8Len(s) > 0 {
      ValidIffRead(s[Utf8Len(s)..]);
    }
  }

  /** The valid byte strings are exactly those of texts, and each is the bytes of the text read from it. */
  lemma {:induction false} ValidIffText(s: bytes)
    ensures ValidUtf8(s) <==> Text(s).Some?
    ensures Text(s).Some? ==> Utf8(Text(s).value) == s
    decreases |s|
  {
    ValidIffRead(s);
    if s != [] && Text(s).Some? {
      var n := Utf8Len(s);
      ValidIffText(s[n..]);
      OneMoreCharacter(s, Text(s[n..]).value);
    }
  }

  // ---------------------------------------------------------------------------
  // References
  // ---------------------------------------------------------------------------

  /** `ref_name`, on text. */
  function RefText(reference: string): Option<string> {
    var name := RefName(Utf8(reference));
    if name.Some? then Text(name.value) else None
  }

  lemma {:induction false} SpeltOut(t: string, s: bytes)
    requires |s| == |t| && forall i :: 0 <= i < |s| ==> s[i] == t[i] as int < 128
    ensures Utf8(t) == s
  {
    if s != [] {
      SpeltOut(t[1..], s[1..]);
      assert s == [s[0]] + s[1..];
    }
  }

  /** The two prefixes, as text. */
  lemma PrefixTexts()
    ensures Utf8("#/$defs/") == DEFS && Utf8("#/definitions/") == DEFINITIONS
  {
    SpeltOut("#/$defs/", DEFS);
    SpeltOut("#/definitions/", DEFINITIONS);
  }

  predicate Ascii(s: bytes) {
    forall i :: 0 <= i < |s| ==> s[i] < 128
  }

  function AsciiText(s: bytes): string
    requires Ascii(s)
  {
    if s == [] then [] else [s[0] as char] + AsciiText(s[1..])
  }

  lemma {:induction false} Utf8OfAscii(s: bytes)
    requires Ascii(s)
    ensures Utf8(AsciiText(s)) == s
  {
    if s != [] {
      Utf8OfAscii(s[1..]);
      assert s == [s[0]] + s[1..];
    }
  }

  lemma {:induction false} EncodedIsAscii(s: bytes, reserved: set<byte>)
    ensures Ascii(PercentEncode(s, reserved))
  {
    if s != [] {
      EncodedIsAscii(s[1..], reserved);
    }
  }

  function ReferenceBytes(name: string): (r: bytes)
    ensures Ascii(r)
  {
    EncodedIsAscii(Escaped(Utf8(name)), {PERCENT});
    DEFS + PercentEncode(Escaped(Utf8(name)), {PERCENT})
  }

  /** The reference to a definition: its name escaped, percent-encoded, under "#/$defs/". */
  function Reference(name: string): string {
    AsciiText(ReferenceBytes(name))
  }

  /** Any reference that spells a name, under either prefix and in any encoding, resolves to that name. */
  lemma ReferenceResolves(reference: string, name: string, prefix: bytes, raw: bytes)
    requires prefix in {DEFS, DEFINITIONS} && Utf8(reference) == prefix + raw
    requires PercentDecode(raw) == Escaped(Utf8(name))
    ensures RefText(reference) == Some(name)
  {
    TextOfUtf8(name);
    RefNameInverts(Utf8(name), prefix, raw);
  }

  /** Every name has a reference, and is found through it in any table of definitions that has it. */
  lemma ReferenceFindsDefinition(name: string, schema: Json, defs: Definitions)
    requires schema.JObj? && "$ref" in schema.entries && schema.entries["$ref"] == JStr(Reference(name))
    ensures TargetName(schema, defs, RefText) == if name in defs then Some(name) else None
    ensures name in defs ==> Resolved(schema, defs, RefText) == defs[name]
  {
    var raw := PercentEncode(Escaped(Utf8(name)), {PERCENT});
    Utf8OfAscii(ReferenceBytes(name));
    DecodeEncode(Escaped(Utf8(name)), {PERCENT});
    ReferenceResolves(Reference(name), name, DEFS, raw);
  }
}
