/** Reading a definition name out of a `$ref` (vyuh/src/validation.rs): a URI fragment holding a JSON Pointer
    (sections 3, 4 and 6 of RFC 6901). */
module JsonPointer {
  import opened Wrappers
  import opened Bytes

  const TILDE: byte := 126
  const ZERO: byte := 48
  const ONE: byte := 49
  /** "#/$defs/" and "#/definitions/" */
  const DEFS: bytes := [35, 47, 36, 100, 101, 102, 115, 47]
  const DEFINITIONS: bytes := [35, 47, 100, 101, 102, 105, 110, 105, 116, 105, 111, 110, 115, 47]

  /** Every occurrence of the two bytes x y, from the left, becomes r. */
  function Replace(s: bytes, x: byte, y: byte, r: byte): bytes {
    if s == [] then []
    else if |s| >= 2 && s[0] == x && s[1] == y then [r] + Replace(s[2..], x, y, r)
    else [s[0]] + Replace(s[1..], x, y, r)
  }

  function Unescaped(s: bytes): bytes {
    Replace(Replace(s, TILDE, ONE, SLASH), TILDE, ZERO, TILDE)
  }

  function StripPrefix(s: bytes, prefix: bytes): Option<bytes> {
    if prefix <= s then Some(s[|prefix|..]) else None
  }

  function RefName(reference: bytes): Option<bytes> {
    var raw := if StripPrefix(reference, DEFS).Some? then StripPrefix(reference, DEFS)
               else StripPrefix(reference, DEFINITIONS);
    if raw.None? then None
    else
      var decoded := PercentDecode(raw.value);
      if ValidUtf8(decoded) then Some(Unescaped(decoded)) else None
  }

  /** Anything without one of the prefixes, and what is no text after percent-decoding, names nothing. */
  lemma OtherReferences(reference: bytes)
    ensures RefName(reference).Some? <==>
            || (DEFS <= reference && ValidUtf8(PercentDecode(reference[8..])))
            || (DEFINITIONS <= reference && ValidUtf8(PercentDecode(reference[14..])))
  {
    assert DEFS[2] != DEFINITIONS[2];
  }

  /** A reference token as a JSON Pointer writes it. */
  function Escaped(name: bytes): bytes {
    if name == [] then [] else EscapedByte(name[0]) + Escaped(name[1..])
  }

  function EscapedByte(b: byte): (r: bytes)
    ensures r != []
  {
    if b == TILDE then [TILDE, ZERO] else if b == SLASH then [TILDE, ONE] else [b]
  }

  /** The token halfway through unescaping, with its slashes back. */
  function HalfEscaped(name: bytes): bytes {
    if name == [] then []
    else (if name[0] == TILDE then [TILDE, ZERO] else [name[0]]) + HalfEscaped(name[1..])
  }

  lemma {:induction false} SlashesBack(name: bytes)
    ensures Replace(Escaped(name), TILDE, ONE, SLASH) == HalfEscaped(name)
  {
    if name != [] {
      SlashesBack(name[1..]);
      var rest := Escaped(name[1..]);
      if name[0] == TILDE {
        assert ([TILDE, ZERO] + rest)[1..] == [ZERO] + rest;
        assert ([ZERO] + rest)[1..] == rest;
        assert [TILDE] + ([ZERO] + HalfEscaped(name[1..])) == [TILDE, ZERO] + HalfEscaped(name[1..]);
      } else if name[0] == SLASH {
        assert ([TILDE, ONE] + rest)[2..] == rest;
      } else {
        assert ([name[0]] + rest)[1..] == rest;
      }
    }
  }

  lemma {:induction false} TildesBack(name: bytes)
    ensures Replace(HalfEscaped(name), TILDE, ZERO, TILDE) == name
  {
    if name != [] {
      TildesBack(name[1..]);
      var rest := HalfEscaped(name[1..]);
      if name[0] == TILDE {
        assert ([TILDE, ZERO] + rest)[2..] == rest;
      } else {
        assert ([name[0]] + rest)[1..] == rest;
      }
    }
  }

  lemma EscapedCons(b: byte, rest: bytes)
    ensures Escaped([b] + rest) == EscapedByte(b) + Escaped(rest)
  {
    assert ([b] + rest)[1..] == rest;
  }

  lemma Associative(a: bytes, b: bytes, c: bytes)
    ensures (a + b) + c == a + (b + c)
  {
  }

  lemma {:induction false} EscapedConcat(a: bytes, b: bytes)
    ensures Escaped(a + b) == Escaped(a) + Escaped(b)
  {
    if a == [] {
      assert a + b == b;
    } else {
      var first, rest := a[0], a[1..];
      EscapedConcat(rest, b);
      EscapedCons(first, rest + b);
      Associative(EscapedByte(first), Escaped(rest), Escaped(b));
      Associative([first], rest, b);
      assert [first] + rest == a;
    }
  }

  lemma {:induction false} EscapedPlain(a: bytes)
    requires forall i :: 0 <= i < |a| ==> a[i] >= 128
    ensures Escaped(a) == a
  {
    if a != [] {
      EscapedPlain(a[1..]);
      assert a == [a[0]] + a[1..];
    }
  }

  /** A whole character in front of valid text. */
  lemma CharacterFront(name: bytes, rest: bytes)
    requires ValidUtf8(name) && name != [] && ValidUtf8(rest)
    ensures ValidUtf8(Escaped(name[..Utf8Len(name)]) + rest)
  {
    var n := Utf8Len(name);
    var c := name[..n];
    if n == 1 {
      EscapedCons(name[0], []);
      assert c == [name[0]] + [];
      assert Escaped(c) == EscapedByte(name[0]);
      AsciiFront(EscapedByte(name[0]), rest);
    } else {
      EscapedPlain(c);
      assert Utf8Len(c + rest) == n by {
        assert forall i :: 0 <= i < n ==> (c + rest)[i] == name[i];
      }
      assert (c + rest)[n..] == rest;
    }
  }

  /** Escaping touches no byte of a multi-byte character. */
  lemma {:induction false} EscapedUtf8(name: bytes)
    requires ValidUtf8(name)
    ensures ValidUtf8(Escaped(name))
  {
    if name != [] {
      var n := Utf8Len(name);
      EscapedUtf8(name[n..]);
      CharacterFront(name, Escaped(name[n..]));
      EscapedConcat(name[..n], name[n..]);
      assert name == name[..n] + name[n..];
    }
  }

  lemma {:induction false} AsciiFront(a: bytes, b: bytes)
    requires forall i :: 0 <= i < |a| ==> a[i] < 128
    requires ValidUtf8(b)
    ensures ValidUtf8(a + b)
  {
    if a == [] {
      assert a + b == b;
    } else {
      AsciiFront(a[1..], b);
      assert (a + b)[1..] == a[1..] + b;
    }
  }

  /** For every definition name, under either prefix and in any percent-encoding, the reference resolves to it. */
  lemma RefNameInverts(name: bytes, prefix: bytes, raw: bytes)
    requires ValidUtf8(name) && prefix in {DEFS, DEFINITIONS}
    requires PercentDecode(raw) == Escaped(name)
    ensures RefName(prefix + raw) == Some(name)
  {
    var reference := prefix + raw;
    assert reference[|prefix|..] == raw;
    assert reference[2] == prefix[2];
    assert DEFS[2] != DEFINITIONS[2];
    EscapedUtf8(name);
    SlashesBack(name);
    TildesBack(name);
  }

  /** In particular for the encoding that escapes a given set of bytes. */
  lemma EncodedRefName(name: bytes, prefix: bytes, reserved: set<byte>)
    requires ValidUtf8(name) && prefix in {DEFS, DEFINITIONS} && PERCENT in reserved
    ensures RefName(prefix + PercentEncode(Escaped(name), reserved)) == Some(name)
  {
    DecodeEncode(Escaped(name), reserved);
    RefNameInverts(name, prefix, PercentEncode(Escaped(name), reserved));
  }

  /** The order of the two replacements matters: the other one misreads the name "~1". */
  lemma OtherOrderMisreads()
    ensures Replace(Replace(Escaped([TILDE, ONE]), TILDE, ZERO, TILDE), TILDE, ONE, SLASH) == [SLASH]
    ensures Unescaped(Escaped([TILDE, ONE])) == [TILDE, ONE]
  {
    assert [TILDE, ONE][1..] == [ONE];
    var e := [TILDE, ZERO, ONE];
    assert Escaped([ONE]) == [ONE];
    assert Escaped([TILDE, ONE]) == e;
    assert e[2..] == [ONE];
    assert Replace([ONE], TILDE, ZERO, TILDE) == [ONE];
    assert Replace(e, TILDE, ZERO, TILDE) == [TILDE, ONE];
    assert [TILDE, ONE][2..] == [];
    SlashesBack([TILDE, ONE]);
    TildesBack([TILDE, ONE]);
  }
}
