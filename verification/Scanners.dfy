/** Two text scanners of the benchmark scripts: the comment stripper (vyuh-bench/scripts/report.py) and the decoder of
    chunked bodies (vyuh-bench/scripts/run_bench.py; section 7.1 of RFC 9112). */
module Scanners {
  import opened Wrappers
  import opened Bytes

  // ---------------------------------------------------------------------------
  // Stripping comments
  // ---------------------------------------------------------------------------

  predicate StartsWith(s: string, a: char, b: char) {
    |s| >= 2 && s[0] == a && s[1] == b
  }

  /** How much of a text comes before its first newline. */
  function LineLength(s: string): (n: nat)
    ensures n <= |s|
  {
    if s == [] || s[0] == '\n' then 0 else 1 + LineLength(s[1..])
  }

  function Stripped(s: string, block: nat): string
    decreases |s|
  {
    if s == [] then []
    else if block > 0 then
      if StartsWith(s, '*', '/') then Stripped(s[2..], block - 1) else Stripped(s[1..], block)
    else if StartsWith(s, '/', '/') then Stripped(s[LineLength(s)..], 0)
    else if StartsWith(s, '/', '*') then Stripped(s[2..], 1)
    else [s[0]] + Stripped(s[1..], 0)
  }

  /** `str.find` of a newline, from a position on. */
  method FindNewline(source: string, from: nat) returns (at: nat)
    requires from <= |source|
    ensures at == from + LineLength(source[from..])
  {
    at := from;
    while at < |source| && source[at] != '\n'
      invariant from <= at <= |source|
      invariant from + LineLength(source[from..]) == at + LineLength(source[at..])
    {
      assert source[at..][1..] == source[at + 1..];
      at := at + 1;
    }
  }

  method StripRustComments(source: string) returns (out: string)
    ensures out == Stripped(source, 0)
  {
    out := [];
    var index, block := 0, 0;
    while index < |source|
      invariant index <= |source|
      invariant Stripped(source, 0) == out + Stripped(source[index..], block)
    {
      var rest := source[index..];
      if block > 0 {
        if StartsWith(rest, '*', '/') {
          assert rest[2..] == source[index + 2..];
          block := block - 1;
          index := index + 2;
        } else {
          assert rest[1..] == source[index + 1..];
          index := index + 1;
        }
      } else if StartsWith(rest, '/', '/') {
        assert LineLength(rest) == 1 + LineLength(rest[1..]);
        assert rest[LineLength(rest)..] == source[index + LineLength(rest)..];
        index := FindNewline(source, index);
      } else if StartsWith(rest, '/', '*') {
        assert rest[2..] == source[index + 2..];
        block := block + 1;
        index := index + 2;
      } else {
        assert rest[1..] == source[index + 1..];
        out := out + [source[index]];
        index := index + 1;
      }
    }
  }

  /** out can be had from s by leaving characters out. */
  predicate Subsequence(out: string, s: string)
    decreases |s|
  {
    if out == [] then true
    else if s == [] then false
    else if out[0] == s[0] && Subsequence(out[1..], s[1..]) then true
    else Subsequence(out, s[1..])
  }

  predicate NoOpener(s: string) {
    forall i :: 0 <= i < |s| - 1 && s[i] == '/' ==> s[i + 1] != '/' && s[i + 1] != '*'
  }

  lemma {:induction false} SubsequenceLater(out: string, s: string, n: nat)
    requires n <= |s| && Subsequence(out, s[n..])
    ensures Subsequence(out, s)
    decreases n
  {
    if n == 0 {
      assert s[0..] == s;
    } else {
      assert s[1..][n - 1..] == s[n..];
      SubsequenceLater(out, s[1..], n - 1);
    }
  }

  /** Only characters of the source are kept, in their order. */
  lemma {:induction false} StrippedIsSubsequence(s: string, block: nat)
    ensures Subsequence(Stripped(s, block), s)
    decreases |s|
  {
    if s != [] {
      var n := if block > 0 then (if StartsWith(s, '*', '/') then 2 else 1)
               else if StartsWith(s, '/', '/') then LineLength(s)
               else if StartsWith(s, '/', '*') then 2 else 1;
      var block' := if block > 0 then (if StartsWith(s, '*', '/') then block - 1 else block)
                    else if StartsWith(s, '/', '*') then 1 else 0;
      StrippedIsSubsequence(s[n..], block');
      SubsequenceLater(Stripped(s[n..], block'), s, n);
    }
  }

  /** Removing a comment never brings two characters together that open another. */
  lemma {:induction false} StrippedHasNoOpener(s: string, block: nat)
    ensures NoOpener(Stripped(s, block))
    decreases |s|
  {
    if s != [] {
      if block > 0 {
        StrippedHasNoOpener(s[if StartsWith(s, '*', '/') then 2 else 1..],
                            if StartsWith(s, '*', '/') then block - 1 else block);
      } else if StartsWith(s, '/', '/') {
        StrippedHasNoOpener(s[LineLength(s)..], 0);
      } else if StartsWith(s, '/', '*') {
        StrippedHasNoOpener(s[2..], 1);
      } else {
        var rest := Stripped(s[1..], 0);
        StrippedHasNoOpener(s[1..], 0);
        assert s[0] == '/' && rest != [] ==> rest[0] == s[1];
      }
    }
  }

  lemma {:induction false} NothingToStrip(s: string)
    requires NoOpener(s)
    ensures Stripped(s, 0) == s
  {
    if s != [] {
      NothingToStrip(s[1..]);
    }
  }

  /** Stripping twice is stripping once. */
  lemma StrippingIsIdempotent(s: string)
    ensures Stripped(Stripped(s, 0), 0) == Stripped(s, 0)
  {
    StrippedHasNoOpener(s, 0);
    NothingToStrip(Stripped(s, 0));
  }

  /** A piece of a text: a character of code, a comment up to the end of its line, a block comment, and one that is not
      closed. */
  datatype Piece = Code(c: char) | Line(text: string) | Block(text: string) | Unclosed(text: string)

  function Written(p: Piece): string {
    match p
    case Code(c) => [c]
    case Line(t) => ['/', '/'] + t
    case Block(t) => ['/', '*'] + t + ['*', '/']
    case Unclosed(t) => ['/', '*'] + t
  }

  function WrittenAll(ps: seq<Piece>): string {
    if ps == [] then [] else Written(ps[0]) + WrittenAll(ps[1..])
  }

  function CodeOf(ps: seq<Piece>): string {
    if ps == [] then [] else (if ps[0].Code? then [ps[0].c] else []) + CodeOf(ps[1..])
  }

  predicate NoCloser(s: string) {
    forall i :: 0 <= i < |s| - 1 && s[i] == '*' ==> s[i + 1] != '/'
  }

  /** The piece may be followed by the rest: code opens no comment with what follows it; a line comment ends
      at a newline or with the text; a block comment at its first closer. */
  predicate Fits(p: Piece, rest: string) {
    match p
    case Code(c) => c == '/' && rest != [] ==> rest[0] != '/' && rest[0] != '*'
    case Line(t) => '\n' !in t && (rest != [] ==> rest[0] == '\n')
    case Block(t) => NoCloser(t)
    case Unclosed(t) => NoCloser(t) && rest == []
  }

  predicate Pieces(ps: seq<Piece>) {
    ps == [] || (Fits(ps[0], WrittenAll(ps[1..])) && Pieces(ps[1..]))
  }

  lemma CharacterStays(c: char, rest: string)
    requires c == '/' && rest != [] ==> rest[0] != '/' && rest[0] != '*'
    ensures Stripped([c] + rest, 0) == [c] + Stripped(rest, 0)
  {
    var s := [c] + rest;
    assert s[1..] == rest;
    assert |s| >= 2 ==> s[1] == rest[0];
  }

  lemma {:induction false} LineEnds(t: string, rest: string)
    requires '\n' !in t && (rest != [] ==> rest[0] == '\n')
    ensures LineLength(t + rest) == |t|
  {
    if t == [] {
      assert t + rest == rest;
    } else {
      LineEnds(t[1..], rest);
      assert (t + rest)[1..] == t[1..] + rest;
    }
  }

  lemma LineGoes(t: string, rest: string)
    requires Fits(Line(t), rest)
    ensures Stripped(Written(Line(t)) + rest, 0) == Stripped(rest, 0)
  {
    var comment := ['/', '/'] + t;
    LineEnds(comment, rest);
    assert (comment + rest)[|comment|..] == rest;
  }

  lemma {:induction false} BlockGoes(t: string, rest: string)
    requires NoCloser(t)
    ensures Stripped(t + (['*', '/'] + rest), 1) == Stripped(rest, 0)
  {
    var s := t + (['*', '/'] + rest);
    if t == [] {
      assert s == ['*', '/'] + rest && s[2..] == rest;
    } else {
      BlockGoes(t[1..], rest);
      assert s[1..] == t[1..] + (['*', '/'] + rest);
      assert s[1] == if |t| > 1 then t[1] else '*';
    }
  }

  lemma {:induction false} UnclosedGoes(t: string)
    requires NoCloser(t)
    ensures Stripped(t, 1) == []
  {
    if t != [] {
      UnclosedGoes(t[1..]);
    }
  }

  lemma BlockOpens(rest: string)
    ensures Stripped(['/', '*'] + rest, 0) == Stripped(rest, 1)
  {
    assert (['/', '*'] + rest)[2..] == rest;
  }

  lemma Rebracketed(a: string, b: string, c: string, d: string)
    ensures a + b + c + d == a + (b + (c + d))
  {
  }

  lemma BlockStrips(t: string, rest: string)
    requires NoCloser(t)
    ensures Stripped(Written(Block(t)) + rest, 0) == Stripped(rest, 0)
  {
    var tail := t + (['*', '/'] + rest);
    BlockGoes(t, rest);
    BlockOpens(tail);
    Rebracketed(['/', '*'], t, ['*', '/'], rest);
  }

  lemma PieceStrips(p: Piece, rest: string)
    requires Fits(p, rest)
    ensures Stripped(Written(p) + rest, 0) == (if p.Code? then [p.c] else []) + Stripped(rest, 0)
  {
    match p
    case Code(c) => CharacterStays(c, rest);
    case Line(t) => LineGoes(t, rest);
    case Block(t) => BlockStrips(t, rest);
    case Unclosed(t) =>
      UnclosedGoes(t);
      BlockOpens(t);
      assert Written(p) + rest == ['/', '*'] + t;
  }

  /** Stripping keeps the code and nothing else: of a text made of code and comments, exactly its code. */
  lemma {:induction false} StrippedIsCode(ps: seq<Piece>)
    requires Pieces(ps)
    ensures Stripped(WrittenAll(ps), 0) == CodeOf(ps)
  {
    if ps != [] {
      PieceStrips(ps[0], WrittenAll(ps[1..]));
      StrippedIsCode(ps[1..]);
    }
  }

  /** The position of the first closer, or the end. */
  function CloserAt(s: string): (n: nat)
    ensures n <= |s|
  {
    if s == [] || StartsWith(s, '*', '/') then 0 else 1 + CloserAt(s[1..])
  }

  lemma {:induction false} BeforeCloser(s: string)
    ensures NoCloser(s[..CloserAt(s)])
    ensures CloserAt(s) < |s| ==> StartsWith(s[CloserAt(s)..], '*', '/')
  {
    if s != [] && !StartsWith(s, '*', '/') {
      BeforeCloser(s[1..]);
      var n := CloserAt(s[1..]);
      assert s[..n + 1] == [s[0]] + s[1..][..n];
      assert s[n + 1..] == s[1..][n..];
    }
  }

  lemma {:induction false} BeforeNewline(s: string)
    ensures '\n' !in s[..LineLength(s)]
    ensures LineLength(s) < |s| ==> s[LineLength(s)] == '\n'
  {
    if s != [] && s[0] != '\n' {
      BeforeNewline(s[1..]);
      assert s[..LineLength(s)] == [s[0]] + s[1..][..LineLength(s[1..])];
    }
  }

  /** The first piece of a text. */
  function FirstPiece(s: string): (p: Piece)
    requires s != []
  {
    if StartsWith(s, '/', '/') then Line(s[2..2 + LineLength(s[2..])])
    else if StartsWith(s, '/', '*') then
      var n := CloserAt(s[2..]);
      if n < |s| - 2 then Block(s[2..2 + n]) else Unclosed(s[2..])
    else Code(s[0])
  }

  lemma LineFits(s: string) returns (rest: string)
    requires StartsWith(s, '/', '/')
    ensures s == Written(FirstPiece(s)) + rest && Fits(FirstPiece(s), rest) && |rest| < |s|
  {
    var n := LineLength(s[2..]);
    BeforeNewline(s[2..]);
    rest := s[2 + n..];
    assert s == ['/', '/'] + s[2..2 + n] + rest;
    assert s[2..][..n] == s[2..2 + n];
  }

  lemma BlockFits(s: string) returns (rest: string)
    requires StartsWith(s, '/', '*')
    ensures s == Written(FirstPiece(s)) + rest && Fits(FirstPiece(s), rest) && |rest| < |s|
  {
    var t := s[2..];
    var n := CloserAt(t);
    BeforeCloser(t);
    assert s == ['/', '*'] + t;
    if n < |t| {
      assert t[n..] == ['*', '/'] + t[n + 2..];
      rest := t[n + 2..];
      assert s[2..2 + n] == t[..n];
      assert t == t[..n] + ['*', '/'] + rest;
    } else {
      rest := [];
      assert t[..n] == t;
    }
  }

  lemma FirstPieceFits(s: string) returns (rest: string)
    requires s != []
    ensures s == Written(FirstPiece(s)) + rest && Fits(FirstPiece(s), rest) && |rest| < |s|
  {
    if StartsWith(s, '/', '/') {
      rest := LineFits(s);
    } else if StartsWith(s, '/', '*') {
      rest := BlockFits(s);
    } else {
      rest := s[1..];
    }
  }

  /** Every text is made of such pieces, so this says what is kept of every text. */
  lemma {:induction false} EveryTextHasPieces(s: string) returns (ps: seq<Piece>)
    ensures Pieces(ps) && WrittenAll(ps) == s && Stripped(s, 0) == CodeOf(ps)
    decreases |s|
  {
    ps := [];
    if s != [] {
      var rest := FirstPieceFits(s);
      var more := EveryTextHasPieces(rest);
      ps := [FirstPiece(s)] + more;
      assert ps[1..] == more;
    }
    StrippedIsCode(ps);
  }

  // ---------------------------------------------------------------------------
  // Decoding chunked bodies
  // ---------------------------------------------------------------------------

  const CR: byte := 13
  const LF: byte := 10
  const SEMICOLON: byte := 59
  const UNDERSCORE: byte := 95
  const PLUS: byte := 43
  const MINUS: byte := 45
  const CRLF: bytes := [CR, LF]

  /** A size that is no number, and one below zero, after which the cursor may go back. */
  datatype DecodeError = BadSize | NegativeSize

  /** The position of the first CRLF. */
  function FindCrlf(s: bytes): (r: Option<nat>)
    ensures r.Some? ==> r.value + 2 <= |s|
  {
    if |s| < 2 then None
    else if s[0] == CR && s[1] == LF then Some(0)
    else
      var r := FindCrlf(s[1..]);
      if r.Some? then Some(r.value + 1) else None
  }

  function BeforeSemicolon(s: bytes): bytes {
    if s == [] || s[0] == SEMICOLON then [] else [s[0]] + BeforeSemicolon(s[1..])
  }

  /** The number hex digits stand for. */
  function HexNumber(s: bytes): Option<nat> {
    if s == [] then Some(0)
    else
      var front := HexNumber(s[..|s| - 1]);
      if front.Some? && IsHex(s[|s| - 1]) then Some(16 * front.value + HexValue(s[|s| - 1])) else None
  }

  /** The white space Python's `int` drops at both ends. */
  predicate IsBlank(b: byte) {
    b == 32 || 9 <= b <= 13
  }

  function TrimLeft(s: bytes): bytes {
    if s != [] && IsBlank(s[0]) then TrimLeft(s[1..]) else s
  }

  function TrimRight(s: bytes): bytes {
    if s != [] && IsBlank(s[|s| - 1]) then TrimRight(s[..|s| - 1]) else s
  }

  function WithoutUnderscores(s: bytes): bytes {
    if s == [] then [] else (if s[0] == UNDERSCORE then [] else [s[0]]) + WithoutUnderscores(s[1..])
  }

  /** Underscores may only stand between digits. */
  predicate Separated(s: bytes) {
    s != [] && s[0] != UNDERSCORE && s[|s| - 1] != UNDERSCORE && !Doubled(s)
  }

  predicate Doubled(s: bytes) {
    |s| >= 2 && ((s[0] == UNDERSCORE && s[1] == UNDERSCORE) || Doubled(s[1..]))
  }

  /** An optional 0x, which one underscore may follow. */
  function WithoutPrefix(s: bytes): bytes {
    if |s| >= 2 && s[0] == 48 && (s[1] == 88 || s[1] == 120) then
      if |s| >= 3 && s[2] == UNDERSCORE then s[3..] else s[2..]
    else s
  }

  function Magnitude(s: bytes): Option<nat> {
    if Separated(WithoutPrefix(s)) then HexNumber(WithoutUnderscores(WithoutPrefix(s))) else None
  }

  /** The number `int(s, 16)` gives: blanks at both ends, a sign, a prefix and underscores are accepted. */
  function ParseSize(s: bytes): Option<int> {
    var trimmed := TrimRight(TrimLeft(s));
    if trimmed != [] && (trimmed[0] == PLUS || trimmed[0] == MINUS) then
      var size: Option<int> := Magnitude(trimmed[1..]);
      if size.Some? && trimmed[0] == MINUS then Some(-size.value) else size
    else Magnitude(trimmed)
  }

  function Take(s: bytes, n: nat): bytes {
    if n <= |s| then s[..n] else s
  }

  function Drop(s: bytes, n: nat): (r: bytes)
    ensures |r| <= |s|
  {
    if n <= |s| then s[n..] else []
  }

  /** What the front of a body amounts to: the end, a size it cannot use, or some data and what follows it. */
  datatype Front = Ended | Malformed(error: DecodeError) | Read(data: bytes, rest: bytes)

  function ReadFront(s: bytes): (r: Front)
    ensures r.Read? ==> |r.rest| < |s|
  {
    var line := FindCrlf(s);
    if line.None? then Ended
    else
      var size := ParseSize(BeforeSemicolon(s[..line.value]));
      if size.None? then Malformed(BadSize)
      else if size.value == 0 then Ended
      else if size.value < 0 then Malformed(NegativeSize)
      else
        var rest := s[line.value + 2..];
        Read(Take(rest, size.value), Drop(rest, size.value + 2))
  }

  function Decoded(s: bytes): Result<bytes, DecodeError>
    decreases |s|
  {
    match ReadFront(s)
    case Ended => Ok([])
    case Malformed(error) => Err(error)
    case Read(data, rest) => Joined(data, Decoded(rest))
  }

  /** A result with some output in front. */
  function Joined(output: bytes, tail: Result<bytes, DecodeError>): Result<bytes, DecodeError> {
    if tail.Err? then tail else Ok(output + tail.value)
  }

  lemma JoinedTwice(a: bytes, b: bytes, tail: Result<bytes, DecodeError>)
    ensures Joined(a, Joined(b, tail)) == Joined(a + b, tail)
    ensures Joined([], tail) == tail && Joined(a, Ok([])) == Ok(a)
  {
    assert a + [] == a;
    if tail.Ok? {
      assert [] + tail.value == tail.value;
      assert a + (b + tail.value) == a + b + tail.value;
    }
  }

  lemma DropDrop(s: bytes, i: nat, j: nat)
    requires i <= |s|
    ensures Drop(s[i..], j) == Drop(s, i + j)
  {
  }

  lemma LineFront(s: bytes)
    ensures FindCrlf(s).None? ==> ReadFront(s) == Ended
    ensures FindCrlf(s).Some? && ParseSize(BeforeSemicolon(s[..FindCrlf(s).value])).None? ==>
              ReadFront(s) == Malformed(BadSize)
  {
  }

  lemma SizedFront(s: bytes, line: nat, size: int)
    requires FindCrlf(s) == Some(line) && ParseSize(BeforeSemicolon(s[..line])) == Some(size)
    ensures ReadFront(s) ==
            if size == 0 then Ended else if size < 0 then Malformed(NegativeSize)
            else Read(Take(s[line + 2..], size), Drop(s[line + 2..], size + 2))
  {
  }

  /** A chunk as it is sent: its size in hex, an optional extension, which blanks may precede, and its data. */
  datatype Chunk = Chunk(size: bytes, blanks: bytes, ext: bytes, data: bytes)

  /** Spaces and tabs. */
  predicate Spaces(s: bytes) {
    s == [] || ((s[|s| - 1] == 32 || s[|s| - 1] == 9) && Spaces(s[..|s| - 1]))
  }

  predicate WellFormed(c: Chunk) {
    && c.size != [] && HexNumber(c.size) == Some(|c.data|)
    && Spaces(c.blanks)
    && (c.ext == [] || c.ext[0] == SEMICOLON) && CR !in c.ext
  }

  /** Well-formed chunks, each with data. */
  predicate AllWellFormed(chunks: seq<Chunk>) {
    chunks == [] || (WellFormed(chunks[0]) && chunks[0].data != [] && AllWellFormed(chunks[1..]))
  }

  function Header(c: Chunk): bytes {
    c.size + c.blanks + c.ext + CRLF
  }

  /** A chunked body: chunks with data, a last chunk without, and whatever trailer follows it. */
  function Wire(chunks: seq<Chunk>, last: Chunk, trailer: bytes): bytes {
    if chunks == [] then Header(last) + trailer
    else Header(chunks[0]) + (chunks[0].data + CRLF + Wire(chunks[1..], last, trailer))
  }

  function Data(chunks: seq<Chunk>): bytes {
    if chunks == [] then [] else chunks[0].data + Data(chunks[1..])
  }

  lemma {:induction false} FirstCrlf(a: bytes, rest: bytes)
    requires CR !in a
    ensures FindCrlf(a + CRLF + rest) == Some(|a|)
  {
    var s := a + CRLF + rest;
    if a != [] {
      FirstCrlf(a[1..], rest);
      assert s[1..] == a[1..] + CRLF + rest;
      assert s[0] == a[0] != CR;
    }
  }

  /** A header that is cut short has no line end yet. */
  lemma {:induction false} NoCrlf(a: bytes, k: nat)
    requires CR !in a && k <= |a| + 1
    ensures FindCrlf((a + CRLF)[..k]) == None
  {
    var s := (a + CRLF)[..k];
    if a != [] && k > 0 {
      NoCrlf(a[1..], k - 1);
      assert (a + CRLF)[1..] == a[1..] + CRLF;
      assert s[1..] == (a[1..] + CRLF)[..k - 1];
      assert s[0] == a[0] != CR;
    }
  }

  lemma {:induction false} SizeField(size: bytes, ext: bytes)
    requires SEMICOLON !in size && (ext == [] || ext[0] == SEMICOLON)
    ensures BeforeSemicolon(size + ext) == size
  {
    if size == [] {
      assert size + ext == ext;
    } else {
      SizeField(size[1..], ext);
      assert (size + ext)[1..] == size[1..] + ext;
    }
  }

  predicate AllHex(s: bytes) {
    forall i :: 0 <= i < |s| ==> IsHex(s[i])
  }

  lemma {:induction false} NumbersAreHex(s: bytes)
    requires HexNumber(s).Some?
    ensures AllHex(s)
  {
    if s != [] {
      NumbersAreHex(s[..|s| - 1]);
      assert forall i :: 0 <= i < |s| - 1 ==> s[i] == s[..|s| - 1][i];
    }
  }

  lemma {:induction false} BlanksTrimmed(size: bytes, blanks: bytes)
    requires size != [] && AllHex(size) && Spaces(blanks)
    ensures TrimRight(size + blanks) == size
  {
    if blanks == [] {
      assert size + blanks == size;
    } else {
      BlanksTrimmed(size, blanks[..|blanks| - 1]);
      assert (size + blanks)[..|size + blanks| - 1] == size + blanks[..|blanks| - 1];
    }
  }

  lemma {:induction false} HexHasNoUnderscores(s: bytes)
    requires AllHex(s)
    ensures WithoutUnderscores(s) == s && !Doubled(s)
  {
    if s != [] {
      HexHasNoUnderscores(s[1..]);
    }
  }

  /** Hex digits, with or without blanks after them, are read as the number they stand for. */
  lemma PlainSize(size: bytes, blanks: bytes)
    requires size != [] && HexNumber(size).Some? && Spaces(blanks)
    ensures ParseSize(size + blanks) == HexNumber(size)
  {
    NumbersAreHex(size);
    assert (size + blanks)[0] == size[0];
    assert TrimLeft(size + blanks) == size + blanks;
    BlanksTrimmed(size, blanks);
    HexHasNoUnderscores(size);
  }

  /** A number written in hex, in the letters of either case. */
  function HexText(n: nat, upper: bool): (r: bytes)
    ensures r != []
  {
    if n < 16 then [HexLetter(n, upper)] else HexText(n / 16, upper) + [HexLetter(n % 16, upper)]
  }

  /** Every number is read back from its hex digits. */
  lemma {:induction false} HexTextIsRead(n: nat, upper: bool)
    ensures HexNumber(HexText(n, upper)) == Some(n)
  {
    if n < 16 {
      LetterRead([], n, upper);
      assert [] + [HexLetter(n, upper)] == [HexLetter(n, upper)];
    } else {
      HexTextIsRead(n / 16, upper);
      LetterRead(HexText(n / 16, upper), n % 16, upper);
    }
  }

  lemma LetterRead(front: bytes, v: nat, upper: bool)
    requires v < 16 && HexNumber(front).Some?
    ensures HexNumber(front + [HexLetter(v, upper)]) == Some(16 * HexNumber(front).value + v)
  {
    LetterValue(v, upper);
    OneMoreDigit(front, HexLetter(v, upper));
  }

  lemma OneMoreDigit(front: bytes, digit: byte)
    requires IsHex(digit) && HexNumber(front).Some?
    ensures HexNumber(front + [digit]) == Some(16 * HexNumber(front).value + HexValue(digit))
  {
    assert (front + [digit])[..|front|] == front;
  }

  lemma NothingToTrim(s: bytes)
    requires s != [] && !IsBlank(s[0]) && !IsBlank(s[|s| - 1])
    ensures TrimRight(TrimLeft(s)) == s
  {
  }

  lemma MagnitudeOf(digits: bytes)
    requires digits != [] && HexNumber(digits).Some?
    ensures Magnitude(digits) == HexNumber(digits) && Magnitude([48, 120] + digits) == HexNumber(digits)
    ensures Magnitude([48, 88, UNDERSCORE] + digits) == HexNumber(digits)
  {
    NumbersAreHex(digits);
    HexHasNoUnderscores(digits);
    assert ([48, 120] + digits)[2..] == digits;
    assert ([48, 88, UNDERSCORE] + digits)[3..] == digits;
  }

  lemma PrefixedSize(prefix: bytes, digits: bytes)
    requires prefix != [] && prefix[0] == 48 && digits != [] && AllHex(digits)
    ensures ParseSize(prefix + digits) == Magnitude(prefix + digits)
  {
    NothingToTrim(prefix + digits);
  }

  lemma SignRead(s: bytes, size: nat)
    requires |s| >= 2 && s[0] in {PLUS, MINUS} && !IsBlank(s[|s| - 1]) && Magnitude(s[1..]) == Some(size)
    ensures ParseSize(s) == Some(if s[0] == MINUS then 0 - size else size)
  {
    NothingToTrim(s);
  }

  lemma DigitsEnd(s: bytes)
    requires |s| >= 2 && HexNumber(s[1..]).Some?
    ensures !IsBlank(s[|s| - 1]) && Magnitude(s[1..]) == HexNumber(s[1..])
  {
    NumbersAreHex(s[1..]);
    MagnitudeOf(s[1..]);
    assert s[|s| - 1] == s[1..][|s| - 2];
  }

  /** A size may have a sign, "+" or "-", in front of its digits. */
  lemma SignedSize(s: bytes, n: nat)
    requires |s| >= 2 && (s[0] == 43 || s[0] == 45) && HexNumber(s[1..]) == Some(n)
    ensures ParseSize(s) == Some(if s[0] == 45 then 0 - n else n)
  {
    DigitsEnd(s);
    SignRead(s, n);
  }

  /** It may have a prefix: "0x", or "0X_". */
  lemma PrefixedForms(digits: bytes, n: nat)
    requires digits != [] && HexNumber(digits) == Some(n)
    ensures ParseSize([48, 120] + digits) == Some(n) && ParseSize([48, 88, 95] + digits) == Some(n)
  {
    NumbersAreHex(digits);
    MagnitudeOf(digits);
    PrefixedSize([48, 120], digits);
    PrefixedSize([48, 88, 95], digits);
  }

  lemma {:induction false} OnlySpaces(s: bytes)
    requires Spaces(s)
    ensures forall i :: 0 <= i < |s| ==> s[i] == 32 || s[i] == 9
  {
    if s != [] {
      OnlySpaces(s[..|s| - 1]);
      assert forall i :: 0 <= i < |s| - 1 ==> s[i] == s[..|s| - 1][i];
    }
  }

  function SizeLine(c: Chunk): bytes {
    c.size + c.blanks + c.ext
  }

  lemma HeaderLine(c: Chunk, rest: bytes)
    requires WellFormed(c)
    ensures var s, line := Header(c) + rest, SizeLine(c);
            FindCrlf(s) == Some(|line|) && s[..|line|] == line && s[|line| + 2..] == rest
  {
    NumbersAreHex(c.size);
    OnlySpaces(c.blanks);
    FirstCrlf(SizeLine(c), rest);
    assert Header(c) + rest == SizeLine(c) + CRLF + rest;
  }

  lemma HeaderSize(c: Chunk)
    requires WellFormed(c)
    ensures ParseSize(BeforeSemicolon(SizeLine(c))) == Some(|c.data|)
  {
    NumbersAreHex(c.size);
    OnlySpaces(c.blanks);
    SizeField(c.size + c.blanks, c.ext);
    PlainSize(c.size, c.blanks);
  }

  /** Reading what starts with a whole header. */
  lemma HeaderReads(c: Chunk, rest: bytes)
    requires WellFormed(c)
    ensures ReadFront(Header(c) + rest) ==
            if c.data == [] then Ended else Read(Take(rest, |c.data|), Drop(rest, |c.data| + 2))
  {
    HeaderLine(c, rest);
    HeaderSize(c);
    SizedFront(Header(c) + rest, |SizeLine(c)|, |c.data|);
  }

  lemma CutHeader(c: Chunk, rest: bytes, k: nat)
    requires WellFormed(c) && k < |Header(c)|
    ensures k <= |Header(c) + rest| && ReadFront((Header(c) + rest)[..k]) == Ended
  {
    NumbersAreHex(c.size);
    OnlySpaces(c.blanks);
    NoCrlf(c.size + c.blanks + c.ext, k);
    assert (Header(c) + rest)[..k] == (c.size + c.blanks + c.ext + CRLF)[..k];
  }

  lemma CutLater(a: bytes, b: bytes, k: nat)
    requires |a| <= k <= |a| + |b|
    ensures (a + b)[..k] == a + b[..k - |a|]
  {
  }

  /** What is read of a chunk's data, and what is left for the next, when the body is cut at k. */
  lemma CutData(data: bytes, others: bytes, k: nat)
    requires k <= |data| + 2 + |others|
    ensures var cut := (data + CRLF + others)[..k];
            && Take(cut, |data|) == data[..if k < |data| then k else |data|]
            && Drop(cut, |data| + 2) == if k < |data| + 2 then [] else others[..k - |data| - 2]
  {
    var cut := (data + CRLF + others)[..k];
    if k >= |data| + 2 {
      assert data + CRLF + others == (data + CRLF) + others;
      CutLater(data + CRLF, others, k);
    }
  }

  /** A decoded beginning of the data, and all of it if the body was whole. */
  predicate Beginning(r: Result<bytes, DecodeError>, data: bytes, whole: bool) {
    r.Ok? && r.value <= data && (whole ==> r.value == data)
  }

  lemma BeginningAfter(front: bytes, tail: Result<bytes, DecodeError>, data: bytes, others: bytes, whole: bool)
    requires front == data && Beginning(tail, others, whole)
    ensures Beginning(Joined(front, tail), data + others, whole)
  {
  }

  lemma BeginningCut(data: bytes, others: bytes, n: nat)
    requires n <= |data|
    ensures Beginning(Joined(data[..n], Ok([])), data + others, false)
  {
  }

  lemma DecodedFront(s: bytes, front: Front)
    requires ReadFront(s) == front
    ensures front == Ended ==> Decoded(s) == Ok([])
    ensures front.Malformed? ==> Decoded(s) == Err(front.error)
    ensures front.Read? ==> Decoded(s) == Joined(front.data, Decoded(front.rest))
  {
  }

  lemma HeaderDecodes(c: Chunk, rest: bytes)
    requires WellFormed(c)
    ensures Decoded(Header(c) + rest) ==
            if c.data == [] then Ok([]) else Joined(Take(rest, |c.data|), Decoded(Drop(rest, |c.data| + 2)))
  {
    HeaderReads(c, rest);
    DecodedFront(Header(c) + rest,
                 if c.data == [] then Ended else Read(Take(rest, |c.data|), Drop(rest, |c.data| + 2)));
  }

  lemma CutHeaderDecodes(c: Chunk, rest: bytes, k: nat)
    requires WellFormed(c) && k < |Header(c)|
    ensures k <= |Header(c) + rest| && Decoded((Header(c) + rest)[..k]) == Ok([])
  {
    CutHeader(c, rest, k);
    DecodedFront((Header(c) + rest)[..k], Ended);
  }

  /** A body cut inside its last chunk's header, or after it. */
  lemma LastDecodes(last: Chunk, trailer: bytes, k: nat)
    requires WellFormed(last) && last.data == [] && k <= |Header(last) + trailer|
    ensures Decoded((Header(last) + trailer)[..k]) == Ok([])
  {
    if k < |Header(last)| {
      CutHeaderDecodes(last, trailer, k);
    } else {
      CutLater(Header(last), trailer, k);
      HeaderDecodes(last, trailer[..k - |Header(last)|]);
    }
  }

  /** A chunk cut n bytes after its header, given what is decoded of the others. */
  lemma CutBeginning(data: bytes, others: bytes, n: nat, tail: Result<bytes, DecodeError>, more: bytes, whole: bool)
    requires n <= |data| + 2 + |others|
    requires if n < |data| + 2 then !whole && tail == Ok([]) else Beginning(tail, more, whole)
    ensures Beginning(Joined(Take((data + CRLF + others)[..n], |data|), tail), data + more, whole)
  {
    CutData(data, others, n);
    if n < |data| + 2 {
      BeginningCut(data, more, if n < |data| then n else |data|);
    } else {
      BeginningAfter(data, tail, data, more, whole);
    }
  }

  lemma NothingDecodes()
    ensures Decoded([]) == Ok([])
  {
  }

  /** A body cut n bytes after the header of its first chunk, given what the other chunks decode to. */
  lemma ChunkDecodes(c: Chunk, others: bytes, more: bytes, n: nat, whole: bool)
    requires WellFormed(c) && c.data != [] && n <= |c.data| + 2 + |others|
    requires if n < |c.data| + 2 then !whole else Beginning(Decoded(others[..n - |c.data| - 2]), more, whole)
    ensures Beginning(Decoded(Header(c) + (c.data + CRLF + others)[..n]), c.data + more, whole)
  {
    var cut := (c.data + CRLF + others)[..n];
    HeaderDecodes(c, cut);
    CutData(c.data, others, n);
    NothingDecodes();
    CutBeginning(c.data, others, n, Decoded(Drop(cut, |c.data| + 2)), more, whole);
  }

  lemma HeaderCut(c: Chunk, rest: bytes, data: bytes, k: nat)
    requires WellFormed(c) && k < |Header(c)|
    ensures k < |Header(c) + rest| && Beginning(Decoded((Header(c) + rest)[..k]), data, false)
  {
    CutHeaderDecodes(c, rest, k);
  }

  /** The same for a cut counted from the start of the header. */
  lemma ChunkCut(c: Chunk, rest: bytes, k: nat, data: bytes, whole: bool)
    requires |Header(c)| <= k <= |Header(c) + rest|
    requires Beginning(Decoded(Header(c) + rest[..k - |Header(c)|]), data, whole)
    ensures Beginning(Decoded((Header(c) + rest)[..k]), data, whole)
  {
    CutLater(Header(c), rest, k);
  }

  /** How far a cut goes into what follows the first chunk. */
  function Beyond(c: Chunk, k: nat): int {
    k - |Header(c)| - |c.data| - 2
  }

  /** A cut anywhere in a chunk and what follows it, given what is decoded of that. */
  lemma ChunkStep(c: Chunk, others: bytes, more: bytes, k: nat, tail: Result<bytes, DecodeError>)
    requires WellFormed(c) && c.data != [] && k <= |Header(c) + (c.data + CRLF + others)|
    requires Beyond(c, k) >= 0 ==>
               tail == Decoded(others[..Beyond(c, k)]) && Beginning(tail, more, Beyond(c, k) == |others|)
    ensures var body := Header(c) + (c.data + CRLF + others);
            Beginning(Decoded(body[..k]), c.data + more, k == |body|)
  {
    var rest := c.data + CRLF + others;
    if k < |Header(c)| {
      HeaderCut(c, rest, c.data + more, k);
    } else {
      var n := k - |Header(c)|;
      CutInChunk(c, others, more, n, tail);
      assert n == |rest| <==> k == |Header(c) + rest|;
      ChunkCut(c, rest, k, c.data + more, n == |rest|);
    }
  }

  lemma CutInChunk(c: Chunk, others: bytes, more: bytes, n: nat, tail: Result<bytes, DecodeError>)
    requires WellFormed(c) && c.data != [] && n <= |c.data + CRLF + others|
    requires n >= |c.data| + 2 ==>
               var beyond := n - |c.data| - 2;
               tail == Decoded(others[..beyond]) && Beginning(tail, more, beyond == |others|)
    ensures var rest := c.data + CRLF + others;
            Beginning(Decoded(Header(c) + rest[..n]), c.data + more, n == |rest|)
  {
    ChunkDecodes(c, others, more, n, n == |c.data + CRLF + others|);
  }

  /** Every beginning of a chunked body decodes to a beginning of its data, and the whole body to all of it. */
  lemma {:induction false} PrefixDecodes(chunks: seq<Chunk>, last: Chunk, trailer: bytes, k: nat)
    requires AllWellFormed(chunks)
    requires WellFormed(last) && last.data == []
    requires k <= |Wire(chunks, last, trailer)|
    ensures Beginning(Decoded(Wire(chunks, last, trailer)[..k]), Data(chunks), k == |Wire(chunks, last, trailer)|)
  {
    if chunks == [] {
      LastDecodes(last, trailer, k);
    } else {
      var c, others := chunks[0], Wire(chunks[1..], last, trailer);
      var tail: Result<bytes, DecodeError> := Ok([]);
      if Beyond(c, k) >= 0 {
        PrefixDecodes(chunks[1..], last, trailer, Beyond(c, k));
        tail := Decoded(others[..Beyond(c, k)]);
      }
      ChunkStep(c, others, Data(chunks[1..]), k, tail);
    }
  }

  /** A whole chunked body decodes to the concatenation of its chunks, extensions and trailer left out. */
  lemma BodyDecodes(chunks: seq<Chunk>, last: Chunk, trailer: bytes)
    requires AllWellFormed(chunks)
    requires WellFormed(last) && last.data == []
    ensures Decoded(Wire(chunks, last, trailer)) == Ok(Data(chunks))
  {
    var wire := Wire(chunks, last, trailer);
    assert wire[..|wire|] == wire;
    PrefixDecodes(chunks, last, trailer, |wire|);
  }
}
