/** The loop of the chunked decoder (vyuh-bench/scripts/run_bench.py): its cursor may go back, and it need not end. */
module ChunkedLoop {
  import opened Wrappers
  import opened Bytes
  import opened Scanners

  // ---------------------------------------------------------------------------
  // The loop, turn by turn
  // ---------------------------------------------------------------------------

  /** How Python reads an index in a slice: below zero it counts from the end, and it stops at both ends. */
  function Clamp(length: nat, index: int): (n: nat)
    ensures n <= length
  {
    if index < 0 then if index + length < 0 then 0 else index + length
    else if index <= length then index else length
  }

  function Slice(body: bytes, from: int, to: int): bytes {
    var i, j := Clamp(|body|, from), Clamp(|body|, to);
    if i < j then body[i..j] else []
  }

  /** Indexes within the body cut it there, those below zero count from its end, and those outside reach its ends. */
  lemma SliceIndexes(body: bytes, i: nat, j: nat, k: nat)
    requires i <= j <= |body| && 0 < k <= |body|
    ensures Slice(body, i, j) == body[i..j] && Slice(body, j, i) == []
    ensures Slice(body, 0 - k, j) == Slice(body, |body| - k, j) && Slice(body, i, 0 - k) == Slice(body, i, |body| - k)
    ensures Slice(body, 0 - |body| - k, j) == body[..j] && Slice(body, i, |body| + k) == body[i..]
  {
  }

  /** What one turn does from a place in the body. */
  datatype Turn = Done | Broken | Next(data: bytes, cursor: int)

  function TurnAt(body: bytes, at: nat): Turn
    requires at < |body|
  {
    var line := FindCrlf(body[at..]);
    if line.None? then Done
    else
      var size := ParseSize(BeforeSemicolon(body[at..][..line.value]));
      if size.None? then Broken
      else if size.value == 0 then Done
      else
        var next := at + line.value + 2;
        Next(Slice(body, next, next + size.value), next + size.value + 2)
  }

  datatype Run = Running(cursor: int, output: bytes) | Finished(result: Result<bytes, DecodeError>)

  /** A loop over a body of some length, with what a turn does from each place. */
  datatype Loop = Loop(length: nat, turn: nat -> Turn)

  function LoopOver(body: bytes): Loop {
    Loop(|body|, (at: nat) => if at < |body| then TurnAt(body, at) else Done)
  }

  /** The place a turn starts from, if the loop goes on: `find` reads the cursor as a slice does. */
  function Enter(length: nat, cursor: int): (at: Option<nat>)
    ensures at.Some? ==> at.value < length
  {
    if cursor < length && length > 0 then Some(Clamp(length, cursor)) else None
  }

  function Stepped(l: Loop, r: Run): Run {
    if r.Finished? then r
    else if Enter(l.length, r.cursor).None? then Finished(Ok(r.output))
    else Took(l.turn(Enter(l.length, r.cursor).value), r.output)
  }

  function Took(turn: Turn, output: bytes): Run {
    match turn
    case Done => Finished(Ok(output))
    case Broken => Finished(Err(BadSize))
    case Next(data, cursor) => Running(cursor, output + data)
  }

  /** The loop after a number of turns. */
  function After(l: Loop, turns: nat): Run {
    if turns == 0 then Running(0, []) else Stepped(l, After(l, turns - 1))
  }

  /** One turn: the body of the loop. */
  method TakeTurn(body: bytes, at: nat, output: bytes) returns (r: Run)
    requires at < |body|
    ensures r == Took(TurnAt(body, at), output)
  {
    var line := FindCrlf(body[at..]);
    if line.None? {
      return Finished(Ok(output));
    }
    var size := ParseSize(BeforeSemicolon(body[at..][..line.value]));
    if size.None? {
      return Finished(Err(BadSize));
    }
    var cursor: int := at + line.value + 2;
    if size.value == 0 {
      return Finished(Ok(output));
    }
    var data := Slice(body, cursor, cursor + size.value);
    cursor := cursor + size.value + 2;
    return Running(cursor, output + data);
  }

  lemma TurnOf(body: bytes, at: nat)
    requires at < |body|
    ensures LoopOver(body).turn(at) == TurnAt(body, at)
  {
  }

  /** The loop, followed for as many turns as asked: where it is then, or what it returned. */
  method DecodeChunked(body: bytes, turns: nat) returns (r: Run)
    ensures r == After(LoopOver(body), turns)
  {
    ghost var l := LoopOver(body);
    r := Running(0, []);
    for taken := 0 to turns
      invariant r == After(l, taken)
    {
      if r.Finished? {
        FinishedStays(l, taken, turns);
        return;
      }
      NextTurn(l, taken, r.cursor, r.output);
      if r.cursor < |body| && body != [] {
        TurnOf(body, Clamp(|body|, r.cursor));
        r := TakeTurn(body, Clamp(|body|, r.cursor), r.output);
      } else {
        r := Finished(Ok(r.output));
      }
    }
  }

  lemma NextTurn(l: Loop, n: nat, cursor: int, output: bytes)
    requires After(l, n) == Running(cursor, output)
    ensures After(l, n + 1) ==
            if Enter(l.length, cursor).None? then Finished(Ok(output))
            else Took(l.turn(Enter(l.length, cursor).value), output)
  {
  }

  lemma {:induction false} FinishedStays(l: Loop, m: nat, n: nat)
    requires m <= n && After(l, m).Finished?
    ensures After(l, n) == After(l, m)
  {
    if m < n {
      FinishedStays(l, m, n - 1);
    }
  }

  // ---------------------------------------------------------------------------
  // When it ends
  // ---------------------------------------------------------------------------

  ghost predicate Ends(l: Loop) {
    exists n: nat :: After(l, n).Finished?
  }

  /** The place from which a turn starts, if the loop gets to it. */
  function Place(l: Loop, turn: nat): (at: Option<nat>)
    ensures at.Some? ==> at.value < l.length
  {
    if After(l, turn).Running? then Enter(l.length, After(l, turn).cursor) else None
  }

  /** The place after a given one: nothing else decides it. */
  function NextPlace(l: Loop, at: nat): Option<nat> {
    if l.turn(at).Next? then Enter(l.length, l.turn(at).cursor) else None
  }

  lemma PlaceAfter(l: Loop, turn: nat)
    ensures Place(l, turn + 1) == if Place(l, turn).Some? then NextPlace(l, Place(l, turn).value) else None
  {
  }

  /** The loop has ended one turn after it reaches no place. */
  lemma EndsAfterNoPlace(l: Loop, turn: nat)
    ensures Place(l, turn).None? ==> After(l, turn + 1).Finished?
    ensures Place(l, turn).Some? ==> After(l, turn).Running?
  {
  }

  // Facts about any iteration of a partial step.

  ghost predicate IteratesAt(p: nat -> Option<nat>, next: nat -> Option<nat>, n: nat) {
    p(n + 1) == if p(n).Some? then next(p(n).value) else None
  }

  ghost predicate Iterates(p: nat -> Option<nat>, next: nat -> Option<nat>) {
    forall n: nat :: IteratesAt(p, next, n)
  }

  lemma {:induction false} DefinedBefore(p: nat -> Option<nat>, next: nat -> Option<nat>, m: nat, n: nat)
    requires Iterates(p, next) && m <= n && p(n).Some?
    ensures p(m).Some?
  {
    if m < n {
      assert IteratesAt(p, next, n - 1);
      DefinedBefore(p, next, m, n - 1);
    }
  }

  lemma {:induction false} SameOnwards(p: nat -> Option<nat>, next: nat -> Option<nat>, i: nat, j: nat, m: nat)
    requires Iterates(p, next) && p(i) == p(j)
    ensures p(i + m) == p(j + m)
  {
    if m > 0 {
      SameOnwards(p, next, i, j, m - 1);
      assert IteratesAt(p, next, i + m - 1) && IteratesAt(p, next, j + m - 1);
    }
  }

  /** What comes twice comes for ever. */
  lemma {:induction false} ComesBack(p: nat -> Option<nat>, next: nat -> Option<nat>, i: nat, j: nat, n: nat)
    requires Iterates(p, next) && i < j && p(i).Some? && p(i) == p(j)
    ensures p(n).Some?
    decreases n
  {
    if n <= j {
      DefinedBefore(p, next, n, j);
    } else {
      ComesBack(p, next, i, j, n - (j - i));
      SameOnwards(p, next, i, j, n - j);
      assert i + (n - j) == n - (j - i) && j + (n - j) == n;
    }
  }

  function Places(l: Loop): nat -> Option<nat> {
    (turn: nat) => Place(l, turn)
  }

  function Onwards(l: Loop): nat -> Option<nat> {
    (at: nat) => NextPlace(l, at)
  }

  /** The places of the turns are such an iteration. */
  lemma PlacesIterate(l: Loop)
    ensures Iterates(Places(l), Onwards(l))
  {
    forall n: nat
      ensures IteratesAt(Places(l), Onwards(l), n)
    {
      PlaceAfter(l, n);
    }
  }

  lemma PlaceComesBack(l: Loop, i: nat, j: nat, n: nat)
    requires i < j && Place(l, i).Some? && Place(l, i) == Place(l, j)
    ensures Place(l, n).Some?
  {
    PlacesIterate(l);
    ComesBack(Places(l), Onwards(l), i, j, n);
  }

  lemma PlacesBefore(l: Loop, m: nat, n: nat)
    requires m <= n && Place(l, n).Some?
    ensures Place(l, m).Some?
  {
    PlacesIterate(l);
    DefinedBefore(Places(l), Onwards(l), m, n);
  }

  predicate AllDiffer(s: seq<nat>) {
    forall i, j :: 0 <= i < j < |s| ==> s[i] != s[j]
  }

  function Members(s: seq<nat>): set<nat> {
    set k | 0 <= k < |s| :: s[k]
  }

  lemma {:induction false} AsManyMembers(s: seq<nat>)
    requires AllDiffer(s)
    ensures |Members(s)| == |s|
  {
    if s != [] {
      var n := |s| - 1;
      AsManyMembers(s[..n]);
      assert Members(s) == Members(s[..n]) + {s[n]};
      assert s[n] !in Members(s[..n]);
    }
  }

  lemma {:induction false} FewBelow(members: set<nat>, m: nat)
    requires forall x :: x in members ==> x < m
    ensures |members| <= m
  {
    if m == 0 {
      assert members == {};
    } else {
      FewBelow(members - {m - 1}, m - 1);
    }
  }

  /** Of more than m numbers below m, two are equal. */
  lemma Pigeonhole(s: seq<nat>, m: nat) returns (i: nat, j: nat)
    requires |s| > m && forall k :: 0 <= k < |s| ==> s[k] < m
    ensures i < j < |s| && s[i] == s[j]
  {
    if AllDiffer(s) {
      AsManyMembers(s);
      FewBelow(Members(s), m);
      assert false;
    }
    i, j :| 0 <= i < j < |s| && s[i] == s[j];
  }

  lemma {:induction false} NeverEnds(l: Loop)
    requires forall n: nat :: Place(l, n).Some?
    ensures !Ends(l)
  {
    forall n: nat
      ensures !After(l, n).Finished?
    {
      EndsAfterNoPlace(l, n);
    }
  }

  /** The loop goes on for ever exactly when, within as many turns as the body has bytes, it starts twice from one
      place. */
  lemma RunsForEverIff(l: Loop)
    ensures !Ends(l) <==>
            exists i: nat, j: nat :: i < j <= l.length && Place(l, i).Some? && Place(l, i) == Place(l, j)
  {
    if i: nat, j: nat :| i < j <= l.length && Place(l, i).Some? && Place(l, i) == Place(l, j) {
      forall n: nat
        ensures Place(l, n).Some?
      {
        PlaceComesBack(l, i, j, n);
      }
      NeverEnds(l);
    }
    if !Ends(l) {
      forall n: nat
        ensures Place(l, n).Some?
      {
        EndsAfterNoPlace(l, n);
      }
      var places := seq(l.length + 1, n requires 0 <= n <= l.length => Place(l, n).value);
      var i, j := Pigeonhole(places, l.length);
    }
  }

  /** So following it for one turn more than the body has bytes decides whether it ends. */
  lemma EndsIff(l: Loop)
    ensures Ends(l) <==> After(l, l.length + 1).Finished?
  {
    EndsAfterNoPlace(l, l.length);
    if Place(l, l.length).Some? {
      forall n: nat | n <= l.length
        ensures Place(l, n).Some?
      {
        PlacesBefore(l, n, l.length);
      }
      var places := seq(l.length + 1, n requires 0 <= n <= l.length => Place(l, n).value);
      var i, j := Pigeonhole(places, l.length);
      RunsForEverIff(l);
    }
  }

  /** In this turn the cursor moves on: the size is above -(n + 4), for a size line of n bytes. */
  predicate MovesOn(l: Loop, turn: nat) {
    Place(l, turn).Some? ==>
      var at := Place(l, turn).value;
      l.turn(at).Next? ==> l.turn(at).cursor > at
  }

  lemma {:induction false} PlacesRise(l: Loop, i: nat, j: nat)
    requires i < j && Place(l, j).Some? && forall turn: nat :: turn < j ==> MovesOn(l, turn)
    ensures Place(l, i).Some? && Place(l, i).value < Place(l, j).value
  {
    PlaceAfter(l, j - 1);
    assert MovesOn(l, j - 1);
    if i < j - 1 {
      PlacesRise(l, i, j - 1);
    }
  }

  /** A loop whose cursor moves on in every turn it takes ends. */
  lemma MovingOnEnds(l: Loop)
    requires forall turn: nat :: turn <= l.length ==> MovesOn(l, turn)
    ensures Ends(l)
  {
    RunsForEverIff(l);
    if i: nat, j: nat :| i < j <= l.length && Place(l, i).Some? && Place(l, i) == Place(l, j) {
      PlacesRise(l, i, j);
    }
  }

  // ---------------------------------------------------------------------------
  // Bodies on which it does not end
  // ---------------------------------------------------------------------------

  lemma {:induction false} StaysAtStart(l: Loop, n: nat)
    requires l.length > 0 && l.turn(0).Next? && l.turn(0).cursor == 0
    ensures Place(l, n) == Some(0)
  {
    if n > 0 {
      StaysAtStart(l, n - 1);
      PlaceAfter(l, n - 1);
    }
  }

  /** Every body whose first size line of n bytes says -(n + 4): the cursor is at the start in every turn. */
  lemma ReturningNeverEnds(body: bytes, line: nat)
    requires FindCrlf(body) == Some(line) && ParseSize(BeforeSemicolon(body[..line])) == Some(-(line + 4))
    ensures !Ends(LoopOver(body))
  {
    assert body[0..] == body;
    TurnSized(body, 0, line, -(line + 4));
    TurnOf(body, 0);
    forall n: nat
      ensures Place(LoopOver(body), n).Some?
    {
      StaysAtStart(LoopOver(body), n);
    }
    NeverEnds(LoopOver(body));
  }

  /** For instance every body that starts with the size line "-6". */
  lemma NegativeSizeReturns(rest: bytes)
    ensures !Ends(LoopOver([MINUS, 54] + CRLF + rest))
  {
    var line, six: bytes := [MINUS, 54], [54];
    var body := line + CRLF + rest;
    FirstCrlf(line, rest);
    assert body[..2] == line;
    SizeField(line, []);
    assert line + [] == line && line[1..] == six;
    HexHasNoUnderscores(six);
    assert HexNumber(six) == Some(6) by {
      assert six[..0] == [];
    }
    ReturningNeverEnds(body, 2);
  }

  // ---------------------------------------------------------------------------
  // What it returns when no size is below zero
  // ---------------------------------------------------------------------------

  ghost predicate Returns(l: Loop, r: Result<bytes, DecodeError>) {
    exists n: nat :: After(l, n) == Finished(r)
  }

  lemma ReturnsOnce(l: Loop, r: Result<bytes, DecodeError>, r': Result<bytes, DecodeError>)
    requires Returns(l, r) && Returns(l, r')
    ensures r == r' && Ends(l)
  {
    var m: nat :| After(l, m) == Finished(r);
    var n: nat :| After(l, n) == Finished(r');
    FinishedStays(l, m, if m < n then n else m);
    FinishedStays(l, n, if m < n then n else m);
  }

  lemma TurnSized(body: bytes, at: nat, line: nat, size: int)
    requires at < |body| && FindCrlf(body[at..]) == Some(line)
    requires ParseSize(BeforeSemicolon(body[at..][..line])) == Some(size)
    ensures var next := at + line + 2;
            TurnAt(body, at) == if size == 0 then Done else Next(Slice(body, next, next + size), next + size + 2)
  {
  }

  lemma TurnUnsized(body: bytes, at: nat)
    requires at < |body|
    ensures FindCrlf(body[at..]).None? ==> TurnAt(body, at) == Done
    ensures FindCrlf(body[at..]).Some? && ParseSize(BeforeSemicolon(body[at..][..FindCrlf(body[at..]).value])).None? ==>
              TurnAt(body, at) == Broken
  {
  }

  lemma SliceTaken(body: bytes, at: nat, line: nat, size: nat)
    requires at + line + 2 <= |body|
    ensures var next := at + line + 2;
            && Slice(body, next, next + size) == Take(body[at..][line + 2..], size)
            && Drop(body, next + size + 2) == Drop(body[at..][line + 2..], size + 2)
  {
    var next := at + line + 2;
    assert body[at..][line + 2..] == body[next..];
    DropDrop(body, next, size + 2);
  }

  ghost predicate Agree(body: bytes, at: nat, front: Front, turn: Turn) {
    && (front == Ended ==> turn == Done)
    && (front == Malformed(BadSize) ==> turn == Broken)
    && (front.Read? ==>
          turn.Next? && turn.data == front.data && turn.cursor > at && Drop(body, turn.cursor) == front.rest)
  }

  /** A turn reads what the front of the rest of the body amounts to. */
  lemma TurnReads(body: bytes, at: nat)
    requires at < |body|
    ensures Agree(body, at, ReadFront(body[at..]), TurnAt(body, at))
  {
    var s := body[at..];
    LineFront(s);
    TurnUnsized(body, at);
    var line := FindCrlf(s);
    if line.Some? {
      var size := ParseSize(BeforeSemicolon(s[..line.value]));
      if size.Some? {
        SizedFront(s, line.value, size.value);
        TurnSized(body, at, line.value, size.value);
        if size.value > 0 {
          SliceTaken(body, at, line.value, size.value);
        }
      }
    }
  }

  /** Every turn of the loop reads what the front of the rest of the body amounts to. */
  ghost predicate Reads(l: Loop, body: bytes) {
    l.length == |body| && forall at: nat :: at < |body| ==> ReadsAt(l, body, at)
  }

  ghost predicate ReadsAt(l: Loop, body: bytes, at: nat)
    requires at < |body|
  {
    Agree(body, at, ReadFront(body[at..]), l.turn(at))
  }

  lemma LoopReads(body: bytes)
    ensures Reads(LoopOver(body), body)
  {
    forall at: nat | at < |body|
      ensures ReadsAt(LoopOver(body), body, at)
    {
      TurnReads(body, at);
      TurnOf(body, at);
    }
  }

  /** A turn from a place not below zero. */
  lemma OneTurn(l: Loop, body: bytes, n: nat, cursor: nat, output: bytes, front: Front) returns (next: nat)
    requires Reads(l, body) && cursor < |body|
    requires After(l, n) == Running(cursor, output) && front == ReadFront(body[cursor..])
    ensures front == Ended ==> Returns(l, Ok(output))
    ensures front == Malformed(BadSize) ==> Returns(l, Err(BadSize))
    ensures front.Read? ==>
              After(l, n + 1) == Running(next, output + front.data) && next > cursor && Drop(body, next) == front.rest
  {
    NextTurn(l, n, cursor, output);
    var turn := l.turn(cursor);
    assert ReadsAt(l, body, cursor);
    assert Agree(body, cursor, front, turn) && After(l, n + 1) == Took(turn, output);
    next := if front.Read? then turn.cursor else 0;
  }

  lemma ReadsOn(l: Loop, rest: bytes, front: Front, output: bytes)
    requires front == ReadFront(rest) && front.Read?
    requires Returns(l, Joined(output + front.data, Decoded(front.rest)))
    ensures Returns(l, Joined(output, Decoded(rest)))
  {
    DecodedFront(rest, front);
    JoinedTwice(output, front.data, Decoded(front.rest));
  }

  lemma ReadsLast(l: Loop, rest: bytes, front: Front, output: bytes)
    requires front == ReadFront(rest) && !front.Read?
    requires Returns(l, if front == Ended then Ok(output) else Err(front.error))
    ensures Returns(l, Joined(output, Decoded(rest)))
  {
    DecodedFront(rest, front);
    JoinedTwice(output, [], Ok([]));
  }

  lemma ReadsNothing(l: Loop, n: nat, cursor: nat, output: bytes)
    requires After(l, n) == Running(cursor, output) && cursor >= l.length
    ensures Returns(l, Joined(output, Decoded([])))
  {
    NextTurn(l, n, cursor, output);
    NothingDecodes();
    JoinedTwice(output, [], Ok([]));
  }

  lemma NotBelowZero(rest: bytes, front: Front)
    requires front == ReadFront(rest) && Decoded(rest) != Err(NegativeSize)
    ensures front != Malformed(NegativeSize)
    ensures front.Read? ==> Decoded(front.rest) != Err(NegativeSize)
  {
    DecodedFront(rest, front);
  }

  lemma {:induction false} Follows(l: Loop, body: bytes, n: nat, cursor: nat, output: bytes, rest: bytes)
    requires Reads(l, body) && After(l, n) == Running(cursor, output) && rest == Drop(body, cursor)
    requires Decoded(rest) != Err(NegativeSize)
    ensures Returns(l, Joined(output, Decoded(rest)))
    decreases |rest|
  {
    if rest == [] {
      ReadsNothing(l, n, cursor, output);
    } else {
      var front := ReadFront(rest);
      NotBelowZero(rest, front);
      var next := OneTurn(l, body, n, cursor, output, front);
      if front.Read? {
        Follows(l, body, n + 1, next, output + front.data, front.rest);
        ReadsOn(l, rest, front, output);
      } else {
        ReadsLast(l, rest, front, output);
      }
    }
  }

  /** As long as no size is below zero, the loop ends and returns what the body decodes to. */
  lemma LoopDecodes(body: bytes)
    requires Decoded(body) != Err(NegativeSize)
    ensures Returns(LoopOver(body), Decoded(body)) && Ends(LoopOver(body))
  {
    var l := LoopOver(body);
    LoopReads(body);
    assert Drop(body, 0) == body;
    Follows(l, body, 0, 0, [], body);
    JoinedTwice([], [], Decoded(body));
    ReturnsOnce(l, Decoded(body), Decoded(body));
  }

  /** In particular on every beginning of a chunked body it returns a beginning of the data, and on the whole body all
      of it. */
  lemma LoopDecodesPrefix(chunks: seq<Chunk>, last: Chunk, trailer: bytes, k: nat, r: Result<bytes, DecodeError>)
    requires AllWellFormed(chunks) && WellFormed(last) && last.data == []
    requires k <= |Wire(chunks, last, trailer)|
    ensures Ends(LoopOver(Wire(chunks, last, trailer)[..k]))
    ensures Returns(LoopOver(Wire(chunks, last, trailer)[..k]), r) ==>
              Beginning(r, Data(chunks), k == |Wire(chunks, last, trailer)|)
  {
    var cut := Wire(chunks, last, trailer)[..k];
    PrefixDecodes(chunks, last, trailer, k);
    LoopDecodes(cut);
    if Returns(LoopOver(cut), r) {
      ReturnsOnce(LoopOver(cut), r, Decoded(cut));
    }
  }
}
