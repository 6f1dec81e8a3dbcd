/** The notification listener's reconnect loop and its backoff (vyuh/src/db_notify.rs). Durations are in milliseconds;
    what the database, the consumer, the random source and the shutdown signal do is given as a script. */
module Listener {
  import opened Wrappers

  datatype Notify = Notify(channel: string, payload: string)

  /** A notification and whether the consumer wants more after it. */
  datatype Note = Note(notify: Notify, accepted: bool)

  datatype End = Disconnect | ShutdownSeen

  datatype Attempt =
    | Refused
    | Connected(welcome: bool, notes: seq<Note>, end: End)

  /** One turn of the reconnect loop; `slept` tells whether its sleep ended before a shutdown. */
  datatype Round = Round(attempt: Attempt, random: nat, slept: bool)

  datatype Outcome = Closed | Disconnected | Shutdown

  function Min(a: nat, b: nat): nat {
    if a < b then a else b
  }

  function Max(a: nat, b: nat): nat {
    if a < b then b else a
  }

  function ReconnectDuration(value: nat, min: nat): nat {
    Max(value, min)
  }

  /** Doubling with up to a quarter of jitter, capped. */
  function NextBackoff(current: nat, max: nat, random: nat): nat {
    var doubled := Min(2 * current, max);
    var window := Max(doubled / 4, 1);
    Min(doubled + random % window, max)
  }

  // ---------------------------------------------------------------------------
  // What the consumer is shown
  // ---------------------------------------------------------------------------

  function Heard(notes: seq<Note>): seq<Option<Notify>> {
    if notes == [] then []
    else [Some(notes[0].notify)] + if notes[0].accepted then Heard(notes[1..]) else []
  }

  predicate AllAccepted(notes: seq<Note>) {
    forall i :: 0 <= i < |notes| ==> notes[i].accepted
  }

  /** A session: the call that asks for a rescan, then the notifications the consumer took. */
  function Session(a: Attempt): seq<Option<Notify>>
    requires a.Connected?
  {
    [None] + if a.welcome then Heard(a.notes) else []
  }

  predicate GoesOn(r: Round) {
    r.slept && Loses(r.attempt)
  }

  function Sessions(script: seq<Round>): seq<seq<Option<Notify>>> {
    if script == [] then []
    else (if script[0].attempt.Connected? then [Session(script[0].attempt)] else [])
         + if GoesOn(script[0]) then Sessions(script[1..]) else []
  }

  /** The round ends with the listener lost, and so with a sleep before the next one. */
  predicate Loses(a: Attempt) {
    a.Connected? ==> a.welcome && AllAccepted(a.notes) && a.end == Disconnect
  }

  /** How long each round sleeps: the initial backoff after a connection, else the one that grew since. */
  function Naps(script: seq<Round>, backoff: nat, initial: nat, max: nat): seq<nat> {
    if script == [] || !Loses(script[0].attempt) then []
    else
      var nap := if script[0].attempt.Connected? then initial else backoff;
      [nap] + if script[0].slept then Naps(script[1..], NextBackoff(nap, max, script[0].random), initial, max) else []
  }

  function Flatten(sessions: seq<seq<Option<Notify>>>): seq<Option<Notify>> {
    if sessions == [] then [] else sessions[0] + Flatten(sessions[1..])
  }

  lemma FlattenSessions(script: seq<Round>)
    requires script != []
    ensures Flatten(Sessions(script)) ==
            (if script[0].attempt.Connected? then Session(script[0].attempt) else [])
            + if GoesOn(script[0]) then Flatten(Sessions(script[1..])) else []
  {
    var rest := if GoesOn(script[0]) then Sessions(script[1..]) else [];
    if script[0].attempt.Connected? {
      FlattenCons(Session(script[0].attempt), rest);
    } else {
      assert [] + rest == rest;
    }
  }

  lemma FlattenCons(s: seq<Option<Notify>>, rest: seq<seq<Option<Notify>>>)
    ensures Flatten([s] + rest) == s + Flatten(rest)
  {
    assert ([s] + rest)[1..] == rest;
  }

  // ---------------------------------------------------------------------------
  // The loops
  // ---------------------------------------------------------------------------

  lemma HeardStep(notes: seq<Note>, k: nat, seen: seq<Option<Notify>>)
    requires k < |notes|
    ensures seen + Heard(notes[k..]) ==
            seen + [Some(notes[k].notify)] + if notes[k].accepted then Heard(notes[k + 1..]) else []
  {
    assert notes[k..][1..] == notes[k + 1..];
  }

  lemma Regrouped<T>(a: seq<T>, b: seq<T>, c: seq<T>)
    ensures a + (b + c) == a + b + c
  {
  }

  /** What one turn of the loop shows the consumer. */
  function Shown(r: Round): seq<Option<Notify>> {
    if r.attempt.Connected? then Session(r.attempt) else []
  }

  lemma TurnShown(script: seq<Round>, r: nat, seen: seq<Option<Notify>>)
    requires r < |script|
    ensures seen + Flatten(Sessions(script[r..])) ==
            seen + Shown(script[r]) + if GoesOn(script[r]) then Flatten(Sessions(script[r + 1..])) else []
  {
    var turns := script[r..];
    FlattenSessions(turns);
    assert turns[0] == script[r] && turns[1..] == script[r + 1..];
    Regrouped(seen, Shown(script[r]), if GoesOn(script[r]) then Flatten(Sessions(script[r + 1..])) else []);
  }

  /** How long one turn sleeps, and what the turns after it sleep. */
  lemma TurnSlept(script: seq<Round>, r: nat, naps: seq<nat>, kept: nat, initial: nat, max: nat)
    requires r < |script|
    ensures var nap := if script[r].attempt.Connected? then initial else kept;
            naps + Naps(script[r..], kept, initial, max) ==
            if !Loses(script[r].attempt) then naps
            else if !script[r].slept then naps + [nap]
            else naps + [nap] + Naps(script[r + 1..], NextBackoff(nap, max, script[r].random), initial, max)
  {
    assert script[r..][1..] == script[r + 1..];
  }

  method ReceiveNotifications(a: Attempt, before: seq<Option<Notify>>)
    returns (outcome: Outcome, seen: seq<Option<Notify>>)
    requires a.Connected?
    ensures seen == before + Heard(a.notes)
    ensures outcome == if !AllAccepted(a.notes) then Closed else if a.end == Disconnect then Disconnected else Shutdown
  {
    seen := before;
    for k := 0 to |a.notes|
      invariant before + Heard(a.notes) == seen + Heard(a.notes[k..])
      invariant forall i :: 0 <= i < k ==> a.notes[i].accepted
    {
      HeardStep(a.notes, k, seen);
      seen := seen + [Some(a.notes[k].notify)];
      if !a.notes[k].accepted {
        return Closed, seen;
      }
    }
    outcome := if a.end == Disconnect then Disconnected else Shutdown;
  }

  /** The sleeps of the first rounds: each within the bounds of its streak, and none shorter than the one before it
      in the same streak. */
  predicate Paced(script: seq<Round>, naps: seq<nat>, initial: nat, max: nat) {
    && |naps| <= |script|
    && (forall i :: 0 <= i < |naps| ==> Backoff(initial, max, Streak(script, i), naps[i]))
    && (forall i :: 0 <= i < |naps| - 1 && script[i + 1].attempt.Refused? ==> naps[i] <= naps[i + 1])
  }

  /** The backoff kept for the next round. */
  predicate Pending(script: seq<Round>, naps: seq<nat>, backoff: nat, initial: nat, max: nat) {
    && |naps| <= |script|
    && Backoff(initial, max, if naps == [] then 0 else Streak(script, |naps| - 1) + 1, backoff)
    && (naps != [] ==> naps[|naps| - 1] <= backoff)
  }

  /** One connection attempt and, if it succeeds, its session; the backoff starts over with every session. */
  method RunAttempt(r: Round, before: seq<Option<Notify>>, kept: nat, initial: nat)
    returns (outcome: Outcome, seen: seq<Option<Notify>>, backoff: nat)
    ensures seen == before + Shown(r)
    ensures outcome == Disconnected <==> Loses(r.attempt)
    ensures outcome == Disconnected ==> backoff == if r.attempt.Connected? then initial else kept
  {
    outcome, seen, backoff := Disconnected, before, kept;
    if r.attempt.Connected? {
      seen := seen + [None];
      if !r.attempt.welcome {
        return Closed, seen, backoff;
      }
      backoff := initial;
      outcome, seen := ReceiveNotifications(r.attempt, seen);
    }
  }

  /** Follows the script as far as it goes: what the consumer saw, and how long each round slept. */
  method RunNotifyListener(script: seq<Round>, initial: nat, max: nat)
    returns (seen: seq<Option<Notify>>, naps: seq<nat>)
    ensures seen == Flatten(Sessions(script))
    ensures naps == Naps(script, initial, initial, max)
    ensures initial <= max ==> Paced(script, naps, initial, max)
  {
    seen, naps := [], [];
    var backoff := initial;
    BackoffStarts(initial, max);
    for r := 0 to |script|
      invariant |naps| == r
      invariant Flatten(Sessions(script)) == seen + Flatten(Sessions(script[r..]))
      invariant Naps(script, initial, initial, max) == naps + Naps(script[r..], backoff, initial, max)
      invariant initial <= max ==> Paced(script, naps, initial, max) && Pending(script, naps, backoff, initial, max)
    {
      TurnShown(script, r, seen);
      TurnSlept(script, r, naps, backoff, initial, max);
      ghost var kept := backoff;
      var outcome;
      outcome, seen, backoff := RunAttempt(script[r], seen, backoff, initial);
      if outcome == Shutdown || outcome == Closed {
        return;
      }
      if initial <= max {
        NapAdded(script, naps, kept, backoff, initial, max);
      }
      naps := naps + [backoff];
      if !script[r].slept {
        return;
      }
      backoff := NextBackoff(backoff, max, script[r].random);
    }
  }

  // ---------------------------------------------------------------------------
  // Facts
  // ---------------------------------------------------------------------------

  /** How many rounds in a row, before and with this one, have slept since the last connection. */
  function Streak(script: seq<Round>, i: nat): nat
    requires i < |script|
  {
    if script[i].attempt.Connected? || i == 0 then 0 else Streak(script, i - 1) + 1
  }

  function Pow(b: nat, k: nat): nat {
    if k == 0 then 1 else b * Pow(b, k - 1)
  }

  /** The k-th sleep lies between initial * 2^k and initial * (5/2)^k, both capped at max. */
  predicate Backoff(initial: nat, max: nat, k: nat, sleep: nat) {
    && Min(max, initial * Pow(2, k)) <= sleep <= max
    && sleep * Pow(2, k) <= initial * Pow(5, k)
  }

  lemma BackoffStarts(initial: nat, max: nat)
    ensures initial <= max ==> Backoff(initial, max, 0, initial)
  {
    assert Pow(2, 0) == Pow(5, 0) == 1;
  }

  /** One step of the backoff: at least doubled, at most two and a half times as long, and capped. */
  lemma NextBounds(sleep: nat, max: nat, random: nat)
    requires sleep <= max
    ensures Min(2 * sleep, max) <= NextBackoff(sleep, max, random) <= max
    ensures 2 * NextBackoff(sleep, max, random) <= 5 * sleep
  {
    var doubled := Min(2 * sleep, max);
    assert 0 <= random % Max(doubled / 4, 1) < Max(doubled / 4, 1);
  }

  lemma LowerGrows(initial: nat, max: nat, p: nat, sleep: nat, next: nat)
    requires Min(max, initial * p) <= sleep && Min(2 * sleep, max) <= next
    ensures Min(max, initial * (2 * p)) <= next
  {
    assert initial * (2 * p) == 2 * (initial * p);
  }

  /** One more round keeps the sleep within the next bounds and never shortens it, whatever the jitter. */
  lemma BackoffGrows(initial: nat, max: nat, k: nat, sleep: nat, random: nat)
    requires Backoff(initial, max, k, sleep)
    ensures Backoff(initial, max, k + 1, NextBackoff(sleep, max, random))
    ensures sleep <= NextBackoff(sleep, max, random)
  {
    var next, p, q := NextBackoff(sleep, max, random), Pow(2, k), Pow(5, k);
    NextBounds(sleep, max, random);
    LowerGrows(initial, max, p, sleep, next);
    ScaledUp(next, sleep, p, initial, q);
    assert Pow(2, k + 1) == 2 * p && Pow(5, k + 1) == 5 * q;
  }

  /** One more round sleeps for the kept backoff, or for the initial one after a connection. */
  lemma NapAdded(script: seq<Round>, naps: seq<nat>, kept: nat, backoff: nat, initial: nat, max: nat)
    requires initial <= max && |naps| < |script|
    requires Paced(script, naps, initial, max) && Pending(script, naps, kept, initial, max)
    requires backoff == if script[|naps|].attempt.Connected? then initial else kept
    ensures Paced(script, naps + [backoff], initial, max)
    ensures forall random: nat ::
              Pending(script, naps + [backoff], NextBackoff(backoff, max, random), initial, max)
  {
    var r := |naps|;
    BackoffStarts(initial, max);
    assert Backoff(initial, max, Streak(script, r), backoff);
    forall random: nat
      ensures Pending(script, naps + [backoff], NextBackoff(backoff, max, random), initial, max)
    {
      BackoffGrows(initial, max, Streak(script, r), backoff, random);
    }
  }

  lemma ScaledUp(next: nat, sleep: nat, p: nat, initial: nat, q: nat)
    requires 2 * next <= 5 * sleep && sleep * p <= initial * q
    ensures next * (2 * p) <= initial * (5 * q)
  {
    assert next * (2 * p) == (2 * next) * p <= (5 * sleep) * p == 5 * (sleep * p);
    assert initial * (5 * q) == 5 * (initial * q);
  }

  /** The configured durations always satisfy initial <= max, with at least a millisecond. */
  lemma ConfiguredDurations(initialMs: nat, maxMs: nat)
    ensures 1 <= ReconnectDuration(initialMs, 1) <= ReconnectDuration(maxMs, Max(initialMs, 1))
    ensures 1 <= initialMs <= maxMs ==>
              ReconnectDuration(initialMs, 1) == initialMs && ReconnectDuration(maxMs, initialMs) == maxMs
  {
  }

  /** Every jitter below the window is drawn by some random number, and none above it. */
  lemma JitterRange(sleep: nat, max: nat, jitter: nat)
    requires jitter == 0 || 4 * (jitter + 1) <= Min(2 * sleep, max)
    ensures NextBackoff(sleep, max, jitter) == Min(Min(2 * sleep, max) + jitter, max)
  {
    var window := Max(Min(2 * sleep, max) / 4, 1);
    assert jitter < window;
    SmallRemainder(jitter, window);
  }

  lemma SmallRemainder(x: nat, m: nat)
    requires x < m
    ensures x % m == x
  {
  }

  /** The consumer is shown the notifications themselves, in order, up to the first it declines. */
  lemma {:induction false} HeardUpToDeclined(notes: seq<Note>)
    ensures var n := |Heard(notes)|;
            && n <= |notes| && (notes != [] ==> n > 0)
            && (forall i :: 0 <= i < n ==> Heard(notes)[i] == Some(notes[i].notify))
            && (forall i :: 0 <= i < n - 1 ==> notes[i].accepted)
            && (n < |notes| ==> !notes[n - 1].accepted)
  {
    if notes != [] {
      HeardUpToDeclined(notes[1..]);
      if notes[0].accepted && |notes| > 1 {
        var rest := Heard(notes[1..]);
        assert Heard(notes) == [Some(notes[0].notify)] + rest;
        assert forall i :: 1 <= i < |notes| ==> notes[i] == notes[1..][i - 1];
      }
    }
  }

  /** The loop ends with this round: the consumer declined the rescan or a notification, or the site shuts down. */
  predicate Stops(r: Round) {
    || !r.slept
    || (r.attempt.Connected? &&
        (!r.attempt.welcome || r.attempt.end == ShutdownSeen
         || exists i :: 0 <= i < |r.attempt.notes| && !r.attempt.notes[i].accepted))
  }

  lemma StopsOrGoesOn(r: Round)
    ensures GoesOn(r) <==> !Stops(r)
  {
  }

  predicate SomeStops(rounds: seq<Round>) {
    rounds != [] && (Stops(rounds[0]) || SomeStops(rounds[1..]))
  }

  /** Rounds that do not stop the loop are followed by the sessions of those after them, and one that does by none. */
  lemma {:induction false} SessionsConcat(before: seq<Round>, after: seq<Round>)
    ensures Sessions(before + after) == Sessions(before) + if SomeStops(before) then [] else Sessions(after)
  {
    if before == [] {
      assert before + after == after;
    } else {
      SessionsConcat(before[1..], after);
      assert (before + after)[1..] == before[1..] + after;
      StopsOrGoesOn(before[0]);
      var first := if before[0].attempt.Connected? then [Session(before[0].attempt)] else [];
      Regrouped(first, Sessions(before[1..]), if SomeStops(before[1..]) then [] else Sessions(after));
    }
  }

  /** Every session starts with the rescan call and holds notifications after it, so none is seen outside one. */
  lemma {:induction false} SessionsStartWithRescan(script: seq<Round>)
    ensures forall i :: 0 <= i < |Sessions(script)| ==>
              var s := Sessions(script)[i];
              s != [] && s[0] == None && forall j :: 1 <= j < |s| ==> s[j].Some?
    ensures |Sessions(script)| == Connections(script)
    ensures Flatten(Sessions(script)) != [] ==> Flatten(Sessions(script))[0] == None
  {
    if script != [] {
      SessionsStartWithRescan(script[1..]);
      if script[0].attempt.Connected? {
        HeardUpToDeclined(script[0].attempt.notes);
      } else {
        FlattenSessions(script);
      }
    }
  }

  /** How many connections the loop makes before it ends. */
  function Connections(script: seq<Round>): nat {
    if script == [] then 0
    else (if script[0].attempt.Connected? then 1 else 0) + if GoesOn(script[0]) then Connections(script[1..]) else 0
  }
}
