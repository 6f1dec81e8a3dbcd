/** Request metrics (vyuh/src/observability.rs): cumulative duration histograms, one per label key. Durations are
    real numbers of seconds, never negative; counters do not overflow. */
module Metrics {

  const DURATION_BUCKETS: seq<real> := [0.005, 0.01, 0.025, 0.05, 0.1, 0.25, 0.5, 1.0]

  datatype Key = Key(method_: string, route: string, status: string)

  datatype Observation = Observation(key: Key, seconds: real, serverError: bool)

  function StatusClass(status: nat): string {
    match status / 100
    case 1 => "1xx"
    case 2 => "2xx"
    case 3 => "3xx"
    case 4 => "4xx"
    case _ => "5xx"
  }

  /** A finished request as the metrics see it. */
  function Observed(method_: string, route: string, status: nat, seconds: real): Observation {
    Observation(Key(method_, route, StatusClass(status)), seconds, 500 <= status < 600)
  }

  /** Of the statuses of HTTP, the class is their first digit, and the server errors are exactly those of "5xx". */
  lemma ClassIsFirstDigit(method_: string, route: string, status: nat, seconds: real)
    requires 100 <= status < 600
    ensures var o := Observed(method_, route, status, seconds);
            && o.key.status == ["012345"[status / 100], 'x', 'x']
            && (o.serverError <==> o.key.status == "5xx")
            && o.key.method_ == method_ && o.key.route == route && o.seconds == seconds
  {
    var digit := status / 100;
    assert digit in {1, 2, 3, 4, 5};
  }

  /** Any other number is filed under "5xx" and is no server error. */
  lemma OtherStatus(method_: string, route: string, status: nat, seconds: real)
    requires status < 100 || status >= 600
    ensures var o := Observed(method_, route, status, seconds); o.key.status == "5xx" && !o.serverError
  {
  }

  function AtOrBelow(seen: seq<Observation>, bound: real): nat {
    if seen == [] then 0
    else AtOrBelow(seen[..|seen| - 1], bound) + if seen[|seen| - 1].seconds <= bound then 1 else 0
  }

  /** The positions of the observations at or below the bound. */
  function PositionsAtOrBelow(seen: seq<Observation>, bound: real): set<nat> {
    set i: nat | i < |seen| && seen[i].seconds <= bound
  }

  lemma {:induction false} AtOrBelowCounts(seen: seq<Observation>, bound: real)
    ensures AtOrBelow(seen, bound) == |PositionsAtOrBelow(seen, bound)|
  {
    if seen != [] {
      var n := |seen| - 1;
      AtOrBelowCounts(seen[..n], bound);
      var before := PositionsAtOrBelow(seen[..n], bound);
      assert PositionsAtOrBelow(seen, bound) == before + if seen[n].seconds <= bound then {n} else {};
    }
  }

  function Errors(seen: seq<Observation>): nat {
    if seen == [] then 0
    else Errors(seen[..|seen| - 1]) + if seen[|seen| - 1].serverError then 1 else 0
  }

  function Seconds(seen: seq<Observation>): real {
    if seen == [] then 0.0 else Seconds(seen[..|seen| - 1]) + seen[|seen| - 1].seconds
  }

  /** The observations recorded under one key. */
  function Under(seen: seq<Observation>, key: Key): seq<Observation> {
    if seen == [] then []
    else Under(seen[..|seen| - 1], key) + if seen[|seen| - 1].key == key then [seen[|seen| - 1]] else []
  }

  /** The counters of one key, held by value in the table of keys. */
  datatype RouteMetrics = RouteMetrics(requests: nat, errors: nat, durationSum: real, buckets: seq<nat>)

  const NO_REQUESTS := RouteMetrics(0, 0, 0.0, [0, 0, 0, 0, 0, 0, 0, 0])

  /** Each counter is the number of observations it stands for. */
  predicate Counts(m: RouteMetrics, seen: seq<Observation>) {
    && m.requests == |seen| && m.errors == Errors(seen) && m.durationSum == Seconds(seen)
    && |m.buckets| == |DURATION_BUCKETS|
    && forall i :: 0 <= i < |m.buckets| ==> m.buckets[i] == AtOrBelow(seen, DURATION_BUCKETS[i])
  }

  lemma CountsSnoc(seen: seq<Observation>, o: Observation)
    ensures Errors(seen + [o]) == Errors(seen) + if o.serverError then 1 else 0
    ensures Seconds(seen + [o]) == Seconds(seen) + o.seconds
    ensures forall bound: real ::
              AtOrBelow(seen + [o], bound) == AtOrBelow(seen, bound) + if o.seconds <= bound then 1 else 0
  {
    assert (seen + [o])[..|seen|] == seen;
  }

  method RecordRoute(before: RouteMetrics, o: Observation, ghost seen: seq<Observation>) returns (m: RouteMetrics)
    requires Counts(before, seen) && o.seconds >= 0.0
    ensures Counts(m, seen + [o])
  {
    CountsSnoc(seen, o);
    m := before.(requests := before.requests + 1, durationSum := before.durationSum + o.seconds);
    if o.serverError {
      m := m.(errors := m.errors + 1);
    }
    if o.seconds >= 0.0 {
      for i := 0 to |DURATION_BUCKETS|
        invariant |m.buckets| == |DURATION_BUCKETS|
        invariant m.requests == |seen| + 1 && m.errors == Errors(seen + [o]) && m.durationSum == Seconds(seen + [o])
        invariant forall j :: 0 <= j < i ==> m.buckets[j] == AtOrBelow(seen + [o], DURATION_BUCKETS[j])
        invariant forall j :: i <= j < |m.buckets| ==> m.buckets[j] == AtOrBelow(seen, DURATION_BUCKETS[j])
      {
        if o.seconds <= DURATION_BUCKETS[i] {
          m := m.(buckets := m.buckets[i := m.buckets[i] + 1]);
        }
      }
    }
  }

  class Metrics {
    var routes: map<Key, RouteMetrics>
    ghost var seen: seq<Observation>

    /** The table has exactly the keys that were recorded, each with the counts of its own observations. */
    ghost predicate Valid()
      reads this
    {
      Tabulates(routes, seen)
    }

    constructor ()
      ensures Valid() && seen == [] && routes == map[]
    {
      routes, seen := map[], [];
    }

    method Record(method_: string, route: string, status: nat, seconds: real)
      requires Valid() && seconds >= 0.0
      modifies this
      ensures Valid() && seen == old(seen) + [Observed(method_, route, status, seconds)]
    {
      var o := Observed(method_, route, status, seconds);
      var entry := if o.key in routes then routes[o.key] else NO_REQUESTS;
      NothingCounted(seen, o.key, routes);
      var entry' := RecordRoute(entry, o, Under(seen, o.key));
      RowRecorded(routes, seen, o, entry');
      routes := routes[o.key := entry'];
      seen := seen + [o];
    }
  }

  ghost predicate Tabulates(routes: map<Key, RouteMetrics>, seen: seq<Observation>) {
    forall key: Key :: Row(routes, seen, key)
  }

  ghost predicate Row(routes: map<Key, RouteMetrics>, seen: seq<Observation>, key: Key) {
    && (key in routes <==> Under(seen, key) != [])
    && (key in routes ==> Counts(routes[key], Under(seen, key)))
  }

  lemma NothingCounted(seen: seq<Observation>, key: Key, routes: map<Key, RouteMetrics>)
    requires Tabulates(routes, seen)
    ensures Counts(if key in routes then routes[key] else NO_REQUESTS, Under(seen, key))
  {
    assert Row(routes, seen, key);
  }

  lemma UnderSnoc(seen: seq<Observation>, o: Observation, key: Key)
    ensures Under(seen + [o], key) == if o.key == key then Under(seen, key) + [o] else Under(seen, key)
  {
    assert (seen + [o])[..|seen|] == seen;
  }

  lemma RowRecorded(routes: map<Key, RouteMetrics>, seen: seq<Observation>, o: Observation, m: RouteMetrics)
    requires Tabulates(routes, seen) && Counts(m, Under(seen, o.key) + [o])
    ensures Tabulates(routes[o.key := m], seen + [o])
  {
    var routes' := routes[o.key := m];
    forall key: Key
      ensures Row(routes', seen + [o], key)
    {
      assert Row(routes, seen, key);
      UnderSnoc(seen, o, key);
    }
  }

  /** Cumulative counts grow with the bound and never exceed the number of observations; nor do errors. */
  lemma {:induction false} CountsAreOrdered(seen: seq<Observation>, low: real, high: real)
    requires low <= high
    ensures AtOrBelow(seen, low) <= AtOrBelow(seen, high) <= |seen|
    ensures Errors(seen) <= |seen|
  {
    if seen != [] {
      CountsAreOrdered(seen[..|seen| - 1], low, high);
    }
  }

  /** In every row of the table the buckets never decrease, stay within the requests, and so do the errors. */
  lemma RowsAreCumulative(routes: map<Key, RouteMetrics>, seen: seq<Observation>, key: Key, i: nat, j: nat)
    requires Tabulates(routes, seen) && key in routes && i <= j < |DURATION_BUCKETS|
    ensures |routes[key].buckets| == |DURATION_BUCKETS|
    ensures routes[key].buckets[i] <= routes[key].buckets[j] <= routes[key].requests
    ensures routes[key].errors <= routes[key].requests
  {
    assert Row(routes, seen, key);
    assert DURATION_BUCKETS[i] <= DURATION_BUCKETS[j];
    CountsAreOrdered(Under(seen, key), DURATION_BUCKETS[i], DURATION_BUCKETS[j]);
  }

  predicate CountsWithin(n: nat, seen: seq<Observation>, bound: real) {
    n == |PositionsAtOrBelow(seen, bound)|
  }

  /** The buckets count the requests of at most 5, 10, 25, 50, 100, 250 and 500 milliseconds and of a second. */
  lemma BucketBounds(routes: map<Key, RouteMetrics>, seen: seq<Observation>, key: Key)
    requires Tabulates(routes, seen) && key in routes
    ensures var own, n := Under(seen, key), routes[key].buckets;
            && |n| == 8 && CountsWithin(n[0], own, 0.005) && CountsWithin(n[1], own, 0.01)
            && CountsWithin(n[2], own, 0.025) && CountsWithin(n[3], own, 0.05) && CountsWithin(n[4], own, 0.1)
            && CountsWithin(n[5], own, 0.25) && CountsWithin(n[6], own, 0.5) && CountsWithin(n[7], own, 1.0)
  {
    assert Row(routes, seen, key);
    forall i: nat | i < 8
      ensures CountsWithin(routes[key].buckets[i], Under(seen, key), DURATION_BUCKETS[i])
    {
      AtOrBelowCounts(Under(seen, key), DURATION_BUCKETS[i]);
    }
    var bounds := DURATION_BUCKETS;
    assert bounds[0] == 0.005 && bounds[1] == 0.01 && bounds[2] == 0.025 && bounds[3] == 0.05;
    assert bounds[4] == 0.1 && bounds[5] == 0.25 && bounds[6] == 0.5 && bounds[7] == 1.0;
  }

  /** The requests of all rows together. */
  ghost function Requests(routes: map<Key, RouteMetrics>): nat
    decreases |routes|
  {
    if routes == map[] then 0
    else
      var key :| key in routes;
      assert |(routes - {key}).Keys| < |routes.Keys|;
      routes[key].requests + Requests(routes - {key})
  }

  lemma {:induction false} RequestsSplit(routes: map<Key, RouteMetrics>, key: Key)
    requires key in routes
    ensures Requests(routes) == routes[key].requests + Requests(routes - {key})
    decreases |routes|
  {
    var first :| first in routes && Requests(routes) == routes[first].requests + Requests(routes - {first});
    if first != key {
      assert |(routes - {first}).Keys| < |routes.Keys| && |(routes - {key}).Keys| < |routes.Keys|;
      RequestsSplit(routes - {first}, key);
      RequestsSplit(routes - {key}, first);
      assert routes - {first} - {key} == routes - {key} - {first};
    }
  }

  /** The table before the last recording. */
  ghost function Before(routes: map<Key, RouteMetrics>, seen: seq<Observation>, o: Observation, m: RouteMetrics)
    : map<Key, RouteMetrics>
  {
    if Under(seen, o.key) == [] then routes - {o.key} else routes[o.key := m]
  }

  lemma {:induction false} CountsExist(seen: seq<Observation>) returns (m: RouteMetrics)
    ensures Counts(m, seen)
  {
    m := RouteMetrics(|seen|, Errors(seen), Seconds(seen),
                      seq(|DURATION_BUCKETS|, i requires 0 <= i < |DURATION_BUCKETS| =>
                        AtOrBelow(seen, DURATION_BUCKETS[i])));
  }

  /** Every recording is counted under exactly one key: the requests of the table add up to the recordings. */
  lemma {:induction false} RequestsAddUp(routes: map<Key, RouteMetrics>, seen: seq<Observation>)
    requires Tabulates(routes, seen)
    ensures Requests(routes) == |seen|
    decreases |seen|
  {
    if seen == [] {
      forall key: Key
        ensures key !in routes
      {
        assert Row(routes, seen, key) && Under(seen, key) == [];
      }
    } else {
      var init, o := seen[..|seen| - 1], seen[|seen| - 1];
      assert seen == init + [o];
      var m := CountsExist(Under(init, o.key));
      var before := Before(routes, init, o, m);
      RowBefore(routes, init, o, m);
      RequestsAddUp(before, init);
      assert Row(routes, seen, o.key);
      UnderSnoc(init, o, o.key);
      RequestsSplit(routes, o.key);
      if Under(init, o.key) != [] {
        RequestsSplit(before, o.key);
        assert before - {o.key} == routes - {o.key};
      }
    }
  }

  lemma RowBefore(routes: map<Key, RouteMetrics>, init: seq<Observation>, o: Observation, m: RouteMetrics)
    requires Tabulates(routes, init + [o]) && Counts(m, Under(init, o.key))
    ensures Tabulates(Before(routes, init, o, m), init)
  {
    var before := Before(routes, init, o, m);
    forall key: Key
      ensures Row(before, init, key)
    {
      assert Row(routes, init + [o], key);
      UnderSnoc(init, o, key);
    }
  }
}
