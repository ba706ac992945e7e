/**
  The dashboard request cycle: fetch a reading (fail-soft), append it to the
  process-wide history window, and assemble what the page shows.
 */
module Dashboard {
  import opened Readings
  import opened Window
  import opened Statistics

  /** What one request hands to the page: the reading it obtained, the
      history table (newest first), the whole window for the chart, and the
      statistics of each quantity over the window. */
  datatype Snapshot = Snapshot(
    current: Reading,
    table: seq<Reading>,
    series: seq<Reading>,
    humidity: Stats,
    temperature: Stats)

  /** One request as seen from outside: what its fetch returned and when. */
  datatype Poll = Poll(result: FetchResult, at: int)

  /** The history after serving `polls` one after another, starting from
      `history`. */
  function Serve(history: seq<Reading>, polls: seq<Poll>): (h: seq<Reading>)
    ensures polls != [] ==> 0 < |h| <= Capacity && h[|h| - 1].time == polls[|polls| - 1].at
    decreases |polls|
  {
    if polls == [] then history
    else
      var r := GetReading(polls[0].result, history, polls[0].at);
      Serve(Appended(history, r), polls[1..])
  }

  /** The readings a run of requests produces, in order: each request's
      reading is chosen against the history left by the requests before it. */
  function Arrived(history: seq<Reading>, polls: seq<Poll>): (rs: seq<Reading>)
    ensures |rs| == |polls|
    decreases |polls|
  {
    if polls == [] then []
    else
      var r := GetReading(polls[0].result, history, polls[0].at);
      [r] + Arrived(Appended(history, r), polls[1..])
  }

  /** Each request contributes exactly one reading, stamped with its own
      time. */
  lemma {:induction false} ArrivedInRequestOrder(history: seq<Reading>, polls: seq<Poll>)
    ensures forall i :: 0 <= i < |polls| ==> Arrived(history, polls)[i].time == polls[i].at
    decreases |polls|
  {
    if polls != [] {
      var r := GetReading(polls[0].result, history, polls[0].at);
      var next := Appended(history, r);
      ArrivedInRequestOrder(next, polls[1..]);
      assert Arrived(history, polls) == [r] + Arrived(next, polls[1..]);
    }
  }

  /** Serving a run of requests is appending, one by one, the readings
      that run produces. */
  lemma {:induction false} ServeIsAppendAll(history: seq<Reading>, polls: seq<Poll>)
    ensures Serve(history, polls) == AppendAll(history, Arrived(history, polls))
    decreases |polls|
  {
    if polls != [] {
      var r := GetReading(polls[0].result, history, polls[0].at);
      var next := Appended(history, r);
      var rs := Arrived(history, polls);
      assert rs[0] == r && rs[1..] == Arrived(next, polls[1..]);
      assert AppendAll(history, rs) == AppendAll(next, rs[1..]);
      ServeIsAppendAll(next, polls[1..]);
    }
  }

  /** After at least `Capacity` requests, the history is exactly the
      readings of the last `Capacity` of them, oldest first. */
  lemma {:induction false} NewestFiftyRequests(history: seq<Reading>, polls: seq<Poll>)
    requires |history| <= Capacity && |polls| >= Capacity
    ensures var rs := Arrived(history, polls);
      Serve(history, polls) == rs[|rs| - Capacity..]
  {
    var rs := Arrived(history, polls);
    assert Serve(history, polls) == AppendAll(history, rs) by {
      ServeIsAppendAll(history, polls);
    }
    assert AppendAll(history, rs) == rs[|rs| - Capacity..] by {
      NewestFiftyAfterWarmUp(history, rs);
    }
  }

  /** Capacity invariant: however many requests are served, the history
      never holds more than `Capacity` readings, and it is never empty once
      one request has been served. */
  lemma {:induction false} ServeWithinCapacity(history: seq<Reading>, polls: seq<Poll>)
    requires |history| <= Capacity
    ensures |Serve(history, polls)| <= Capacity
    ensures polls != [] ==> Serve(history, polls) != []
    decreases |polls|
  {
    if polls != [] {
      var next := Appended(history, GetReading(polls[0].result, history, polls[0].at));
      ServeWithinCapacity(next, polls[1..]);
    }
  }

  /** Stale but available: while every fetch fails, the newest reading keeps
      repeating the humidity and temperature of the newest reading from
      before the outage. */
  lemma {:induction false} StaleButAvailable(history: seq<Reading>, polls: seq<Poll>)
    requires history != []
    requires forall i :: 0 <= i < |polls| ==> polls[i].result.Failed?
    ensures Serve(history, polls) != []
    ensures Serve(history, polls)[|Serve(history, polls)| - 1].humidity == history[|history| - 1].humidity
    ensures Serve(history, polls)[|Serve(history, polls)| - 1].temperature == history[|history| - 1].temperature
    decreases |polls|
  {
    if polls != [] {
      var r := GetReading(polls[0].result, history, polls[0].at);
      var next := Appended(history, r);
      assert Serve(history, polls) == Serve(next, polls[1..]);
      assert r.humidity == history[|history| - 1].humidity;
      assert r.temperature == history[|history| - 1].temperature;
      assert next[|next| - 1] == r;
      StaleButAvailable(next, polls[1..]);
    }
  }

  /** A cold start with every fetch failing shows nothing but zero
      readings: if no reading in the window carries a non-zero value, none
      ever will while the fetches keep failing. */
  lemma {:induction false} ColdStartStaysZero(history: seq<Reading>, polls: seq<Poll>)
    requires forall i :: 0 <= i < |history| ==> history[i].humidity == 0 && history[i].temperature == 0
    requires forall i :: 0 <= i < |polls| ==> polls[i].result.Failed?
    ensures forall i :: 0 <= i < |Serve(history, polls)| ==>
      Serve(history, polls)[i].humidity == 0 && Serve(history, polls)[i].temperature == 0
    decreases |polls|
  {
    if polls != [] {
      var r := GetReading(polls[0].result, history, polls[0].at);
      var next := Appended(history, r);
      forall i | 0 <= i < |next|
        ensures next[i].humidity == 0 && next[i].temperature == 0
      {
        if i < |next| - 1 {
          assert next[i] == history[|history| - (|next| - 1) + i];
        }
      }
      assert Serve(history, polls) == Serve(next, polls[1..]);
      ColdStartStaysZero(next, polls[1..]);
    }
  }

  /** The dashboard service and its one piece of state, the history window
      shared by all requests. */
  class Dashboard {
    var history: seq<Reading>

    ghost predicate Valid()
      reads this
    {
      |history| <= Capacity
    }

    /** At start-up the history is empty. */
    constructor ()
      ensures Valid() && history == []
    {
      history := [];
    }

    /** Serve one dashboard request: obtain a reading (falling back on the
        history when the fetch failed), append it, keep the newest
        `Capacity` readings, and assemble the page's data from the new
        window. */
    method Request(fetch: FetchResult, now: int) returns (view: Snapshot)
      requires Valid()
      modifies this
      ensures Valid()
      ensures view.current == GetReading(fetch, old(history), now)
      ensures history == Appended(old(history), view.current)
      ensures history == Serve(old(history), [Poll(fetch, now)])
      ensures history[|history| - 1] == view.current
      ensures view.series == history
      ensures view.table == LatestFirst(history, TableRows)
      ensures view.humidity == QuantityStats(history, Humidity)
      ensures view.temperature == QuantityStats(history, Temperature)
    {
      ghost var before := history;
      var reading := GetReading(fetch, history, now);
      history := history + [reading];
      history := Tail(history, Capacity);
      assert history == Appended(before, reading);
      assert [Poll(fetch, now)][1..] == [];
      view := Snapshot(
        reading,
        LatestFirst(history, TableRows),
        history,
        QuantityStats(history, Humidity),
        QuantityStats(history, Temperature));
    }
  }

  /** Three successful fetches in a row, from start-up, give the statistics
      humidity 48/52/50.0 and temperature 198/205/201.0, and the table lists
      the three readings newest first. */
  method ThreeReadingScenario() returns (view: Snapshot)
    ensures view.current == Reading(3, 48, 198)
    ensures view.series == [Reading(1, 50, 200), Reading(2, 52, 205), Reading(3, 48, 198)]
    ensures view.table == [Reading(3, 48, 198), Reading(2, 52, 205), Reading(1, 50, 200)]
    ensures view.humidity == Stats(48, 52, 50.0)
    ensures view.temperature == Stats(198, 205, 201.0)
  {
    var d := new Dashboard();
    ghost var start := d.history;
    var first := d.Request(Payload(map[HumidityKey := 50, TemperatureKey := 200]), 1);
    var second := d.Request(Payload(map[HumidityKey := 52, TemperatureKey := 205]), 2);
    view := d.Request(Payload(map[HumidityKey := 48, TemperatureKey := 198]), 3);
    FirstThreeArrivals(start, first.current, second.current, view.current);
    assert first.current == Reading(1, 50, 200);
    assert second.current == Reading(2, 52, 205);
    ScenarioStats(view.series);
  }

  /** From an empty window, three appends keep all three readings in
      arrival order. The empty window is a parameter, not the literal `[]`,
      so that the verifier does not unfold `Tail` over a literal sequence. */
  lemma FirstThreeArrivals(start: seq<Reading>, r1: Reading, r2: Reading, r3: Reading)
    requires start == []
    ensures Appended(Appended(Appended(start, r1), r2), r3) == [r1, r2, r3]
  {
  }

  /** The page data for the window of the three-reading scenario. */
  lemma ScenarioStats(history: seq<Reading>)
    requires history == [Reading(1, 50, 200), Reading(2, 52, 205), Reading(3, 48, 198)]
    ensures LatestFirst(history, TableRows) == [history[2], history[1], history[0]]
    ensures QuantityStats(history, Humidity) == Stats(48, 52, 50.0)
    ensures QuantityStats(history, Temperature) == Stats(198, 205, 201.0)
  {
    StatsOfThree(history, Humidity);
    StatsOfThree(history, Temperature);
    assert QuantityStats(history, Humidity).mean * 3.0 == 150.0;
    assert QuantityStats(history, Temperature).mean * 3.0 == 603.0;
  }

  /** The statistics of a window of three readings, spelled out. */
  lemma StatsOfThree(history: seq<Reading>, q: Quantity)
    requires |history| == 3
    ensures var st, a, b, c := QuantityStats(history, q), history[0].Value(q), history[1].Value(q), history[2].Value(q);
      && (st.min == a || st.min == b || st.min == c)
      && st.min <= a && st.min <= b && st.min <= c
      && (st.max == a || st.max == b || st.max == c)
      && st.max >= a && st.max >= b && st.max >= c
      && st.mean * 3.0 == (a + b + c) as real
  {
    var xs := Column(history, q);
    var rest := xs[1..];
    var last := rest[1..];
    assert last[1..] == [];
    assert Sum(last) == xs[2];
    assert Sum(rest) == xs[1] + Sum(last);
    assert Sum(xs) == xs[0] + Sum(rest);
  }
}
