/**
 * The reading and grouping half of visualize.py: keep the two-column rows
 * of the log, drop the UTC offset from each timestamp and parse it
 * (visualize.py:10-16), gather the observations of each date and hour
 * (visualize.py:21-27) and list the hours in ascending order
 * (visualize.py:30-31).
 *
 * Parsing an ISO 8601 text is library code; it is the parameter `parse`,
 * which gives `None` where `datetime.fromisoformat` raises ValueError.
 */
module Grouping {
  import opened Wrappers
  import opened Clock
  import StatusLog

  type Row = StatusLog.Row

  /** One kept row of the log: when it was taken and the status text it holds. */
  datatype Observation = Observation(at: Moment, status: string)

  /** The exceptions that abort a render. */
  datatype RenderError =
    | MissingFile                     // open("status.csv") fails
    | BadTimestamp(text: string)      // fromisoformat raises ValueError
    | UnknownStatus(status: string)   // color_map[status] raises KeyError

  /** `a` occurs in `b` in order, possibly with other elements in between. */
  predicate IsSubsequence<T(==)>(a: seq<T>, b: seq<T>)
    decreases |b|
  {
    if a == [] then true
    else if b == [] then false
    else if a[|a| - 1] == b[|b| - 1] then IsSubsequence(a[..|a| - 1], b[..|b| - 1])
    else IsSubsequence(a, b[..|b| - 1])
  }

  /** `t.split("+")[0]`: the text before the first '+', or all of it (visualize.py:15). */
  function StripOffset(t: string): (r: string)
    ensures r <= t
    ensures '+' !in r
    ensures |r| < |t| ==> t[|r|] == '+'
  {
    if t == [] || t[0] == '+' then [] else [t[0]] + StripOffset(t[1..])
  }

  /** A timestamp followed by '+' and an offset loses exactly the offset. */
  lemma StripOffsetDropsOffset(stamp: string, offset: string)
    requires '+' !in stamp
    ensures StripOffset(stamp + "+" + offset) == stamp
  {
    var t := stamp + "+" + offset;
    var r := StripOffset(t);
    assert forall i :: 0 <= i < |stamp| ==> t[i] == stamp[i];
    assert t[|stamp|] == '+';
    assert |r| == |stamp|;
    assert t[..|stamp|] == stamp;
  }

  /** The rows visualize.py:13 keeps: those with exactly two columns, in file order. */
  function KeptRows(rows: seq<Row>): (kept: seq<Row>)
    ensures |kept| <= |rows|
    ensures forall i :: 0 <= i < |kept| ==> |kept[i]| == 2
    decreases |rows|
  {
    if rows == [] then []
    else KeptRows(rows[..|rows| - 1]) + (if |rows[|rows| - 1]| == 2 then [rows[|rows| - 1]] else [])
  }

  /**
   * Only two-column rows are kept, and all of them are: each two-column row
   * is kept as often as it occurs in the file.
   */
  lemma {:induction false} KeptRowsMembers(rows: seq<Row>)
    ensures forall r :: r in KeptRows(rows) <==> r in rows && |r| == 2
    ensures forall r :: multiset(KeptRows(rows))[r] == if |r| == 2 then multiset(rows)[r] else 0
  {
    KeptRowsCounts(rows);
    forall r ensures r in KeptRows(rows) <==> r in rows && |r| == 2 {
      assert r in KeptRows(rows) <==> multiset(KeptRows(rows))[r] > 0;
      assert r in rows <==> multiset(rows)[r] > 0;
    }
  }

  lemma {:induction false} KeptRowsCounts(rows: seq<Row>)
    ensures forall r :: multiset(KeptRows(rows))[r] == if |r| == 2 then multiset(rows)[r] else 0
    decreases |rows|
  {
    if rows != [] {
      var init, last := rows[..|rows| - 1], rows[|rows| - 1];
      KeptRowsCounts(init);
      assert rows == init + [last];
      assert multiset(rows) == multiset(init) + multiset{last};
    }
  }

  /** The kept rows stay in file order. */
  lemma {:induction false} KeptRowsInOrder(rows: seq<Row>)
    ensures IsSubsequence(KeptRows(rows), rows)
    decreases |rows|
  {
    if rows != [] {
      var init, last := rows[..|rows| - 1], rows[|rows| - 1];
      var kept := KeptRows(init);
      KeptRowsInOrder(init);
      if |last| == 2 {
        assert KeptRows(rows) == kept + [last];
        assert (kept + [last])[..|kept|] == kept;
      } else if kept != [] {
        assert KeptRows(rows) == kept;
        KeptRowsMembers(init);
        assert kept[|kept| - 1] in kept;
        assert kept[|kept| - 1] != last;
      }
    }
  }

  /**
   * The observations read from the rows (visualize.py:10-16): the first
   * two-column row whose stripped timestamp does not parse aborts the
   * render.
   */
  function Observe(rows: seq<Row>, parse: string -> Option<Moment>): (r: Result<seq<Observation>, RenderError>)
    ensures r.Ok? ==> |r.value| == |KeptRows(rows)|
    ensures r.Err? ==> r.error.BadTimestamp?
    decreases |rows|
  {
    if rows == [] then Ok([])
    else
      match Observe(rows[..|rows| - 1], parse)
      case Err(e) => Err(e)
      case Ok(obs) =>
        var row := rows[|rows| - 1];
        if |row| != 2 then Ok(obs)
        else
          match parse(StripOffset(row[0]))
          case None => Err(BadTimestamp(row[0]))
          case Some(m) => Ok(obs + [Observation(m, row[1])])
  }

  /** `row` is kept and its stripped timestamp parses. */
  predicate Parses(row: Row, parse: string -> Option<Moment>) {
    |row| == 2 ==> parse(StripOffset(row[0])).Some?
  }

  /**
   * Reading succeeds exactly when every kept row's timestamp parses; it then
   * gives one observation per kept row, in order, with the parsed time and
   * the status text; otherwise the error names the first bad timestamp.
   */
  lemma {:induction false} ObserveMeaning(rows: seq<Row>, parse: string -> Option<Moment>)
    ensures Observe(rows, parse).Ok? <==> forall i :: 0 <= i < |rows| ==> Parses(rows[i], parse)
    ensures Observe(rows, parse).Ok? ==>
      var obs, kept := Observe(rows, parse).value, KeptRows(rows);
      && |obs| == |kept|
      && forall j :: 0 <= j < |obs| ==>
           && |kept[j]| == 2
           && parse(StripOffset(kept[j][0])).Some?
           && obs[j] == Observation(parse(StripOffset(kept[j][0])).value, kept[j][1])
    ensures Observe(rows, parse).Err? ==>
      exists i :: 0 <= i < |rows| && !Parses(rows[i], parse)
        && (forall i' :: 0 <= i' < i ==> Parses(rows[i'], parse))
        && Observe(rows, parse).error == BadTimestamp(rows[i][0])
    decreases |rows|
  {
    if rows != [] {
      var init, last := rows[..|rows| - 1], rows[|rows| - 1];
      ObserveMeaning(init, parse);
      assert forall i :: 0 <= i < |init| ==> rows[i] == init[i];
      if Observe(init, parse).Err? {
        var i :| 0 <= i < |init| && !Parses(init[i], parse)
          && (forall i' :: 0 <= i' < i ==> Parses(init[i'], parse))
          && Observe(init, parse).error == BadTimestamp(init[i][0]);
        assert !Parses(rows[i], parse);
      } else if !Parses(last, parse) {
        assert !Parses(rows[|rows| - 1], parse);
      }
    }
  }

  /** Once reading has failed, later rows do not change the outcome. */
  lemma {:induction false} ObserveErrorPersists(rows: seq<Row>, j: nat, parse: string -> Option<Moment>)
    requires j <= |rows|
    requires Observe(rows[..j], parse).Err?
    ensures Observe(rows, parse) == Observe(rows[..j], parse)
    decreases |rows| - j
  {
    if j < |rows| {
      var init := rows[..|rows| - 1];
      assert init[..j] == rows[..j];
      ObserveErrorPersists(init, j, parse);
    } else {
      assert rows[..j] == rows;
    }
  }

  /**
   * The reading loop of visualize.py:12-16: skip rows without exactly two
   * columns, strip the offset, parse the timestamp and keep the status text.
   */
  method ReadObservations(rows: seq<Row>, parse: string -> Option<Moment>)
    returns (r: Result<seq<Observation>, RenderError>)
    ensures r == Observe(rows, parse)
  {
    var obs: seq<Observation> := [];
    for i := 0 to |rows|
      invariant Observe(rows[..i], parse) == Ok(obs)
    {
      var row := rows[i];
      assert rows[..i + 1][..i] == rows[..i];
      if |row| == 2 {
        var t, status := row[0], row[1];
        var parsed := parse(StripOffset(t));
        if parsed.None? {
          r := Err(BadTimestamp(t));
          ObserveErrorPersists(rows, i + 1, parse);
          return;
        }
        obs := obs + [Observation(parsed.value, status)];
      }
    }
    assert rows[..|rows|] == rows;
    r := Ok(obs);
  }

  /** The observations of `obs` in hour `k`, in their order (visualize.py:22-27). */
  function InHour(obs: seq<Observation>, k: HourKey): (bucket: seq<Observation>)
    ensures |bucket| <= |obs|
    ensures forall i :: 0 <= i < |bucket| ==> HourOf(bucket[i].at) == k
    decreases |obs|
  {
    if obs == [] then []
    else InHour(obs[..|obs| - 1], k) + (if HourOf(obs[|obs| - 1].at) == k then [obs[|obs| - 1]] else [])
  }

  /** The hours that have at least one observation. */
  function HourKeys(obs: seq<Observation>): set<HourKey> {
    set o | o in obs :: HourOf(o.at)
  }

  /** The dictionary `hourly_data` once every observation has been filed. */
  function Buckets(obs: seq<Observation>): map<HourKey, seq<Observation>> {
    map k | k in HourKeys(obs) :: InHour(obs, k)
  }

  /** A bucket holds exactly the observations of its hour. */
  lemma {:induction false} InHourMembers(obs: seq<Observation>, k: HourKey)
    ensures forall o :: o in InHour(obs, k) <==> o in obs && HourOf(o.at) == k
    decreases |obs|
  {
    if obs != [] {
      var init, last := obs[..|obs| - 1], obs[|obs| - 1];
      InHourMembers(init, k);
      assert obs == init + [last];
    }
  }

  /** A bucket keeps the file order of its observations. */
  lemma {:induction false} InHourInOrder(obs: seq<Observation>, k: HourKey)
    ensures IsSubsequence(InHour(obs, k), obs)
    decreases |obs|
  {
    if obs != [] {
      var init, last := obs[..|obs| - 1], obs[|obs| - 1];
      var b := InHour(init, k);
      InHourInOrder(init, k);
      if HourOf(last.at) == k {
        assert InHour(obs, k) == b + [last];
        assert (b + [last])[..|b|] == b;
      } else if b != [] {
        assert InHour(obs, k) == b;
        InHourMembers(init, k);
        assert b[|b| - 1] in b;
        assert b[|b| - 1] != last;
      }
    }
  }

  /** An hour has a bucket exactly when some observation falls in it. */
  lemma InHourNonEmpty(obs: seq<Observation>, k: HourKey)
    ensures InHour(obs, k) != [] <==> k in HourKeys(obs)
  {
    InHourMembers(obs, k);
    var b := InHour(obs, k);
    if b != [] {
      assert b[0] in b;
    }
    if k in HourKeys(obs) {
      var o :| o in obs && HourOf(o.at) == k;
      assert o in b;
    }
  }

  /**
   * What the finished dictionary holds: every observation sits in the bucket
   * of its hour; every bucket is non-empty, holds only its hour's
   * observations and keeps their file order.
   */
  lemma BucketsMeaning(obs: seq<Observation>)
    ensures forall i :: 0 <= i < |obs| ==> HourOf(obs[i].at) in Buckets(obs) && obs[i] in Buckets(obs)[HourOf(obs[i].at)]
    ensures forall k :: k in Buckets(obs) ==> Buckets(obs)[k] != [] && IsSubsequence(Buckets(obs)[k], obs)
    ensures forall k, o: Observation :: k in Buckets(obs) && o in Buckets(obs)[k] ==> HourOf(o.at) == k
  {
    var hourly := Buckets(obs);
    forall k | k in hourly
      ensures hourly[k] != [] && IsSubsequence(hourly[k], obs)
      ensures forall o: Observation :: o in hourly[k] ==> HourOf(o.at) == k
    {
      InHourMembers(obs, k);
      InHourInOrder(obs, k);
      InHourNonEmpty(obs, k);
    }
    forall i | 0 <= i < |obs|
      ensures HourOf(obs[i].at) in hourly && obs[i] in hourly[HourOf(obs[i].at)]
    {
      assert obs[i] in obs;
      InHourMembers(obs, HourOf(obs[i].at));
    }
  }

  /** Filing one more observation extends its own hour's bucket and no other. */
  lemma BucketsSnoc(obs: seq<Observation>, o: Observation)
    ensures var key, before := HourOf(o.at), Buckets(obs);
      Buckets(obs + [o]) == before[key := (if key in before then before[key] else []) + [o]]
  {
    var key, before, after := HourOf(o.at), Buckets(obs), Buckets(obs + [o]);
    var expected := before[key := (if key in before then before[key] else []) + [o]];
    assert (obs + [o])[..|obs|] == obs;
    assert HourKeys(obs + [o]) == HourKeys(obs) + {key};
    InHourNonEmpty(obs, key);
    forall k | k in after ensures k in expected && after[k] == expected[k] {
      assert after[k] == InHour(obs + [o], k);
    }
    assert after.Keys == expected.Keys;
  }

  /** One turn of the grouping loop files observation `i` into the buckets of those before it. */
  lemma FileObservation(obs: seq<Observation>, i: nat, hourly: map<HourKey, seq<Observation>>)
    requires i < |obs|
    requires hourly == Buckets(obs[..i])
    ensures var key := HourOf(obs[i].at);
      var ready := if key !in hourly then hourly[key := []] else hourly;
      ready[key := ready[key] + [obs[i]]] == Buckets(obs[..i + 1])
  {
    BucketsSnoc(obs[..i], obs[i]);
    assert obs[..i + 1] == obs[..i] + [obs[i]];
  }

  /**
   * The grouping loop of visualize.py:22-27: each observation is appended
   * to the list of its date and hour, a new list being made for an hour
   * not seen before.
   */
  method GroupByHour(obs: seq<Observation>) returns (hourly: map<HourKey, seq<Observation>>)
    ensures hourly == Buckets(obs)
    ensures forall i :: 0 <= i < |obs| ==> HourOf(obs[i].at) in hourly && obs[i] in hourly[HourOf(obs[i].at)]
    ensures forall k :: k in hourly ==> hourly[k] != [] && IsSubsequence(hourly[k], obs)
    ensures forall k, o :: k in hourly && o in hourly[k] ==> HourOf(o.at) == k
  {
    hourly := map[];
    for i := 0 to |obs|
      invariant hourly == Buckets(obs[..i])
    {
      var key := HourOf(obs[i].at);
      ghost var before := hourly;
      if key !in hourly {
        hourly := hourly[key := []];
      }
      hourly := hourly[key := hourly[key] + [obs[i]]];
      FileObservation(obs, i, before);
    }
    assert obs[..|obs|] == obs;
    BucketsMeaning(obs);
  }

  /** The number of observations in the buckets of `hours`. */
  function SumSizes(obs: seq<Observation>, hours: seq<HourKey>): nat
    decreases |hours|
  {
    if hours == [] then 0 else |InHour(obs, hours[0])| + SumSizes(obs, hours[1..])
  }

  predicate Distinct<T(==)>(s: seq<T>) {
    forall i, j :: 0 <= i < j < |s| ==> s[i] != s[j]
  }

  lemma {:induction false} SumSizesSnoc(obs: seq<Observation>, o: Observation, hours: seq<HourKey>)
    requires Distinct(hours)
    ensures SumSizes(obs + [o], hours) == SumSizes(obs, hours) + (if HourOf(o.at) in hours then 1 else 0)
    decreases |hours|
  {
    if hours != [] {
      assert (obs + [o])[..|obs|] == obs;
      SumSizesSnoc(obs, o, hours[1..]);
      assert HourOf(o.at) in hours <==> HourOf(o.at) == hours[0] || HourOf(o.at) in hours[1..];
      assert hours[0] !in hours[1..];
    }
  }

  /**
   * Every observation is in exactly one bucket: the bucket sizes over all the
   * distinct hours add up to the number of observations.
   */
  lemma {:induction false} BucketSizesAddUp(obs: seq<Observation>, hours: seq<HourKey>)
    requires Distinct(hours)
    requires forall i :: 0 <= i < |obs| ==> HourOf(obs[i].at) in hours
    ensures SumSizes(obs, hours) == |obs|
    decreases |obs|
  {
    if obs == [] {
      SumSizesEmpty(hours);
    } else {
      var init, last := obs[..|obs| - 1], obs[|obs| - 1];
      BucketSizesAddUp(init, hours);
      assert obs == init + [last];
      SumSizesSnoc(init, last, hours);
    }
  }

  lemma {:induction false} SumSizesEmpty(hours: seq<HourKey>)
    ensures SumSizes([], hours) == 0
    decreases |hours|
  {
    if hours != [] {
      SumSizesEmpty(hours[1..]);
    }
  }

  /** Strictly increasing hours: sorted, and so without repeats. */
  predicate Ascending(hours: seq<HourKey>) {
    forall i, j :: 0 <= i < j < |hours| ==> Before(hours[i], hours[j])
  }

  lemma BeforeIsStrictTotalOrder(a: HourKey, b: HourKey, c: HourKey)
    ensures !Before(a, a)
    ensures Before(a, b) && Before(b, c) ==> Before(a, c)
    ensures a != b ==> Before(a, b) || Before(b, a)
  {
  }

  /**
   * Distinct hours have distinct '%Y-%m-%d %H:00' texts, so keying the
   * buckets by hour groups exactly as keying them by that text does
   * (visualize.py:24-27).
   */
  lemma HourKeyTextInjective(a: HourKey, b: HourKey)
    ensures HourKeyText(a) == HourKeyText(b) ==> a == b
  {
    if a != b {
      BeforeIsStrictTotalOrder(a, b, b);
      HourKeyTextOrder(a, b);
      HourKeyTextOrder(b, a);
      TextBeforeIrreflexive(HourKeyText(a));
    }
  }

  /** `m` comes first among `s`. */
  predicate IsEarliest(m: HourKey, s: set<HourKey>) {
    m in s && forall k :: k in s ==> k == m || Before(m, k)
  }

  /** Every non-empty set of hours has an earliest one. */
  lemma {:induction false} EarliestExists(s: set<HourKey>)
    requires s != {}
    ensures exists m :: IsEarliest(m, s)
    decreases |s|
  {
    var x :| x in s;
    var rest := s - {x};
    if rest == {} {
      assert s == {x};
      assert IsEarliest(x, s);
    } else {
      EarliestExists(rest);
      var m :| IsEarliest(m, rest);
      if Before(x, m) {
        forall k | k in s ensures k == x || Before(x, k) {
          if k != x { BeforeIsStrictTotalOrder(x, m, k); }
        }
        assert IsEarliest(x, s);
      } else {
        BeforeIsStrictTotalOrder(m, x, x);
        assert IsEarliest(m, s);
      }
    }
  }

  /** The ascending list of a set of hours, as `sorted` returns it. */
  ghost function SortedKeys(s: set<HourKey>): (hours: seq<HourKey>)
    ensures Ascending(hours)
    ensures forall k :: k in hours <==> k in s
    decreases |s|
  {
    if s == {} then []
    else
      EarliestExists(s);
      var m :| IsEarliest(m, s);
      var rest := SortedKeys(s - {m});
      assert forall i :: 0 <= i < |rest| ==> Before(m, rest[i]) by {
        forall i | 0 <= i < |rest| ensures Before(m, rest[i]) {
          assert rest[i] in s - {m};
        }
      }
      [m] + rest
  }

  /** The head of an ascending list comes before everything else in it. */
  lemma HeadIsEarliest(a: seq<HourKey>)
    requires Ascending(a) && a != []
    ensures forall k :: k in a ==> k == a[0] || Before(a[0], k)
  {
  }

  /** Two ascending lists with the same hours are the same list. */
  lemma {:induction false} AscendingUnique(a: seq<HourKey>, b: seq<HourKey>)
    requires Ascending(a) && Ascending(b)
    requires forall k :: k in a <==> k in b
    ensures a == b
    decreases |a|
  {
    assert a == [] <==> b == [] by {
      if a != [] { assert a[0] in a; }
      if b != [] { assert b[0] in b; }
    }
    if a != [] {
      HeadIsEarliest(a);
      HeadIsEarliest(b);
      assert a[0] in a && b[0] in b;
      BeforeIsStrictTotalOrder(a[0], b[0], a[0]);
      assert a[0] == b[0];
      forall k ensures k in a[1..] <==> k in b[1..] {
        if k in a[1..] { BeforeIsStrictTotalOrder(a[0], k, k); assert k in b; }
        if k in b[1..] { BeforeIsStrictTotalOrder(b[0], k, k); assert k in a; }
      }
      AscendingUnique(a[1..], b[1..]);
      assert a == [a[0]] + a[1..] && b == [b[0]] + b[1..];
    }
  }

  /**
   * `sorted(hourly_data.keys())` (visualize.py:30): the hours in ascending
   * order, each once. The earliest remaining hour is taken at every step.
   */
  method SortedHours(keys: set<HourKey>) returns (hours: seq<HourKey>)
    ensures Ascending(hours)
    ensures forall k :: k in hours <==> k in keys
    ensures |hours| == |keys|
    ensures hours == SortedKeys(keys)
  {
    hours := [];
    var rest := keys;
    while rest != {}
      invariant rest <= keys
      invariant forall k :: k in keys <==> k in rest || k in hours
      invariant forall k :: k in rest ==> k !in hours
      invariant Ascending(hours)
      invariant forall i, k :: 0 <= i < |hours| && k in rest ==> Before(hours[i], k)
      invariant |hours| + |rest| == |keys|
      decreases |rest|
    {
      EarliestExists(rest);
      var m :| IsEarliest(m, rest);
      forall i, k | 0 <= i < |hours| && k in rest - {m} ensures Before(hours[i], k) {
        assert Before(hours[i], m);
      }
      hours := hours + [m];
      rest := rest - {m};
    }
    AscendingUnique(hours, SortedKeys(keys));
  }

  /**
   * The buckets of all the hours, listed in sorted order, hold every
   * observation exactly once: their sizes add up to the number of rows read.
   */
  lemma BucketsPartition(obs: seq<Observation>)
    ensures SumSizes(obs, SortedKeys(HourKeys(obs))) == |obs|
  {
    var hours := SortedKeys(HourKeys(obs));
    forall i | 0 <= i < |obs| ensures HourOf(obs[i].at) in hours {
      assert obs[i] in obs;
    }
    BucketSizesAddUp(obs, hours);
  }

  /**
   * The row the sampler appends is read back by the renderer with the same
   * status text, and its time is what the timestamp without its offset
   * parses to.
   */
  lemma LoggedRowReadsBack(rows: seq<Row>, timestamp: string, status: string, parse: string -> Option<Moment>)
    requires Observe(rows + [[timestamp, status]], parse).Ok?
    ensures KeptRows(rows + [[timestamp, status]]) == KeptRows(rows) + [[timestamp, status]]
    ensures var obs := Observe(rows + [[timestamp, status]], parse).value;
      && parse(StripOffset(timestamp)).Some?
      && obs == Observe(rows, parse).value + [Observation(parse(StripOffset(timestamp)).value, status)]
  {
    var all := rows + [[timestamp, status]];
    assert all[..|all| - 1] == rows;
  }
}
