/**
 * The logging half of status.py (status.py:56-86): read the existing rows
 * of the CSV log, keep at most the last MaxEntries - 1 of them, append the
 * new `[timestamp, status]` row and write every row back.
 *
 * The file is a value: `None` stands for a file that does not exist or could
 * not be read, `Some(rows)` for the rows the CSV reader returned.
 */
module StatusLog {
  import opened Wrappers
  import Sampler

  /** One CSV row, as the csv module reads and writes it. */
  type Row = seq<string>

  /** MAX_ENTRIES: the cap on the number of rows in the log. */
  const MaxEntries: nat := 96

  /** The rows the script starts from: a missing or unreadable file counts as empty. */
  function Existing(file: Option<seq<Row>>): (rows: seq<Row>)
    ensures file.None? ==> rows == []
    ensures file.Some? ==> rows == file.value
  {
    match file
    case None => []
    case Some(rows) => rows
  }

  /** The old rows that survive the trim of status.py:72-73. */
  function Retained(entries: seq<Row>): (kept: seq<Row>)
    ensures |kept| == if |entries| >= MaxEntries then MaxEntries - 1 else |entries|
    ensures kept == entries[|entries| - |kept|..]
  {
    if |entries| >= MaxEntries then entries[|entries| - (MaxEntries - 1)..] else entries
  }

  /** The whole file after one sampler run that appends `row`. */
  function Appended(entries: seq<Row>, row: Row): (file: seq<Row>)
    ensures 0 < |file| <= MaxEntries && file[|file| - 1] == row
    ensures |entries| < MaxEntries ==> file[..|file| - 1] == entries
  {
    Retained(entries) + [row]
  }

  /** The last `n` elements of `s`, or all of `s` when it is shorter. */
  function LastN(s: seq<Row>, n: nat): (t: seq<Row>)
    ensures |t| == if |s| <= n then |s| else n
    ensures t == s[|s| - |t|..]
  {
    if |s| <= n then s else s[|s| - n..]
  }

  /**
   * Reading, trimming, and writing back with the new row (status.py:59-86).
   * `written` is the sequence of rows handed to the CSV writer, in order.
   */
  method WriteLog(file: Option<seq<Row>>, timestamp: string, status: string) returns (written: seq<Row>)
    ensures written == Appended(Existing(file), [timestamp, status])
    ensures |written| == if |Existing(file)| >= MaxEntries then MaxEntries else |Existing(file)| + 1
    ensures |written| <= MaxEntries
    ensures written[|written| - 1] == [timestamp, status]
    ensures written[..|written| - 1] == Existing(file)[|Existing(file)| - (|written| - 1)..]
    ensures |Existing(file)| < MaxEntries ==> written[..|written| - 1] == Existing(file)
    ensures file.None? ==> written == [[timestamp, status]]
  {
    var existing: seq<Row> := [];
    if file.Some? {
      existing := file.value;
    }
    if |existing| >= MaxEntries {
      existing := existing[|existing| - (MaxEntries - 1)..];
    }
    written := [];
    for i := 0 to |existing|
      invariant written == existing[..i]
    {
      written := written + [existing[i]];
    }
    written := written + [[timestamp, status]];
  }

  /**
   * The trim-then-append of one run keeps exactly the last MaxEntries rows of
   * the old log followed by the new row, whatever the old length.
   */
  lemma AppendedIsWindow(entries: seq<Row>, row: Row)
    ensures Appended(entries, row) == LastN(entries + [row], MaxEntries)
  {
    var all := entries + [row];
    if |entries| >= MaxEntries {
      var start := |entries| - (MaxEntries - 1);
      assert entries[start..] + [row] == all[start..];
    }
  }

  /** Taking the last n twice, with more rows in between, is taking it once. */
  lemma LastNAbsorbs(s: seq<Row>, t: seq<Row>, n: nat)
    ensures LastN(LastN(s, n) + t, n) == LastN(s + t, n)
  {
    if |s| > n {
      var u := LastN(s, n) + t;
      var w := s + t;
      assert |u| == n + |t|;
      assert u == w[|s| - n..];
      assert LastN(u, n) == u[|u| - |LastN(u, n)|..];
      assert LastN(w, n) == w[|w| - |LastN(w, n)|..];
    }
  }

  /** The log after several runs, each appending one row of `rows` in order. */
  function AppendAll(entries: seq<Row>, rows: seq<Row>): seq<Row>
    decreases |rows|
  {
    if rows == [] then entries else AppendAll(Appended(entries, rows[0]), rows[1..])
  }

  /** Splitting off the first appended row. */
  lemma ConcatFirst(entries: seq<Row>, rows: seq<Row>)
    requires rows != []
    ensures entries + [rows[0]] + rows[1..] == entries + rows
  {
    assert [rows[0]] + rows[1..] == rows;
  }

  /**
   * After one or more runs the log holds the most recent MaxEntries rows of
   * everything ever appended, oldest first, in the original order.
   */
  lemma {:induction false} AppendAllIsWindow(entries: seq<Row>, rows: seq<Row>)
    requires rows != []
    ensures AppendAll(entries, rows) == LastN(entries + rows, MaxEntries)
    decreases |rows|
  {
    var first := Appended(entries, rows[0]);
    AppendedIsWindow(entries, rows[0]);
    ConcatFirst(entries, rows);
    if |rows| == 1 {
      assert rows[1..] == [];
    } else {
      AppendAllIsWindow(first, rows[1..]);
      LastNAbsorbs(entries + [rows[0]], rows[1..], MaxEntries);
    }
  }

  /**
   * N runs with more than MaxEntries rows in total leave exactly MaxEntries
   * rows, the most recent ones in their original order.
   */
  lemma ManyRunsKeepMostRecent(entries: seq<Row>, rows: seq<Row>)
    requires rows != []
    requires |entries| + |rows| > MaxEntries
    ensures |AppendAll(entries, rows)| == MaxEntries
    ensures AppendAll(entries, rows) == (entries + rows)[|entries| + |rows| - MaxEntries..]
  {
    AppendAllIsWindow(entries, rows);
  }

  /**
   * status.py as a whole: sample with the given replies, then log the
   * status under `timestamp`. Replies are sorted by Sampler.Classify, so a
   * body that is JSON but not an object counts as a failed attempt. The
   * proxy configuration only feeds the request, which is not modelled, so
   * it is returned for inspection.
   */
  method RunSampler(user: Option<string>, password: Option<string>,
                    host: Option<string>, port: Option<string>,
                    replies: seq<Sampler.Reply>, timestamp: string,
                    file: Option<seq<Row>>)
    returns (proxies: Option<Sampler.Proxies>, status: Sampler.Status, written: seq<Row>)
    requires |replies| >= Sampler.MaxRetries
    ensures proxies == Sampler.SelectProxies(user, password, host, port)
    ensures status == Sampler.Decide(Sampler.Classified(replies)[..Sampler.MaxRetries])
    ensures written == Appended(Existing(file), [timestamp, status.Label()])
    ensures |written| <= MaxEntries && written[|written| - 1] == [timestamp, status.Label()]
    ensures Sampler.DecideAsWritten(replies[..Sampler.MaxRetries]).Some? ==>
      status == Sampler.DecideAsWritten(replies[..Sampler.MaxRetries]).value
  {
    ghost var tried := replies[..Sampler.MaxRetries];
    Sampler.ClassifiedDecide(tried);
    assert Sampler.Classified(replies)[..Sampler.MaxRetries] == Sampler.Classified(tried);
    proxies := Sampler.SelectProxies(user, password, host, port);
    var attempts;
    status, attempts := Sampler.TakeSample(Sampler.Classified(replies));
    written := WriteLog(file, timestamp, status.Label());
  }
}
