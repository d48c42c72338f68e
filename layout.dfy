/**
 * The drawing half of visualize.py: the fixed colour table
 * (visualize.py:19), one grid row per hour with the earliest hour in the
 * top row and at most four cells per row (visualize.py:43-64), and the
 * static legend (visualize.py:66-72). The model stops at abstract cells;
 * sizes, fonts and positions on the canvas are not modelled.
 */
module Layout {
  import opened Wrappers
  import opened Clock
  import opened Grouping
  import Sampler

  /** The cap on cells drawn per hour (visualize.py:50). */
  const MaxColumns: nat := 4

  /** `color_map`: status text to fill colour (visualize.py:19). */
  const ColourMap: map<string, string> :=
    map["ONLINE" := "#10B981", "ERROR" := "#F59E0B", "OFFLINE" := "#EF4444"]

  /** `legend_items`: the label and swatch colour drawn below the grid (visualize.py:68-72). */
  const Legend: seq<(string, string)> :=
    [("ONLINE", "#10B981"), ("ERROR", "#F59E0B"), ("OFFLINE", "#EF4444")]

  /** One drawn box: its grid position, fill colour and '%H:%M' text. */
  datatype Cell = Cell(row: nat, col: nat, colour: string, text: string)

  /** An observation chosen for drawing, with the grid position it gets. */
  datatype Placement = Placement(row: nat, col: nat, obs: Observation)

  /** How many observations of a bucket of `size` are drawn. */
  function Drawn(size: nat): (n: nat)
    ensures n <= size && n <= MaxColumns
    ensures n == size || n == MaxColumns
  {
    if size < MaxColumns then size else MaxColumns
  }

  /** The observations of one bucket that get a cell, at columns 0, 1, ... in order. */
  function RowPlacements(row: nat, bucket: seq<Observation>): (ps: seq<Placement>)
    ensures |ps| == Drawn(|bucket|)
  {
    seq(Drawn(|bucket|), c requires 0 <= c < |bucket| => Placement(row, c, bucket[c]))
  }

  /**
   * The placements of the first |hours| rows of a grid of `numRows` rows, in
   * drawing order: hour `hours[j]` goes to row `numRows - 1 - j`
   * (visualize.py:44-45).
   */
  function Placements(hours: seq<HourKey>, hourly: map<HourKey, seq<Observation>>, numRows: nat): (ps: seq<Placement>)
    requires |hours| <= numRows
    requires forall i :: 0 <= i < |hours| ==> hours[i] in hourly
    ensures |ps| <= 4 * |hours|
    decreases |hours|
  {
    if hours == [] then []
    else
      Placements(hours[..|hours| - 1], hourly, numRows)
        + RowPlacements(numRows - |hours|, hourly[hours[|hours| - 1]])
  }

  /** The box drawn for a placement whose status has a colour in `palette`. */
  function CellFor(p: Placement, palette: map<string, string>): Cell
    requires p.obs.status in palette
  {
    Cell(p.row, p.col, palette[p.obs.status], TimeLabel(p.obs.at))
  }

  /**
   * Drawing placements in order with the colours of `palette`: the first
   * status without a colour raises KeyError (visualize.py:57) and aborts the
   * render. The renderer paints with ColourMap.
   */
  function Paint(ps: seq<Placement>, palette: map<string, string>): (r: Result<seq<Cell>, RenderError>)
    ensures r.Ok? ==> |r.value| == |ps|
    ensures r.Err? ==> r.error.UnknownStatus? && r.error.status !in palette
    decreases |ps|
  {
    if ps == [] then Ok([])
    else
      match Paint(ps[..|ps| - 1], palette)
      case Err(e) => Err(e)
      case Ok(cells) =>
        var p := ps[|ps| - 1];
        if p.obs.status in palette then Ok(cells + [CellFor(p, palette)])
        else Err(UnknownStatus(p.obs.status))
  }

  /** Once painting has failed, later placements do not change the outcome. */
  lemma {:induction false} PaintErrorPersists(ps: seq<Placement>, palette: map<string, string>, j: nat)
    requires j <= |ps|
    requires Paint(ps[..j], palette).Err?
    ensures Paint(ps, palette) == Paint(ps[..j], palette)
    decreases |ps| - j
  {
    if j < |ps| {
      var init := ps[..|ps| - 1];
      assert init[..j] == ps[..j];
      PaintErrorPersists(init, palette, j);
    } else {
      assert ps[..j] == ps;
    }
  }

  /**
   * Painting succeeds exactly when every placed status has a colour, and then
   * gives one cell per placement, in order; otherwise the error names the
   * first status without a colour.
   */
  lemma {:induction false} PaintMeaning(ps: seq<Placement>, palette: map<string, string>)
    ensures Paint(ps, palette).Ok? <==> forall i :: 0 <= i < |ps| ==> ps[i].obs.status in palette
    ensures Paint(ps, palette).Ok? ==>
      && |Paint(ps, palette).value| == |ps|
      && forall i :: 0 <= i < |ps| ==> ps[i].obs.status in palette && Paint(ps, palette).value[i] == CellFor(ps[i], palette)
    ensures Paint(ps, palette).Err? ==>
      exists i :: 0 <= i < |ps| && ps[i].obs.status !in palette
        && (forall i' :: 0 <= i' < i ==> ps[i'].obs.status in palette)
        && Paint(ps, palette).error == UnknownStatus(ps[i].obs.status)
    decreases |ps|
  {
    if ps != [] {
      var init := ps[..|ps| - 1];
      PaintMeaning(init, palette);
      assert forall i :: 0 <= i < |init| ==> ps[i] == init[i];
      if Paint(init, palette).Err? {
        var i :| 0 <= i < |init| && init[i].obs.status !in palette
          && (forall i' :: 0 <= i' < i ==> init[i'].obs.status in palette)
          && Paint(init, palette).error == UnknownStatus(init[i].obs.status);
        assert ps[i].obs.status !in palette;
      } else if ps[|ps| - 1].obs.status !in palette {
        assert ps[|ps| - 1].obs.status !in palette;
      }
    }
  }

  /** The rows before hour `j` are drawn before it. */
  lemma {:induction false} PlacementsPrefix(hours: seq<HourKey>, hourly: map<HourKey, seq<Observation>>,
                                            numRows: nat, j: nat)
    requires |hours| <= numRows && j <= |hours|
    requires forall i :: 0 <= i < |hours| ==> hours[i] in hourly
    ensures Placements(hours[..j], hourly, numRows) <= Placements(hours, hourly, numRows)
    decreases |hours| - j
  {
    if j < |hours| {
      var init := hours[..|hours| - 1];
      assert init[..j] == hours[..j];
      PlacementsPrefix(init, hourly, numRows, j);
    } else {
      assert hours[..j] == hours;
    }
  }

  /** Drawing one more hour appends its row to the placements so far. */
  lemma PlacementsNextRow(hours: seq<HourKey>, hourly: map<HourKey, seq<Observation>>, rowIdx: nat)
    requires rowIdx < |hours|
    requires forall i :: 0 <= i < |hours| ==> hours[i] in hourly
    ensures Placements(hours[..rowIdx + 1], hourly, |hours|)
            == Placements(hours[..rowIdx], hourly, |hours|) + RowPlacements(|hours| - 1 - rowIdx, hourly[hours[rowIdx]])
  {
    assert hours[..rowIdx + 1][..rowIdx] == hours[..rowIdx];
  }

  /** Once a prefix of the placements fails to paint, the whole fails the same way. */
  lemma PaintPrefixErr(all: seq<Placement>, pre: seq<Placement>, palette: map<string, string>)
    requires pre <= all
    requires Paint(pre, palette).Err?
    ensures Paint(all, palette) == Paint(pre, palette)
  {
    assert all[..|pre|] == pre;
    PaintErrorPersists(all, palette, |pre|);
  }

  /** Painting one more placement after a successful prefix adds its cell or stops at its status. */
  lemma PaintAppend(ps: seq<Placement>, p: Placement, palette: map<string, string>)
    requires Paint(ps, palette).Ok?
    ensures Paint(ps + [p], palette) ==
      if p.obs.status in palette then Ok(Paint(ps, palette).value + [CellFor(p, palette)])
      else Err(UnknownStatus(p.obs.status))
  {
    assert (ps + [p])[..|ps|] == ps;
  }

  /** Drawing the next column of a row appends its cell. */
  lemma PaintNextColumn(done: seq<Placement>, here: seq<Placement>, palette: map<string, string>,
                        col: nat, cells: seq<Cell>)
    requires col < |here|
    requires here[col].obs.status in palette
    requires Paint(done + here[..col], palette) == Ok(cells)
    ensures Paint(done + here[..col + 1], palette) == Ok(cells + [CellFor(here[col], palette)])
  {
    assert done + here[..col + 1] == (done + here[..col]) + [here[col]];
    PaintAppend(done + here[..col], here[col], palette);
  }

  /** A column whose status has no colour ends the drawing of the row and of the grid. */
  lemma PaintRowStops(done: seq<Placement>, here: seq<Placement>, palette: map<string, string>,
                      col: nat, cells: seq<Cell>)
    requires col < |here|
    requires here[col].obs.status !in palette
    requires Paint(done + here[..col], palette) == Ok(cells)
    ensures Paint(done + here, palette) == Err(UnknownStatus(here[col].obs.status))
  {
    var all, upTo := done + here, done + here[..col + 1];
    assert upTo == (done + here[..col]) + [here[col]];
    PaintAppend(done + here[..col], here[col], palette);
    assert all[..|upTo|] == upTo;
    PaintErrorPersists(all, palette, |upTo|);
  }

  /** A row that fails to paint ends the drawing of the grid with its error. */
  lemma LayOutStops(hours: seq<HourKey>, hourly: map<HourKey, seq<Observation>>,
                    palette: map<string, string>, rowIdx: nat)
    requires rowIdx < |hours|
    requires forall i :: 0 <= i < |hours| ==> hours[i] in hourly
    requires Paint(Placements(hours[..rowIdx + 1], hourly, |hours|), palette).Err?
    ensures Paint(Placements(hours, hourly, |hours|), palette)
            == Paint(Placements(hours[..rowIdx + 1], hourly, |hours|), palette)
  {
    var all, pre := Placements(hours, hourly, |hours|), Placements(hours[..rowIdx + 1], hourly, |hours|);
    PlacementsPrefix(hours, hourly, |hours|, rowIdx + 1);
    PaintPrefixErr(all, pre, palette);
  }

  /**
   * Drawing the row of hour `rowIdx` after the rows before it: the result is
   * the drawing of one more hour, and an error there is the error of the grid.
   */
  lemma LayOutStep(hours: seq<HourKey>, hourly: map<HourKey, seq<Observation>>,
                   palette: map<string, string>, rowIdx: nat, next: Result<seq<Cell>, RenderError>)
    requires rowIdx < |hours|
    requires forall i :: 0 <= i < |hours| ==> hours[i] in hourly
    requires next == Paint(Placements(hours[..rowIdx], hourly, |hours|)
                           + RowPlacements(|hours| - 1 - rowIdx, hourly[hours[rowIdx]]), palette)
    ensures next == Paint(Placements(hours[..rowIdx + 1], hourly, |hours|), palette)
    ensures next.Err? ==> Paint(Placements(hours, hourly, |hours|), palette) == next
  {
    PlacementsNextRow(hours, hourly, rowIdx);
    if next.Err? {
      LayOutStops(hours, hourly, palette, rowIdx);
    }
  }

  /**
   * The inner loop of visualize.py:50-64 for one hour: the first four
   * observations of `points` go to columns 0..3 of `row`, and the first
   * status without a colour in `palette` aborts. `done` stands for the
   * placements of the rows already drawn, which gave `cells`.
   */
  method LayOutRow(ghost done: seq<Placement>, row: nat, points: seq<Observation>,
                   palette: map<string, string>, cells: seq<Cell>)
    returns (r: Result<seq<Cell>, RenderError>)
    requires Paint(done, palette) == Ok(cells)
    ensures r == Paint(done + RowPlacements(row, points), palette)
  {
    ghost var here := RowPlacements(row, points);
    var drawn := cells;
    var col := 0;
    assert done + here[..0] == done;
    while col < |points|
      invariant 0 <= col <= Drawn(|points|)
      invariant Paint(done + here[..col], palette) == Ok(drawn)
    {
      if col >= MaxColumns {
        break;
      }
      var status := points[col].status;
      if status !in palette {
        PaintRowStops(done, here, palette, col, drawn);
        return Err(UnknownStatus(status));
      }
      assert here[col] == Placement(row, col, points[col]);
      PaintNextColumn(done, here, palette, col, drawn);
      drawn := drawn + [CellFor(Placement(row, col, points[col]), palette)];
      col := col + 1;
    }
    assert here[..col] == here;
    r := Ok(drawn);
  }

  /**
   * The layout loops of visualize.py:44-64: hour by hour in ascending order,
   * row `num_rows - 1 - row_idx`, and within an hour at most the first four
   * observations in columns 0..3, stopping at the first status without a
   * colour in `palette` (the renderer passes ColourMap).
   */
  method LayOut(hours: seq<HourKey>, hourly: map<HourKey, seq<Observation>>, palette: map<string, string>)
    returns (r: Result<seq<Cell>, RenderError>)
    requires forall i :: 0 <= i < |hours| ==> hours[i] in hourly
    ensures r == Paint(Placements(hours, hourly, |hours|), palette)
  {
    var numRows := |hours|;
    var cells: seq<Cell> := [];
    var rowIdx := 0;
    while rowIdx < numRows
      invariant 0 <= rowIdx <= numRows
      invariant Paint(Placements(hours[..rowIdx], hourly, numRows), palette) == Ok(cells)
    {
      ghost var done := Placements(hours[..rowIdx], hourly, numRows);
      var next := LayOutRow(done, numRows - 1 - rowIdx, hourly[hours[rowIdx]], palette, cells);
      LayOutStep(hours, hourly, palette, rowIdx, next);
      if next.Err? {
        r := next;
        return;
      }
      cells := next.value;
      rowIdx := rowIdx + 1;
    }
    assert hours[..numRows] == hours;
    r := Ok(cells);
  }

  /** The total number of observations drawn for `hours`: at most four each. */
  function DrawnTotal(hours: seq<HourKey>, hourly: map<HourKey, seq<Observation>>): nat
    requires forall i :: 0 <= i < |hours| ==> hours[i] in hourly
    decreases |hours|
  {
    if hours == [] then 0
    else DrawnTotal(hours[..|hours| - 1], hourly) + Drawn(|hourly[hours[|hours| - 1]]|)
  }

  /** The grid has one placement per drawn observation. */
  lemma {:induction false} PlacementsCount(hours: seq<HourKey>, hourly: map<HourKey, seq<Observation>>,
                                           numRows: nat)
    requires |hours| <= numRows
    requires forall i :: 0 <= i < |hours| ==> hours[i] in hourly
    ensures |Placements(hours, hourly, numRows)| == DrawnTotal(hours, hourly)
    decreases |hours|
  {
    if hours != [] {
      PlacementsCount(hours[..|hours| - 1], hourly, numRows);
    }
  }

  /**
   * Observation `c < 4` of hour `hours[j]` is placed at row
   * `numRows - 1 - j`, column `c`, right after the rows of the hours
   * before it.
   */
  lemma {:induction false} PlacementAt(hours: seq<HourKey>, hourly: map<HourKey, seq<Observation>>,
                                       numRows: nat, j: nat, c: nat)
    requires |hours| <= numRows
    requires forall i :: 0 <= i < |hours| ==> hours[i] in hourly
    requires j < |hours| && c < Drawn(|hourly[hours[j]]|)
    ensures DrawnTotal(hours[..j], hourly) + c < |Placements(hours, hourly, numRows)|
    ensures Placements(hours, hourly, numRows)[DrawnTotal(hours[..j], hourly) + c]
            == Placement(numRows - 1 - j, c, hourly[hours[j]][c])
    decreases |hours|
  {
    var n := |hours|;
    var init := hours[..n - 1];
    PlacementsCount(init, hourly, numRows);
    if j < n - 1 {
      assert init[..j] == hours[..j];
      PlacementAt(init, hourly, numRows, j, c);
    } else {
      assert hours[..j] == init;
    }
  }

  /**
   * Every placement shows the observation its position names: row `r`
   * belongs to hour `hours[numRows - 1 - r]` and column `c` to that hour's
   * observation `c`, one of the first four.
   */
  lemma {:induction false} PlacementOrigin(hours: seq<HourKey>, hourly: map<HourKey, seq<Observation>>,
                                           numRows: nat)
    requires |hours| <= numRows
    requires forall i :: 0 <= i < |hours| ==> hours[i] in hourly
    ensures forall p :: p in Placements(hours, hourly, numRows) ==>
      && numRows - |hours| <= p.row < numRows
      && p.col < Drawn(|hourly[hours[numRows - 1 - p.row]]|)
      && p.obs == hourly[hours[numRows - 1 - p.row]][p.col]
    decreases |hours|
  {
    if hours != [] {
      var n := |hours|;
      var init := hours[..n - 1];
      PlacementOrigin(init, hourly, numRows);
      var before := Placements(init, hourly, numRows);
      var here := RowPlacements(numRows - n, hourly[hours[n - 1]]);
      forall p | p in Placements(hours, hourly, numRows)
        ensures numRows - n <= p.row < numRows
        ensures p.col < Drawn(|hourly[hours[numRows - 1 - p.row]]|)
        ensures p.obs == hourly[hours[numRows - 1 - p.row]][p.col]
      {
        if p in before {
          assert hours[numRows - 1 - p.row] == init[numRows - 1 - p.row];
        } else {
          assert p in here;
        }
      }
    }
  }

  /**
   * The picture visualize.py produces for a log, as a value, when statuses
   * are coloured by `palette` (the renderer uses ColourMap).
   */
  ghost function Expected(file: Option<seq<Row>>, parse: string -> Option<Moment>, palette: map<string, string>)
    : (r: Result<seq<Cell>, RenderError>)
    ensures r.Err? ==> || (file.None? && r.error == MissingFile)
                       || r.error.BadTimestamp?
                       || (r.error.UnknownStatus? && r.error.status !in palette)
  {
    match file
    case None => Err(MissingFile)
    case Some(rows) =>
      match Observe(rows, parse)
      case Err(e) => Err(e)
      case Ok(obs) =>
        var hourly := Buckets(obs);
        var hours := SortedKeys(hourly.Keys);
        Paint(Placements(hours, hourly, |hours|), palette)
  }

  /**
   * visualize.py from top to bottom: a missing log aborts; otherwise read,
   * group by hour, sort the hours and lay out the cells.
   */
  method Render(file: Option<seq<Row>>, parse: string -> Option<Moment>)
    returns (r: Result<seq<Cell>, RenderError>)
    ensures r == Expected(file, parse, ColourMap)
    ensures file.None? ==> r == Err(MissingFile)
  {
    if file.None? {
      return Err(MissingFile);
    }
    var read := ReadObservations(file.value, parse);
    if read.Err? {
      return Err(read.error);
    }
    var hourly := GroupByHour(read.value);
    var hours := SortedHours(hourly.Keys);
    r := LayOut(hours, hourly, ColourMap);
  }

  /** The legend shows each status of the colour table once, with its colour. */
  lemma LegendMatchesColourMap()
    ensures |Legend| == |ColourMap|
    ensures forall i :: 0 <= i < |Legend| ==> Legend[i].0 in ColourMap && ColourMap[Legend[i].0] == Legend[i].1
    ensures forall s :: s in ColourMap ==> exists i :: 0 <= i < |Legend| && Legend[i].0 == s
  {
    assert Legend[0].0 == "ONLINE" && Legend[1].0 == "ERROR" && Legend[2].0 == "OFFLINE";
    assert ColourMap.Keys == {"ONLINE", "ERROR", "OFFLINE"};
  }

  /** Every status the sampler writes has a colour, so its rows never abort a render. */
  lemma SampledStatusesHaveColours(s: Sampler.Status)
    ensures s.Label() in ColourMap
  {
  }

  /** A successful layout has one cell per drawn observation. */
  lemma GridCount(hours: seq<HourKey>, hourly: map<HourKey, seq<Observation>>, palette: map<string, string>)
    requires forall i :: 0 <= i < |hours| ==> hours[i] in hourly
    requires Paint(Placements(hours, hourly, |hours|), palette).Ok?
    ensures |Paint(Placements(hours, hourly, |hours|), palette).value| == DrawnTotal(hours, hourly)
  {
    PaintMeaning(Placements(hours, hourly, |hours|), palette);
    PlacementsCount(hours, hourly, |hours|);
  }

  /**
   * A cell in row `r` of a successful layout shows observation `col` (one of
   * the first four) of hour `hours[n - 1 - r]`, in that status's colour and
   * labelled with its time.
   */
  lemma GridCellShows(hours: seq<HourKey>, hourly: map<HourKey, seq<Observation>>,
                      palette: map<string, string>, i: nat)
    requires forall i :: 0 <= i < |hours| ==> hours[i] in hourly
    requires Paint(Placements(hours, hourly, |hours|), palette).Ok?
    requires i < |Paint(Placements(hours, hourly, |hours|), palette).value|
    ensures var cell, n := Paint(Placements(hours, hourly, |hours|), palette).value[i], |hours|;
      && cell.row < n
      && var bucket := hourly[hours[n - 1 - cell.row]];
      && cell.col < Drawn(|bucket|)
      && bucket[cell.col].status in palette
      && cell.colour == palette[bucket[cell.col].status]
      && cell.text == TimeLabel(bucket[cell.col].at)
  {
    var ps := Placements(hours, hourly, |hours|);
    PaintMeaning(ps, palette);
    PlacementOrigin(hours, hourly, |hours|);
    assert ps[i] in ps;
  }

  /** Every hour with observations has a cell in column 0 of its row. */
  lemma GridRowOccupied(hours: seq<HourKey>, hourly: map<HourKey, seq<Observation>>,
                        palette: map<string, string>, j: nat)
    requires forall i :: 0 <= i < |hours| ==> hours[i] in hourly
    requires Paint(Placements(hours, hourly, |hours|), palette).Ok?
    requires j < |hours| && hourly[hours[j]] != []
    ensures var cells := Paint(Placements(hours, hourly, |hours|), palette).value;
      exists i :: 0 <= i < |cells| && cells[i].row == |hours| - 1 - j && cells[i].col == 0
  {
    var ps := Placements(hours, hourly, |hours|);
    var cells := Paint(ps, palette).value;
    PaintMeaning(ps, palette);
    PlacementAt(hours, hourly, |hours|, j, 0);
    var i := DrawnTotal(hours[..j], hourly);
    assert cells[i] == CellFor(ps[i], palette);
  }

  /** The hours of a set of observations, in the order the grid lists them. */
  ghost function GridHours(obs: seq<Observation>): seq<HourKey> {
    SortedKeys(HourKeys(obs))
  }

  /** A successful render is the layout of the sorted hours of the observations read. */
  lemma ExpectedIsLayout(rows: seq<Row>, parse: string -> Option<Moment>, palette: map<string, string>)
    requires Expected(Some(rows), parse, palette).Ok?
    ensures Observe(rows, parse).Ok?
    ensures var obs := Observe(rows, parse).value;
      && (forall i :: 0 <= i < |GridHours(obs)| ==> GridHours(obs)[i] in Buckets(obs))
      && Expected(Some(rows), parse, palette) == Paint(Placements(GridHours(obs), Buckets(obs), |GridHours(obs)|), palette)
  {
    var obs := Observe(rows, parse).value;
    assert Buckets(obs).Keys == HourKeys(obs);
  }

  /**
   * The shape of a drawn grid: one row per distinct hour of the observations,
   * every cell on one of those rows, and every row occupied from column 0.
   */
  ghost predicate GridShape(obs: seq<Observation>, cells: seq<Cell>) {
    var n := |GridHours(obs)|;
    && n == |HourKeys(obs)|
      && (forall i :: 0 <= i < |cells| ==> cells[i].row < n)
      && (forall j :: 0 <= j < n ==>
            Buckets(obs)[GridHours(obs)[j]] != [] &&
            exists i :: 0 <= i < |cells| && cells[i].row == n - 1 - j && cells[i].col == 0)
  }

  /**
   * A successful render has one grid row per distinct hour of the
   * observations read, and no row is empty.
   */
  lemma RenderedRows(rows: seq<Row>, parse: string -> Option<Moment>, palette: map<string, string>,
                     cells: seq<Cell>)
    requires Expected(Some(rows), parse, palette) == Ok(cells)
    ensures Observe(rows, parse).Ok?
    ensures GridShape(Observe(rows, parse).value, cells)
  {
    ExpectedIsLayout(rows, parse, palette);
    GridOfObservations(Observe(rows, parse).value, palette, cells);
  }

  /** The grid rows of the observations read: one per distinct hour, all occupied. */
  lemma GridOfObservations(obs: seq<Observation>, palette: map<string, string>, cells: seq<Cell>)
    requires forall i :: 0 <= i < |GridHours(obs)| ==> GridHours(obs)[i] in Buckets(obs)
    requires Paint(Placements(GridHours(obs), Buckets(obs), |GridHours(obs)|), palette) == Ok(cells)
    ensures GridShape(obs, cells)
  {
    var hourly := Buckets(obs);
    var hours := GridHours(obs);
    SortedHasSize(HourKeys(obs), hours);
    forall i | 0 <= i < |cells| ensures cells[i].row < |hours| {
      GridCellShows(hours, hourly, palette, i);
    }
    forall j | 0 <= j < |hours|
      ensures hourly[hours[j]] != []
      ensures exists i :: 0 <= i < |cells| && cells[i].row == |hours| - 1 - j && cells[i].col == 0
    {
      InHourNonEmpty(obs, hours[j]);
      GridRowOccupied(hours, hourly, palette, j);
    }
  }

  /** A sorted listing of a set has one entry per element. */
  lemma SortedHasSize(s: set<HourKey>, hours: seq<HourKey>)
    requires Ascending(hours)
    requires forall k :: k in hours <==> k in s
    ensures |hours| == |s|
  {
    DistinctSize(hours, s);
  }

  lemma {:induction false} DistinctSize(hours: seq<HourKey>, s: set<HourKey>)
    requires Ascending(hours)
    requires forall k :: k in hours <==> k in s
    ensures |hours| == |s|
    decreases |hours|
  {
    if hours != [] {
      var rest := hours[1..];
      forall k ensures k in rest <==> k in s - {hours[0]} {
        if k in rest { BeforeIsStrictTotalOrder(hours[0], k, k); }
        if k in s - {hours[0]} { assert k in hours; }
      }
      DistinctSize(rest, s - {hours[0]});
    } else {
      assert forall k :: k !in s;
      assert s == {};
    }
  }
}
