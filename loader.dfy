/** The normalisation part of `load_data` (app.py:60-74): the frame read from the CSV file,
    the columns it must have, the defaults for unparsable numbers, the derived lower-case
    columns, and the removal of blank names and repeated (name, city) pairs. */
module Loader {
  import opened Seqs
  import opened Text
  import opened Numeric

  /** One CSV row after `fillna("")`: column name to cell text. */
  type Row = map<string, string>

  /** The frame: its column names in order and its rows. */
  datatype Frame = Frame(columns: seq<string>, rows: seq<Row>)

  /** Every row has exactly the given columns. */
  ghost predicate Shaped(columns: seq<string>, rows: seq<Row>) {
    forall i, c :: 0 <= i < |rows| ==> (c in rows[i] <==> c in columns)
  }

  ghost predicate WellFormed(f: Frame) {
    Shaped(f.columns, f.rows)
  }

  const RequiredColumns: seq<string> := ["name", "city", "cuisine", "rating", "rating_count", "cost"]

  function NotIn(cols: seq<string>): string -> bool { c => c !in cols }

  /** The required columns that the frame lacks, in the order they are added. */
  function MissingColumns(f: Frame): seq<string> {
    Filter(RequiredColumns, NotIn(f.columns))
  }

  /** `df[c] = ""`: column `c` set to empty text in every row. */
  function WithBlank(rows: seq<Row>, c: string): (r: seq<Row>)
    ensures |r| == |rows|
    ensures forall i :: 0 <= i < |rows| ==> r[i] == rows[i][c := ""]
  {
    seq(|rows|, i requires 0 <= i < |rows| => rows[i][c := ""])
  }

  /** The cells of `f` kept and every column of `added` blank, in rows of the right shape. */
  ghost predicate Extended(f: Frame, added: seq<string>, columns: seq<string>, rows: seq<Row>) {
    && columns == f.columns + added
    && |rows| == |f.rows|
    && Shaped(columns, rows)
    && (forall i, c :: 0 <= i < |f.rows| && c in f.rows[i] ==> c in rows[i] && rows[i][c] == f.rows[i][c])
    && (forall i, c :: 0 <= i < |f.rows| && c in added ==> c in rows[i] && rows[i][c] == "")
  }

  /** Adding one column the frame lacks keeps the frame extended. */
  lemma {:induction false} ExtendedBlank(f: Frame, added: seq<string>, columns: seq<string>, rows: seq<Row>, c: string)
    requires WellFormed(f) && Extended(f, added, columns, rows) && c !in columns
    ensures Extended(f, added + [c], columns + [c], WithBlank(rows, c))
  {
    var rows' := WithBlank(rows, c);
    forall i, d | 0 <= i < |f.rows| && d in f.rows[i]
      ensures d in rows'[i] && rows'[i][d] == f.rows[i][d]
    {
      assert d in f.columns;
    }
  }

  /** The state of the column loop after the first `k` required columns. */
  ghost predicate ColumnsAdded(f: Frame, k: nat, columns: seq<string>, rows: seq<Row>) {
    && k <= |RequiredColumns|
    && Extended(f, Filter(RequiredColumns[..k], NotIn(f.columns)), columns, rows)
    && (forall c :: c in RequiredColumns[..k] ==> c in columns)
  }

  /** No required column is listed twice. */
  lemma {:induction false} RequiredDistinct()
    ensures forall i, j :: 0 <= i < j < |RequiredColumns| ==> RequiredColumns[i] != RequiredColumns[j]
  {
    var r := RequiredColumns;
    assert |r[0]| == 4 && |r[1]| == 4 && |r[2]| == 7 && |r[3]| == 6 && |r[4]| == 12 && |r[5]| == 4;
    assert r[0][1] == 'a' && r[1][1] == 'i' && r[5][1] == 'o';
  }

  /** One turn of the column loop when the column is already there. */
  lemma {:induction false} ColumnsAddedKeep(f: Frame, k: nat, columns: seq<string>, rows: seq<Row>)
    requires WellFormed(f) && k < |RequiredColumns| && ColumnsAdded(f, k, columns, rows)
    requires RequiredColumns[k] in columns
    ensures ColumnsAdded(f, k + 1, columns, rows)
  {
    var c := RequiredColumns[k];
    TakeNext(RequiredColumns, k);
    FilterAppend(RequiredColumns[..k], [c], NotIn(f.columns));
    if c !in f.columns {
      RequiredDistinct();
      assert false;
    }
  }

  /** One turn of the column loop when the column is missing. */
  lemma {:induction false} ColumnsAddedNew(f: Frame, k: nat, columns: seq<string>, rows: seq<Row>)
    requires WellFormed(f) && k < |RequiredColumns| && ColumnsAdded(f, k, columns, rows)
    requires RequiredColumns[k] !in columns
    ensures ColumnsAdded(f, k + 1, columns + [RequiredColumns[k]], WithBlank(rows, RequiredColumns[k]))
  {
    var c := RequiredColumns[k];
    var added := Filter(RequiredColumns[..k], NotIn(f.columns));
    TakeNext(RequiredColumns, k);
    FilterAppend(RequiredColumns[..k], [c], NotIn(f.columns));
    assert c !in f.columns;
    ExtendedBlank(f, added, columns, rows, c);
  }

  /** The loop of app.py:62-64: every required column the frame lacks is appended, filled
      with empty text; the cells already there are kept. */
  method AddMissingColumns(f: Frame) returns (g: Frame)
    requires WellFormed(f)
    ensures WellFormed(g)
    ensures g.columns == f.columns + MissingColumns(f)
    ensures forall c :: c in RequiredColumns ==> c in g.columns
    ensures |g.rows| == |f.rows|
    ensures forall i, c :: 0 <= i < |f.rows| && c in f.rows[i] ==> c in g.rows[i] && g.rows[i][c] == f.rows[i][c]
    ensures forall i, c :: 0 <= i < |f.rows| && c in MissingColumns(f) ==> c in g.rows[i] && g.rows[i][c] == ""
  {
    var columns, rows := f.columns, f.rows;
    var k := 0;
    assert RequiredColumns[..0] == [];
    while k < |RequiredColumns|
      invariant ColumnsAdded(f, k, columns, rows)
    {
      var c := RequiredColumns[k];
      if c in columns {
        ColumnsAddedKeep(f, k, columns, rows);
      } else {
        ColumnsAddedNew(f, k, columns, rows);
        columns := columns + [c];
        rows := WithBlank(rows, c);
      }
      k := k + 1;
    }
    ColumnsAddedDone(f, columns, rows);
    g := Frame(columns, rows);
  }

  lemma {:induction false} ColumnsAddedDone(f: Frame, columns: seq<string>, rows: seq<Row>)
    requires ColumnsAdded(f, |RequiredColumns|, columns, rows)
    ensures Shaped(columns, rows) && |rows| == |f.rows|
    ensures columns == f.columns + MissingColumns(f)
    ensures forall c :: c in RequiredColumns ==> c in columns
    ensures forall i, c :: 0 <= i < |f.rows| && c in f.rows[i] ==> c in rows[i] && rows[i][c] == f.rows[i][c]
    ensures forall i, c :: 0 <= i < |f.rows| && c in MissingColumns(f) ==> c in rows[i] && rows[i][c] == ""
  {
    assert RequiredColumns[..|RequiredColumns|] == RequiredColumns;
  }

  /** The six cells the rest of the program reads. */
  datatype RawRecord = RawRecord(name: string, city: string, cuisine: string, rating: string, ratingCount: string, cost: string)

  /** A cell of a row; a column the row lacks reads as empty text. */
  function Cell(row: Row, c: string): (r: string)
    ensures c in row ==> r == row[c]
  {
    if c in row then row[c] else ""
  }

  function Project(row: Row): RawRecord {
    RawRecord(Cell(row, "name"), Cell(row, "city"), Cell(row, "cuisine"),
              Cell(row, "rating"), Cell(row, "rating_count"), Cell(row, "cost"))
  }

  function Projected(rows: seq<Row>): (r: seq<RawRecord>)
    ensures |r| == |rows|
  {
    seq(|rows|, i requires 0 <= i < |rows| => Project(rows[i]))
  }

  /** Adding the missing columns changes nothing that the rest of the program reads. */
  lemma {:induction false} AddedColumnsReadEmpty(f: Frame, g: Frame)
    requires |g.rows| == |f.rows|
    requires forall i, c :: 0 <= i < |f.rows| && c in f.rows[i] ==> c in g.rows[i] && g.rows[i][c] == f.rows[i][c]
    requires forall i, c :: 0 <= i < |f.rows| && c in g.rows[i] && c !in f.rows[i] ==> g.rows[i][c] == ""
    ensures Projected(g.rows) == Projected(f.rows)
  {
    forall i | 0 <= i < |f.rows| ensures Project(g.rows[i]) == Project(f.rows[i]) {
      forall c ensures Cell(g.rows[i], c) == Cell(f.rows[i], c) {
        if c in g.rows[i] && c !in f.rows[i] {
          assert g.rows[i][c] == "";
        }
      }
    }
  }

  /** A loaded restaurant: the text columns, the numbers with their defaults applied, and the
      two derived columns. `cost` is `None` (NaN) only when no row's cost parses at all. */
  datatype Record = Record(
    name: string, city: string, cuisine: string,
    rating: real, ratingCount: nat, cost: Option<real>,
    cityClean: string, cuisineClean: string)

  const DefaultRating: real := 3.5

  /** `city.lower().strip()` */
  function CityClean(city: string): (r: string)
    ensures forall i :: 0 <= i < |r| ==> !IsUpper(r[i])
    ensures Trimmed(Lower(city), r)
  {
    var low := Lower(city);
    StripNoUpper(low);
    Strip(low)
  }

  /** `cuisine.lower()` followed by the comma rewrite. */
  function CuisineClean(cuisine: string): (r: string)
    ensures r == Join(CleanPieces(Split(Lower(cuisine), ','), false), ',')
    ensures NoSpaceAroundComma(r)
    ensures WithoutSpaces(r) == WithoutSpaces(Lower(cuisine))
  {
    var low := Lower(cuisine);
    CollapseBySplit(low);
    CollapseNoSpaceAroundComma(low);
    CollapseKeepsNonSpace(low);
    CollapseCommaSpace(low)
  }

  /** One row with its defaults applied: an unparsable rating is 3.5, an unparsable rating count
      is 0 and a parsed one is truncated to an integer, and an unparsable cost takes `fill`. */
  function MakeRecord(raw: RawRecord, fill: Option<real>): (r: Record)
    ensures r.name == raw.name && r.city == raw.city && r.cuisine == raw.cuisine
    ensures r.rating >= 0.0
  {
    var rating := NumericClean(raw.rating);
    var count := NumericClean(raw.ratingCount);
    var cost := NumericClean(raw.cost);
    Record(
      raw.name, raw.city, raw.cuisine,
      if rating.Some? then rating.value else DefaultRating,
      if count.Some? then count.value.Floor else 0,
      if cost.Some? then cost else fill,
      CityClean(raw.city), CuisineClean(raw.cuisine))
  }

  /** The cost column after `numeric_clean`, NaN as `None`. */
  function CostCells(raws: seq<RawRecord>): (c: seq<Option<real>>)
    ensures |c| == |raws|
    ensures forall i :: 0 <= i < |raws| ==> c[i] == NumericClean(raws[i].cost)
    ensures forall i :: 0 <= i < |c| && c[i].Some? ==> c[i].value >= 0.0
  {
    seq(|raws|, i requires 0 <= i < |raws| => NumericClean(raws[i].cost))
  }

  /** The values that are not NaN, in order (`skipna=True`). */
  function Present(c: seq<Option<real>>): (r: seq<real>)
    ensures |r| > 0 <==> exists j :: 0 <= j < |c| && c[j].Some?
    ensures forall v :: v in r ==> Some(v) in c
    ensures forall v :: multiset(r)[v] == multiset(c)[Some(v)]
  {
    if c == [] then []
    else
      var rest := Present(c[1..]);
      var r := if c[0].Some? then [c[0].value] + rest else rest;
      PresentStep(c, rest, r);
      r
  }

  /** The contract of `Present` carries over from the tail to the whole column. */
  lemma PresentStep(c: seq<Option<real>>, rest: seq<real>, r: seq<real>)
    requires c != []
    requires |rest| > 0 <==> exists j :: 0 <= j < |c| - 1 && c[1..][j].Some?
    requires forall v :: v in rest ==> Some(v) in c[1..]
    requires forall v :: multiset(rest)[v] == multiset(c[1..])[Some(v)]
    requires r == if c[0].Some? then [c[0].value] + rest else rest
    ensures |r| > 0 <==> exists j :: 0 <= j < |c| && c[j].Some?
    ensures forall v :: v in r ==> Some(v) in c
    ensures forall v :: multiset(r)[v] == multiset(c)[Some(v)]
  {
    assert c == [c[0]] + c[1..];
    assert forall j :: 0 <= j < |c| - 1 ==> c[1..][j] == c[j + 1];
    assert multiset(c) == multiset{c[0]} + multiset(c[1..]);
  }

  /** A cost cell that holds a value satisfying `p`. */
  function CellWhere(p: real -> bool): Option<real> -> bool {
    (o: Option<real>) => o.Some? && p(o.value)
  }

  /** Selecting among the present values is selecting among the cells that hold one. */
  lemma {:induction false} PresentFilter(c: seq<Option<real>>, p: real -> bool)
    ensures |Filter(Present(c), p)| == |Filter(c, CellWhere(p))|
  {
    if c != [] {
      PresentFilter(c[1..], p);
      var rest := Present(c[1..]);
      if c[0].Some? {
        var r := [c[0].value] + rest;
        assert r[1..] == rest;
      }
    }
  }

  /** `cnum.median(skipna=True)`: the median of the costs that parse, NaN when there are none. */
  function MedianCost(raws: seq<RawRecord>): Option<real> {
    Median(Present(CostCells(raws)))
  }

  function MakeRecords(raws: seq<RawRecord>, fill: Option<real>): (r: seq<Record>)
    ensures |r| == |raws|
    ensures forall i :: 0 <= i < |raws| ==> r[i] == MakeRecord(raws[i], fill)
  {
    seq(|raws|, i requires 0 <= i < |raws| => MakeRecord(raws[i], fill))
  }

  /** `name.strip() != ""` */
  predicate HasName(r: Record) { Strip(r.name) != [] }

  function RecordKey(r: Record): (string, string) { (r.name, r.city) }

  /** The normalised table: defaults are filled over all rows (so the median counts the rows
      that are dropped afterwards), then blank names go, then repeated (name, city) pairs. */
  function Normalize(raws: seq<RawRecord>): (r: seq<Record>)
    ensures forall x :: x in r ==> HasName(x)
    ensures forall i, j :: 0 <= i < j < |r| ==> RecordKey(r[i]) != RecordKey(r[j])
  {
    var records := MakeRecords(raws, MedianCost(raws));
    DedupUnique(Filter(records, HasName), RecordKey);
    Dedup(Filter(records, HasName), RecordKey)
  }

  /** `load_data` from the frame read from the file on: the columns are completed, the six cells
      of each row are read, and the rows are normalised. */
  method LoadData(f: Frame) returns (records: seq<Record>)
    requires WellFormed(f)
    ensures records == Normalize(Projected(f.rows))
  {
    var g := AddMissingColumns(f);
    forall i, c | 0 <= i < |f.rows| && c in g.rows[i] && c !in f.rows[i]
      ensures g.rows[i][c] == ""
    {
      assert c in g.columns;
      assert c !in f.columns;
      assert c in MissingColumns(f);
    }
    AddedColumnsReadEmpty(f, g);
    records := Normalize(Projected(g.rows));
  }

  // ---------------------------------------------------------------------------
  // Properties of the loaded table
  // ---------------------------------------------------------------------------

  /** Row `j` is the first row with a non-blank name and its (name, city) pair. */
  predicate FirstNamed(raws: seq<RawRecord>, j: int)
    requires 0 <= j < |raws|
  {
    Strip(raws[j].name) != [] &&
    forall k :: 0 <= k < j && Strip(raws[k].name) != [] ==>
      (raws[k].name, raws[k].city) != (raws[j].name, raws[j].city)
  }

  /** Records made from rows keep the rows' names and cities, so they share their first rows. */
  lemma {:induction false} FirstOfRecords(records: seq<Record>, raws: seq<RawRecord>, j: int)
    requires |records| == |raws| && 0 <= j < |raws|
    requires forall k :: 0 <= k < |raws| ==> records[k].name == raws[k].name && records[k].city == raws[k].city
    ensures FirstOf(records, HasName, RecordKey, j) == FirstNamed(raws, j)
  {
    assert HasName(records[j]) == (Strip(raws[j].name) != []);
    forall k | 0 <= k < j
      ensures (HasName(records[k]) && RecordKey(records[k]) == RecordKey(records[j])) ==
              (Strip(raws[k].name) != [] && (raws[k].name, raws[k].city) == (raws[j].name, raws[j].city))
    {
      assert records[k].name == raws[k].name && records[k].city == raws[k].city;
    }
  }

  /** Every loaded record comes from the first row of its (name, city) pair among the rows with
      a name, and every such row gives a loaded record. */
  lemma {:induction false} NormalizeKeepsFirst(raws: seq<RawRecord>)
    ensures forall x :: x in Normalize(raws) ==>
      exists j :: 0 <= j < |raws| && FirstNamed(raws, j) && x == MakeRecord(raws[j], MedianCost(raws))
    ensures forall j :: 0 <= j < |raws| && FirstNamed(raws, j) ==>
      MakeRecord(raws[j], MedianCost(raws)) in Normalize(raws)
  {
    var records := MakeRecords(raws, MedianCost(raws));
    var r := Normalize(raws);
    assert forall k :: 0 <= k < |raws| ==> records[k].name == raws[k].name && records[k].city == raws[k].city;
    forall j | 0 <= j < |raws| ensures FirstOf(records, HasName, RecordKey, j) == FirstNamed(raws, j) {
      FirstOfRecords(records, raws, j);
    }
    DedupFilterSound(records, HasName, RecordKey);
    DedupFilterComplete(records, HasName, RecordKey);
    forall x | x in r
      ensures exists j :: 0 <= j < |raws| && FirstNamed(raws, j) && x == MakeRecord(raws[j], MedianCost(raws))
    {
      var j := KeptFirstIndex(records, HasName, RecordKey, x);
      assert FirstNamed(raws, j);
    }
  }

  /** The records of the first named rows of every (name, city) pair, in row order, with
      `fill` for the costs that do not parse. */
  function FirstNamedRecords(raws: seq<RawRecord>, fill: Option<real>): seq<Record> {
    if raws == [] then []
    else
      FirstNamedRecords(raws[..|raws| - 1], fill) +
      (if FirstNamed(raws, |raws| - 1) then [MakeRecord(raws[|raws| - 1], fill)] else [])
  }

  /** The loaded table is the records of the first named rows of every (name, city) pair, in the
      order of the rows of the file. */
  lemma {:induction false} NormalizeInOrder(raws: seq<RawRecord>)
    ensures Normalize(raws) == FirstNamedRecords(raws, MedianCost(raws))
  {
    var fill := MedianCost(raws);
    DedupFilterFirstRows(MakeRecords(raws, fill), HasName, RecordKey);
    FirstRowsOfRecords(raws, fill);
  }

  lemma {:induction false} FirstRowsOfRecords(raws: seq<RawRecord>, fill: Option<real>)
    ensures FirstRows(MakeRecords(raws, fill), HasName, RecordKey) == FirstNamedRecords(raws, fill)
  {
    if raws != [] {
      var n := |raws| - 1;
      var records := MakeRecords(raws, fill);
      MakeRecordsPrefix(raws, fill);
      FirstRowsOfRecords(raws[..n], fill);
      FirstOfMadeLast(raws, fill);
      assert records[n] == MakeRecord(raws[n], fill);
    }
  }

  lemma MakeRecordsPrefix(raws: seq<RawRecord>, fill: Option<real>)
    requires raws != []
    ensures MakeRecords(raws, fill)[..|raws| - 1] == MakeRecords(raws[..|raws| - 1], fill)
  {
  }

  lemma FirstOfMadeLast(raws: seq<RawRecord>, fill: Option<real>)
    requires raws != []
    ensures FirstOf(MakeRecords(raws, fill), HasName, RecordKey, |raws| - 1) == FirstNamed(raws, |raws| - 1)
  {
    FirstOfRecords(MakeRecords(raws, fill), raws, |raws| - 1);
  }

  /** The numbers of a record: a parsed value is kept (a rating count truncated to an integer),
      an unparsable rating is 3.5, an unparsable count 0, and an unparsable cost the fill value
      (the median of the costs that parse, see `MedianCost`). */
  lemma {:induction false} LoadedNumbers(raw: RawRecord, fill: Option<real>)
    ensures var r := MakeRecord(raw, fill);
      && (NumericClean(raw.rating) == None ==> r.rating == DefaultRating)
      && (NumericClean(raw.rating) != None ==> r.rating == NumericClean(raw.rating).value)
      && (NumericClean(raw.ratingCount) == None ==> r.ratingCount == 0)
      && (NumericClean(raw.ratingCount) != None ==>
            r.ratingCount as real <= NumericClean(raw.ratingCount).value < r.ratingCount as real + 1.0)
      && (NumericClean(raw.cost) != None ==> r.cost == NumericClean(raw.cost))
      && (NumericClean(raw.cost) == None ==> r.cost == fill)
  {
  }

  /** The fill value for costs exists exactly when some cost parses. */
  lemma {:induction false} MedianCostExists(raws: seq<RawRecord>)
    ensures MedianCost(raws).Some? <==> exists j :: 0 <= j < |raws| && NumericClean(raws[j].cost).Some?
  {
    var cells := CostCells(raws);
    if exists j :: 0 <= j < |raws| && NumericClean(raws[j].cost).Some? {
      var j :| 0 <= j < |raws| && NumericClean(raws[j].cost).Some?;
      assert cells[j].Some?;
    } else {
      assert forall j :: 0 <= j < |cells| ==> cells[j].None?;
    }
  }

  /** A cost that is present somewhere in the cost column comes from a row whose cost parses. */
  lemma {:induction false} PresentCost(raws: seq<RawRecord>, v: real)
    requires v in Present(CostCells(raws))
    ensures exists j :: 0 <= j < |raws| && NumericClean(raws[j].cost) == Some(v)
  {
    var cells := CostCells(raws);
    var j :| 0 <= j < |cells| && cells[j] == Some(v);
  }

  /** The fill value is no smaller than some cost that parses and no larger than some cost
      that parses. */
  lemma {:induction false} MedianCostBounds(raws: seq<RawRecord>)
    requires MedianCost(raws).Some?
    ensures exists j :: 0 <= j < |raws| && NumericClean(raws[j].cost).Some? && NumericClean(raws[j].cost).value <= MedianCost(raws).value
    ensures exists j :: 0 <= j < |raws| && NumericClean(raws[j].cost).Some? && MedianCost(raws).value <= NumericClean(raws[j].cost).value
  {
    var costs := Present(CostCells(raws));
    MedianWithinValues(costs);
    var m := Median(costs).value;
    assert m == MedianCost(raws).value;
    var i :| 0 <= i < |costs| && costs[i] <= m;
    var i' :| 0 <= i' < |costs| && m <= costs[i'];
    PresentCost(raws, costs[i]);
    PresentCost(raws, costs[i']);
    var j :| 0 <= j < |raws| && NumericClean(raws[j].cost) == Some(costs[i]);
    var j' :| 0 <= j' < |raws| && NumericClean(raws[j'].cost) == Some(costs[i']);
    assert NumericClean(raws[j].cost).Some? && NumericClean(raws[j].cost).value <= m;
    assert NumericClean(raws[j'].cost).Some? && m <= NumericClean(raws[j'].cost).value;
  }

  /** At least half the rows whose cost parses have a cost at most the fill value, and at least
      half have one at least the fill value. */
  lemma {:induction false} MedianCostHalves(raws: seq<RawRecord>)
    requires MedianCost(raws).Some?
    ensures var m, cells := MedianCost(raws).value, CostCells(raws);
      && 2 * |Filter(cells, CellWhere(AtMost(m)))| >= |Present(cells)|
      && 2 * |Filter(cells, CellWhere(AtLeast(m)))| >= |Present(cells)|
  {
    var cells := CostCells(raws);
    var costs := Present(cells);
    var m := MedianCost(raws).value;
    assert Median(costs).value == m;
    MedianHalfBelow(costs);
    MedianHalfAbove(costs);
    PresentFilter(cells, AtMost(m));
    PresentFilter(cells, AtLeast(m));
  }

  /** The fill value, when there is one, is not negative. */
  lemma MedianCostNonNegative(raws: seq<RawRecord>)
    requires MedianCost(raws).Some?
    ensures MedianCost(raws).value >= 0.0
  {
    MedianCostBounds(raws);
    var k :| 0 <= k < |raws| && NumericClean(raws[k].cost).Some? && NumericClean(raws[k].cost).value <= MedianCost(raws).value;
  }

  /** The row a loaded record comes from. */
  lemma {:induction false} SourceRow(raws: seq<RawRecord>, x: Record) returns (j: nat)
    requires x in Normalize(raws)
    ensures j < |raws| && FirstNamed(raws, j) && x == MakeRecord(raws[j], MedianCost(raws))
  {
    NormalizeKeepsFirst(raws);
    j :| 0 <= j < |raws| && FirstNamed(raws, j) && x == MakeRecord(raws[j], MedianCost(raws));
  }

  /** When some row's cost parses, every loaded record has a cost, and it is not negative. */
  lemma {:induction false} CostsPresent(raws: seq<RawRecord>)
    requires exists j :: 0 <= j < |raws| && NumericClean(raws[j].cost).Some?
    ensures forall x :: x in Normalize(raws) ==> x.cost.Some? && x.cost.value >= 0.0
  {
    MedianCostExists(raws);
    var fill := MedianCost(raws);
    MedianCostNonNegative(raws);
    forall x | x in Normalize(raws) ensures x.cost.Some? && x.cost.value >= 0.0 {
      var j := SourceRow(raws, x);
      RecordCost(raws[j], fill);
    }
  }

  /** When no row's cost parses, the median is NaN and no loaded record has a cost. */
  lemma {:induction false} CostsAllMissing(raws: seq<RawRecord>)
    requires forall j :: 0 <= j < |raws| ==> NumericClean(raws[j].cost).None?
    ensures forall x :: x in Normalize(raws) ==> x.cost.None?
  {
    MedianCostExists(raws);
    forall x | x in Normalize(raws) ensures x.cost.None? {
      var j := SourceRow(raws, x);
      RecordCost(raws[j], MedianCost(raws));
    }
  }

  lemma {:induction false} RecordCost(raw: RawRecord, fill: Option<real>)
    ensures fill.Some? && fill.value >= 0.0 ==> MakeRecord(raw, fill).cost.Some? && MakeRecord(raw, fill).cost.value >= 0.0
    ensures fill.None? && NumericClean(raw.cost).None? ==> MakeRecord(raw, fill).cost.None?
  {
    LoadedNumbers(raw, fill);
  }

  /** The derived columns: `city_clean` is the city lower-cased with the whitespace at both ends
      removed, `cuisine_clean` is the cuisine lower-cased with no whitespace next to a comma
      and no other character changed. */
  lemma {:induction false} DerivedColumns(raw: RawRecord, fill: Option<real>)
    ensures var r := MakeRecord(raw, fill);
      && (forall i :: 0 <= i < |r.cityClean| ==> !IsUpper(r.cityClean[i]))
      && Trimmed(Lower(raw.city), r.cityClean)
      && r.cuisineClean == Join(CleanPieces(Split(Lower(raw.cuisine), ','), false), ',')
      && NoSpaceAroundComma(r.cuisineClean)
      && (forall i :: 0 <= i < |r.cuisineClean| ==> !IsUpper(r.cuisineClean[i]))
      && WithoutSpaces(r.cuisineClean) == WithoutSpaces(Lower(raw.cuisine))
  {
    var r := MakeRecord(raw, fill);
    var low := Lower(raw.cuisine);
    CollapseChars(low);
    assert r.cuisineClean == CollapseCommaSpace(low);
    forall i | 0 <= i < |r.cuisineClean| ensures !IsUpper(r.cuisineClean[i]) {
      var c := r.cuisineClean[i];
      assert c in CollapseCommaSpace(low);
      if c != ',' {
        var k :| 0 <= k < |low| && low[k] == c;
      }
    }
  }
}
