/** `process_data`: the transform from the exported transaction table to
    the five-column expense table. Its steps are pandas operations on whole
    columns: assign the converted date, direction and category columns,
    rename five columns, drop two, and reindex onto a fixed column order.

    ProcessData follows those steps. ExpectedRow and ExpectedError state,
    row by row and independently of the steps, what the result is; the
    lemmas at the end connect the two. */
module DataProcess {
  import opened Wrappers
  import opened Calendar
  import opened DateFormat
  import opened Timestamps
  import opened Frames

  const Start := "millisSinceEpochStart"
  const End := "millisSinceEpochEnd"

  /** Category codes and their display names. */
  const Categories: map<string, string> := map[
    "alcohol" := "Alcool",
    "exceptional" := "Exceptionnelle",
    "grocery" := "Course",
    "health" := "Santé",
    "leisure" := "Plaisir",
    "regular" := "Régulier",
    "restaurant" := "Restaurant",
    "trip" := "Voyage"]

  /** Transaction directions and their signs. */
  const Directions: map<string, int> := map["expense" := -1, "income" := 1]

  const Renames: map<string, string> := map[
    Start := "Date",
    "type" := "Revenu/Dépense",
    "category" := "Type",
    "label" := "Intitulé",
    "value" := "Montant"]

  const Dropped: seq<string> := ["id", End]

  const Order: seq<string> := ["Date", "Intitulé", "Montant", "Type", "Revenu/Dépense"]

  /** The label each output column is renamed from. */
  const Sources: seq<string> := [Start, "label", "value", "category", "type"]

  /** The two lookup tables as pandas maps them: onto cells. */
  const CategoryTable: map<string, Cell> := map k | k in Categories :: Text(Categories[k])
  const DirectionTable: map<string, Cell> := map k | k in Directions :: Int(Directions[k])

  // ---------------------------------------------------------------------
  // The date conversion of one cell

  /** The NaT encoding, as an integer or as a float. */
  predicate IsNaT(c: Cell) {
    c == Int(NaTMillis) || c == Float(NaTMillis as real)
  }

  /** What `to_datetime(unit='ms')` then `strftime('%m/%d/%Y')` make of a
      cell: a missing value stays missing, and so does the NaT encoding,
      as an integer or as a float; a number in range becomes the text of
      its UTC date; any other number, and a text, fails. */
  function DateCell(c: Cell): (r: Result<Cell, Error>)
    ensures r == Ok(Missing) <==> c == Missing || IsNaT(c)
    ensures r.Ok? <==>
      || c == Missing || IsNaT(c)
      || (c.Int? && MillisInRange(c.i)) || (c.Float? && RealMillisInRange(c.x))
    ensures r.Err? ==> r.error == (if c.Text? then NotATimestamp(c) else TimestampOutOfBounds(c))
    ensures r.Ok? ==> r.value == Missing || r.value.Text?
  {
    match c
    case Missing => Ok(Missing)
    case Int(ms) =>
      if IsNaT(c) then Ok(Missing)
      else if MillisInRange(ms) then Ok(Text(FormatMillis(ms)))
      else Err(TimestampOutOfBounds(c))
    case Float(x) =>
      if IsNaT(c) then Ok(Missing)
      else if RealMillisInRange(x) then Ok(Text(FormatRealMillis(x)))
      else Err(TimestampOutOfBounds(c))
    case Text(_) => Err(NotATimestamp(c))
  }

  /** A converted timestamp names the UTC day that contains the instant. */
  lemma DateCellInstant(c: Cell)
    requires DateCell(c).Ok? && DateCell(c) != Ok(Missing)
    ensures c.Int? ==> InstantOn(c.i as real, DateCell(c).value.s)
    ensures c.Float? ==> InstantOn(c.x, DateCell(c).value.s)
  {
    if c.Int? {
      var s := FormatMillis(c.i);
      var z := DaysFromCivil(ParseDate(s).value);
      assert (z * MillisPerDay) as real <= c.i as real;
      assert c.i as real < ((z + 1) * MillisPerDay) as real;
    } else if c.Float? {
      var s := FormatRealMillis(c.x);
      var z := DaysFromCivil(ParseDate(s).value);
      assert (z * MillisPerDay) as real == z as real * MillisPerDay as real;
      assert ((z + 1) * MillisPerDay) as real == (z + 1) as real * MillisPerDay as real;
    }
  }

  /** `s` is the `MM/DD/YYYY` text of a valid date, and the instant `ms`
      (milliseconds since the epoch) falls on that UTC day. */
  predicate InstantOn(ms: real, s: string) {
    && ParseDate(s).Some? && ValidDate(ParseDate(s).value)
    && (DaysFromCivil(ParseDate(s).value) * MillisPerDay) as real <= ms
    && ms < ((DaysFromCivil(ParseDate(s).value) + 1) * MillisPerDay) as real
  }

  /** Cell i of a column is the first whose conversion fails, with error e. */
  predicate FirstFailure(cells: seq<Cell>, i: int, e: Error) {
    && 0 <= i < |cells| && DateCell(cells[i]) == Err(e)
    && forall j :: 0 <= j < i ==> DateCell(cells[j]).Ok?
  }

  /** The date conversion of a whole column; it fails at the first cell
      that cannot be converted. */
  function DateCells(cells: seq<Cell>): (r: Result<seq<Cell>, Error>)
    ensures r.Ok? <==> forall i :: 0 <= i < |cells| ==> DateCell(cells[i]).Ok?
    ensures r.Ok? ==> |r.value| == |cells|
    ensures r.Ok? ==> forall i :: 0 <= i < |cells| ==> r.value[i] == DateCell(cells[i]).value
    ensures r.Err? ==> exists i :: FirstFailure(cells, i, r.error)
  {
    if cells == [] then Ok([])
    else if DateCell(cells[0]).Err? then
      assert FirstFailure(cells, 0, DateCell(cells[0]).error);
      Err(DateCell(cells[0]).error)
    else
      var head := DateCell(cells[0]).value;
      var tail := DateCells(cells[1..]);
      if tail.Err? then
        var i :| FirstFailure(cells[1..], i, tail.error);
        assert DateCell(cells[i + 1]) == Err(tail.error);
        assert forall j :: 0 <= j < i + 1 ==> DateCell(cells[j]).Ok? by {
          forall j | 0 < j < i + 1 ensures DateCell(cells[j]).Ok? {
            assert cells[j] == cells[1..][j - 1];
          }
        }
        assert FirstFailure(cells, i + 1, tail.error);
        Err(tail.error)
      else
        var r := [head] + tail.value;
        assert forall i :: 0 < i < |cells| ==> cells[i] == cells[1..][i - 1] && r[i] == tail.value[i - 1];
        Ok(r)
  }

  // ---------------------------------------------------------------------
  // The chain

  /** The column `assign` leaves in place of c: the converted dates, the
      direction signs or the category names; any other column as it was. */
  function Reassigned(c: Column): (r: Column)
    requires c.name == Start ==> DateCells(c.cells).Ok?
    ensures r.name == c.name && |r.cells| == |c.cells|
  {
    if c.name == Start then Column(Start, DateCells(c.cells).value)
    else if c.name == "type" then Column("type", MapCells(c.cells, DirectionTable))
    else if c.name == "category" then Column("category", MapCells(c.cells, CategoryTable))
    else c
  }

  /** m is f with every column reassigned: same rows, same column order. */
  predicate AssignedFrom(f: Frame, m: Frame) {
    && m.height == f.height && |m.columns| == |f.columns|
    && forall j :: 0 <= j < |f.columns| ==>
      (f.columns[j].name == Start ==> DateCells(f.columns[j].cells).Ok?) &&
      m.columns[j] == Reassigned(f.columns[j])
  }

  /** `.assign(millisSinceEpochStart=..., type=..., category=...)`: the three
      columns are read (a KeyError if absent) and replaced in place, in
      that order; every other column is kept as it is. */
  function Assign(f: Frame): (r: Result<Frame, Error>)
    requires WellFormed(f)
    ensures r.Err? <==> match Lookup(f.columns, Start)
      case None => true
      case Some(c) => DateCells(c.cells).Err? || "type" !in Labels(f) || "category" !in Labels(f)
    ensures r.Err? ==> r.error == ExpectedError(f)
    ensures r.Ok? ==> WellFormed(r.value) && Labels(r.value) == Labels(f) && AssignedFrom(f, r.value)
  {
    var start :- Select(f, Start);
    var dates :- DateCells(start.cells);
    var f1 := SetColumn(f, Start, dates);
    SelectAfterSet(f, Start, dates, "type");
    var direction :- Select(f1, "type");
    var f2 := SetColumn(f1, "type", MapCells(direction.cells, DirectionTable));
    SelectAfterSet(f1, "type", MapCells(direction.cells, DirectionTable), "category");
    SelectAfterSet(f, Start, dates, "category");
    var category :- Select(f2, "category");
    var f3 := SetColumn(f2, "category", MapCells(category.cells, CategoryTable));
    SelectedColumns(f, start, direction, category);
    Ok(f3)
  }

  /** `.assign(...).rename(...).drop(...).reindex(...)` on a table read from CSV. */
  function ProcessData(f: Frame): (r: Result<Frame, Error>)
    requires WellFormed(f)
    ensures r.Ok? ==> r.value.height == f.height && Labels(r.value) == Order
  {
    var mapped :- Assign(f);
    var dropped :- Drop(Rename(mapped, Renames), Dropped);
    OrderDistinct();
    Reindex(dropped, Order)
  }

  // ---------------------------------------------------------------------
  // The reference: what each output row holds, and which error is raised

  /** The sign of a direction code; Missing for anything else. */
  function DirectionOf(c: Cell): Cell {
    if c == Text("expense") then Int(-1)
    else if c == Text("income") then Int(1)
    else Missing
  }

  /** The display name of a category code; Missing for anything else. */
  function CategoryOf(c: Cell): Cell {
    if c.Text? && c.s in Categories then Text(Categories[c.s]) else Missing
  }

  /** An output column renamed from `source` holds that column; when the
      input has no `source` but already has a column called `target`, that
      column is carried through under its own name; otherwise Missing. */
  function Carried(f: Frame, source: string, target: string, i: nat): Cell
    requires Rectangular(f) && i < f.height
  {
    if source in Labels(f) then CellOf(f, source, i) else CellOf(f, target, i)
  }

  /** Two columns would end up under one output name: a renamed column and
      an input column that already has the new name. */
  predicate RenameClash(ls: seq<string>) {
    exists k :: k in Renames && k in ls && Renames[k] in ls
  }

  /** Every timestamp in the start column converts. */
  predicate TimestampsConvert(f: Frame)
    requires Rectangular(f)
  {
    forall i :: 0 <= i < f.height ==> DateCell(CellOf(f, Start, i)).Ok?
  }

  /** The inputs the transform turns into a table rather than an exception. */
  predicate Accepted(f: Frame)
    requires Rectangular(f)
  {
    && Start in Labels(f) && TimestampsConvert(f)
    && "type" in Labels(f) && "category" in Labels(f)
    && "id" in Labels(f) && End in Labels(f)
    && !RenameClash(Labels(f))
  }

  /** Output row i: the date of the start timestamp, the label, the value,
      the category's display name and the direction's sign. */
  function ExpectedRow(f: Frame, i: nat): seq<Cell>
    requires Rectangular(f) && i < f.height && TimestampsConvert(f)
  {
    [ DateCell(CellOf(f, Start, i)).value,
      Carried(f, "label", "Intitulé", i),
      Carried(f, "value", "Montant", i),
      CategoryOf(CellOf(f, "category", i)),
      DirectionOf(CellOf(f, "type", i)) ]
  }

  /** The exception raised for an input that is not accepted, first failure
      first: the start column missing, then its first bad timestamp, then
      the type and category columns missing, then the dropped columns
      missing, then two columns under one output name. The KeyError of the
      drop lists the missing dropped labels, except when two columns already
      share an output name: that axis has a repeated label, and pandas then
      lists every dropped label. */
  function ExpectedError(f: Frame): Error
    requires Rectangular(f)
  {
    match Lookup(f.columns, Start)
    case None => KeyError([Start])
    case Some(c) =>
      if DateCells(c.cells).Err? then DateCells(c.cells).error
      else if "type" !in Labels(f) then KeyError(["type"])
      else if "category" !in Labels(f) then KeyError(["category"])
      else if "id" !in Labels(f) || End !in Labels(f) then
        KeyError(if RenameClash(Labels(f)) then Dropped else NotFound(Dropped, Labels(f)))
      else DuplicateLabels
  }

  // ---------------------------------------------------------------------
  // Lemmas

  /** In a frame without repeated labels, the selected columns are the
      only ones with their labels. */
  lemma SelectedColumns(f: Frame, start: Column, direction: Column, category: Column)
    requires WellFormed(f)
    requires Select(f, Start) == Ok(start)
    requires Select(f, "type") == Ok(direction)
    requires Select(f, "category") == Ok(category)
    ensures forall j :: 0 <= j < |f.columns| && f.columns[j].name == Start ==> f.columns[j] == start
    ensures forall j :: 0 <= j < |f.columns| && f.columns[j].name == "type" ==> f.columns[j] == direction
    ensures forall j :: 0 <= j < |f.columns| && f.columns[j].name == "category" ==> f.columns[j] == category
  {
    forall c | c in f.columns ensures Lookup(f.columns, c.name) == Some(c) {
      LookupFinds(f.columns, c);
    }
  }

  /** The timestamps convert exactly when the start column's conversion succeeds. */
  lemma TimestampsConvertColumn(f: Frame)
    requires Rectangular(f) && Start in Labels(f)
    ensures TimestampsConvert(f) <==> DateCells(Lookup(f.columns, Start).value.cells).Ok?
  {
    var c := Lookup(f.columns, Start).value;
    assert |c.cells| == f.height;
    forall i | 0 <= i < f.height ensures CellOf(f, Start, i) == c.cells[i] { }
  }

  /** After `assign`, the start column holds the converted dates, `type` and
      `category` their mapped values, and every other label what it held. */
  lemma AssignedCell(f: Frame, m: Frame, name: string, i: nat)
    requires WellFormed(f) && WellFormed(m) && Labels(m) == Labels(f) && AssignedFrom(f, m)
    requires i < f.height
    ensures name == Start ==> CellOf(m, name, i) == DateCell(CellOf(f, name, i)).value
    ensures name == "type" ==> CellOf(m, name, i) == DirectionOf(CellOf(f, name, i))
    ensures name == "category" ==> CellOf(m, name, i) == CategoryOf(CellOf(f, name, i))
    ensures name != Start && name != "type" && name != "category" ==> CellOf(m, name, i) == CellOf(f, name, i)
  {
    if name in Labels(f) {
      var j :| 0 <= j < |Labels(f)| && Labels(f)[j] == name;
      var c := f.columns[j];
      LookupFinds(f.columns, c);
      assert m.columns[j] == Reassigned(c);
      LookupFinds(m.columns, m.columns[j]);
      if name == Start {
        assert |c.cells| == f.height;
      } else if name == "type" {
        DirectionMapping(c.cells[i]);
      } else if name == "category" {
        CategoryMapping(c.cells[i]);
      }
    }
  }

  /** `Series.map` with the category table is the category's display name. */
  lemma CategoryMapping(c: Cell)
    ensures MapCell(c, CategoryTable) == CategoryOf(c)
  {
    if c.Text? && c.s in Categories {
      assert c.s in CategoryTable;
    }
  }

  /** `Series.map` with the direction table is the direction sign. */
  lemma DirectionMapping(c: Cell)
    ensures MapCell(c, DirectionTable) == DirectionOf(c)
  {
    assert "expense" in Directions && "income" in Directions;
  }

  /** None of the renamed or dropped labels is a new name, the new names are
      distinct, and Sources lists the label each output column is renamed from. */
  lemma RenamesShape()
    ensures forall k :: k in Renames ==> Renames[k] !in Renames && Renames[k] !in Dropped && k !in Dropped
    ensures forall k1, k2 :: k1 in Renames && k2 in Renames && k1 != k2 ==> Renames[k1] != Renames[k2]
    ensures |Sources| == |Order|
    ensures forall t :: 0 <= t < |Order| ==> Sources[t] in Renames && Renames[Sources[t]] == Order[t]
    ensures forall t :: 0 <= t < |Order| ==> Order[t] !in Dropped && Order[t] !in Renames
    ensures forall n :: n in Dropped ==> n !in Order
  {
  }

  /** The output labels start with five different letters, so none repeats. */
  lemma OrderDistinct()
    ensures Distinct(Order)
  {
    assert Order[0][0] == 'D' && Order[1][0] == 'I' && Order[2][0] == 'M';
    assert Order[3][0] == 'T' && Order[4][0] == 'R';
  }

  /** The dropped labels are untouched by the rename. */
  lemma RenameKeepsDropped(m: Frame, n: string)
    requires n in Dropped
    ensures n in Labels(Rename(m, Renames)) <==> n in Labels(m)
  {
    var g := Rename(m, Renames);
    if n in Labels(m) {
      var j :| 0 <= j < |Labels(m)| && Labels(m)[j] == n;
      assert Labels(g)[j] == n;
    }
    if n in Labels(g) {
      var j :| 0 <= j < |Labels(g)| && Labels(g)[j] == n;
      assert Labels(m)[j] == n;
    }
  }

  /** After the rename, the columns that survive the drop carry distinct
      labels exactly when no renamed column meets a column already under its
      new name. */
  lemma RenamedKeptDistinct(m: Frame)
    requires Distinct(Labels(m))
    ensures KeptDistinct(Rename(m, Renames).columns, set n | n in Dropped) <==> !RenameClash(Labels(m))
  {
    if RenameClash(Labels(m)) {
      ClashRepeatsKept(m);
    } else {
      NoClashKeptDistinct(m);
    }
  }

  /** A rename clash puts two kept columns under one output name. */
  lemma ClashRepeatsKept(m: Frame)
    requires RenameClash(Labels(m))
    ensures !KeptDistinct(Rename(m, Renames).columns, set n | n in Dropped)
  {
    var g := Rename(m, Renames);
    var names := set n | n in Dropped;
    var k :| k in Renames && k in Labels(m) && Renames[k] in Labels(m);
    var a :| 0 <= a < |Labels(m)| && Labels(m)[a] == k;
    var b :| 0 <= b < |Labels(m)| && Labels(m)[b] == Renames[k];
    RenameTarget(k);
    assert g.columns[a].name == Renames[k] && g.columns[b].name == Renames[k];
    var i, j := if a < b then a else b, if a < b then b else a;
    assert i < j && g.columns[i].name == g.columns[j].name;
  }

  /** A new name is neither renamed again nor dropped. */
  lemma RenameTarget(k: string)
    requires k in Renames
    ensures Renames[k] != k && Renames[k] !in Renames && Renames[k] !in set n | n in Dropped
  {
    RenamesShape();
  }

  /** Without a clash, distinct input labels stay distinct among the kept columns. */
  lemma NoClashKeptDistinct(m: Frame)
    requires Distinct(Labels(m)) && !RenameClash(Labels(m))
    ensures KeptDistinct(Rename(m, Renames).columns, set n | n in Dropped)
  {
    var g := Rename(m, Renames);
    var names := set n | n in Dropped;
    RenamesShape();
    forall i, j | 0 <= i < j < |g.columns| && g.columns[i].name !in names && g.columns[j].name !in names
      ensures g.columns[i].name != g.columns[j].name
    {
      var li, lj := m.columns[i].name, m.columns[j].name;
      assert Labels(m)[i] == li && Labels(m)[j] == lj;
    }
  }

  /** The renamed frame repeats a label exactly when a renamed column meets
      a column already under its new name. */
  lemma RenamedDistinct(m: Frame)
    requires Distinct(Labels(m))
    ensures Distinct(Labels(Rename(m, Renames))) <==> !RenameClash(Labels(m))
  {
    var g := Rename(m, Renames);
    var names := set n | n in Dropped;
    RenamedKeptDistinct(m);
    if !RenameClash(Labels(m)) {
      RenamesShape();
      forall i, j | 0 <= i < j < |Labels(g)| ensures Labels(g)[i] != Labels(g)[j] {
        assert Labels(m)[i] == m.columns[i].name && Labels(m)[j] == m.columns[j].name;
      }
    }
  }

  /** After the rename and the drop, output label Order[t] carries the column
      that had its source label, or else a column that already had the
      output label, or else nothing. */
  lemma RenamedDroppedCell(m: Frame, t: nat, i: nat)
    requires WellFormed(m) && t < |Order| && i < m.height
    requires Drop(Rename(m, Renames), Dropped).Ok?
    requires Distinct(Labels(Drop(Rename(m, Renames), Dropped).value))
    ensures Rectangular(Drop(Rename(m, Renames), Dropped).value)
    ensures CellOf(Drop(Rename(m, Renames), Dropped).value, Order[t], i) ==
      if Sources[t] in Labels(m) then CellOf(m, Sources[t], i) else CellOf(m, Order[t], i)
  {
    var g := Rename(m, Renames);
    var d := Drop(g, Dropped).value;
    DropKeepsRectangular(g, Dropped);
    RenamesShape();
    var out := Order[t];
    if Sources[t] in Labels(m) || out in Labels(m) {
      var src := if Sources[t] in Labels(m) then Sources[t] else out;
      var j :| 0 <= j < |Labels(m)| && Labels(m)[j] == src;
      LookupFinds(m.columns, m.columns[j]);
      assert g.columns[j] == Column(out, m.columns[j].cells);
      assert g.columns[j] in d.columns;
      LookupFinds(d.columns, g.columns[j]);
    }
  }

  // ---------------------------------------------------------------------
  // The transform against the reference

  /** The transform fails exactly on the inputs that are not accepted, and
      then with the first exception the chain meets. */
  lemma ProcessDataErrors(f: Frame)
    requires WellFormed(f)
    ensures ProcessData(f).Err? <==> !Accepted(f)
    ensures ProcessData(f).Err? ==> ProcessData(f).error == ExpectedError(f)
  {
    if Start in Labels(f) {
      TimestampsConvertColumn(f);
    }
    if Assign(f).Ok? {
      RenameDropErrors(f, Assign(f).value);
    }
  }

  /** After the assignment, the drop fails exactly when a dropped label is
      missing, and the columns left repeat a label exactly when two columns
      share an output name. */
  lemma RenameDropErrors(f: Frame, m: Frame)
    requires Distinct(Labels(m)) && Labels(m) == Labels(f)
    ensures Drop(Rename(m, Renames), Dropped).Err? <==> "id" !in Labels(f) || End !in Labels(f)
    ensures Drop(Rename(m, Renames), Dropped).Err? ==>
      Drop(Rename(m, Renames), Dropped).error ==
        KeyError(if RenameClash(Labels(f)) then Dropped else NotFound(Dropped, Labels(f)))
    ensures Drop(Rename(m, Renames), Dropped).Ok? ==>
      (Distinct(Labels(Drop(Rename(m, Renames), Dropped).value)) <==> !RenameClash(Labels(f)))
  {
    var g := Rename(m, Renames);
    RenameKeepsDropped(m, "id");
    RenameKeepsDropped(m, End);
    NotFoundAgrees(Dropped, Labels(g), Labels(f));
    RenamedDistinct(m);
    if Drop(g, Dropped).Ok? {
      WithoutDistinct(g.columns, set n | n in Dropped);
      RenamedKeptDistinct(m);
    }
  }

  /** An accepted input gives a table with the input's row count, the five
      output columns in their fixed order, and one cell per row in each. */
  lemma ProcessDataShape(f: Frame)
    requires WellFormed(f) && Accepted(f)
    ensures ProcessData(f).Ok?
    ensures ProcessData(f).value.height == f.height
    ensures Labels(ProcessData(f).value) == Order
    ensures Rectangular(ProcessData(f).value)
  {
    ProcessDataErrors(f);
    var m := Assign(f).value;
    DropKeepsRectangular(Rename(m, Renames), Dropped);
  }

  /** Cell i of output column t is entry t of the expected row. */
  lemma OutputCell(f: Frame, t: nat, i: nat)
    requires WellFormed(f) && Accepted(f) && t < |Order| && i < f.height
    ensures ProcessData(f).Ok? && Rectangular(ProcessData(f).value)
    ensures |ProcessData(f).value.columns| == |Order|
    ensures ProcessData(f).value.columns[t].cells[i] == ExpectedRow(f, i)[t]
  {
    ProcessDataShape(f);
    var m := Assign(f).value;
    var d := Drop(Rename(m, Renames), Dropped).value;
    RenamedDroppedCell(m, t, i);
    OrderDistinct();
    ReindexCell(d, Order, t, i);
    ExpectedEntry(f, m, t, i);
  }

  /** Entry t of the expected row is what the assigned frame holds under the
      source label of output column t, or else under the output label. */
  lemma ExpectedEntry(f: Frame, m: Frame, t: nat, i: nat)
    requires WellFormed(f) && t < |Order| && i < f.height
    requires Start in Labels(f) && "type" in Labels(f) && "category" in Labels(f) && TimestampsConvert(f)
    requires WellFormed(m) && Labels(m) == Labels(f) && AssignedFrom(f, m)
    ensures ExpectedRow(f, i)[t] ==
      if Sources[t] in Labels(m) then CellOf(m, Sources[t], i) else CellOf(m, Order[t], i)
  {
    match t
    case 0 => DateEntry(f, m, i);
    case 1 => LabelEntry(f, m, i);
    case 2 => ValueEntry(f, m, i);
    case 3 => CategoryEntry(f, m, i);
    case 4 => DirectionEntry(f, m, i);
  }

  /** The date entry: the converted start timestamp. */
  lemma DateEntry(f: Frame, m: Frame, i: nat)
    requires WellFormed(f) && i < f.height
    requires Start in Labels(f) && "type" in Labels(f) && "category" in Labels(f) && TimestampsConvert(f)
    requires WellFormed(m) && Labels(m) == Labels(f) && AssignedFrom(f, m)
    ensures ExpectedRow(f, i)[0] ==
      if Sources[0] in Labels(m) then CellOf(m, Sources[0], i) else CellOf(m, Order[0], i)
  {
    AssignedCell(f, m, Start, i);
  }

  /** The label entry: the label, or a column already called `Intitulé`. */
  lemma LabelEntry(f: Frame, m: Frame, i: nat)
    requires WellFormed(f) && i < f.height
    requires Start in Labels(f) && "type" in Labels(f) && "category" in Labels(f) && TimestampsConvert(f)
    requires WellFormed(m) && Labels(m) == Labels(f) && AssignedFrom(f, m)
    ensures ExpectedRow(f, i)[1] ==
      if Sources[1] in Labels(m) then CellOf(m, Sources[1], i) else CellOf(m, Order[1], i)
  {
    AssignedCell(f, m, "label", i);
    AssignedCell(f, m, "Intitulé", i);
  }

  /** The value entry: the value, or a column already called `Montant`. */
  lemma ValueEntry(f: Frame, m: Frame, i: nat)
    requires WellFormed(f) && i < f.height
    requires Start in Labels(f) && "type" in Labels(f) && "category" in Labels(f) && TimestampsConvert(f)
    requires WellFormed(m) && Labels(m) == Labels(f) && AssignedFrom(f, m)
    ensures ExpectedRow(f, i)[2] ==
      if Sources[2] in Labels(m) then CellOf(m, Sources[2], i) else CellOf(m, Order[2], i)
  {
    AssignedCell(f, m, "value", i);
    AssignedCell(f, m, "Montant", i);
  }

  /** The category entry: the mapped category code. */
  lemma CategoryEntry(f: Frame, m: Frame, i: nat)
    requires WellFormed(f) && i < f.height
    requires Start in Labels(f) && "type" in Labels(f) && "category" in Labels(f) && TimestampsConvert(f)
    requires WellFormed(m) && Labels(m) == Labels(f) && AssignedFrom(f, m)
    ensures ExpectedRow(f, i)[3] ==
      if Sources[3] in Labels(m) then CellOf(m, Sources[3], i) else CellOf(m, Order[3], i)
  {
    AssignedCell(f, m, "category", i);
  }

  /** The direction entry: the mapped direction code. */
  lemma DirectionEntry(f: Frame, m: Frame, i: nat)
    requires WellFormed(f) && i < f.height
    requires Start in Labels(f) && "type" in Labels(f) && "category" in Labels(f) && TimestampsConvert(f)
    requires WellFormed(m) && Labels(m) == Labels(f) && AssignedFrom(f, m)
    ensures ExpectedRow(f, i)[4] ==
      if Sources[4] in Labels(m) then CellOf(m, Sources[4], i) else CellOf(m, Order[4], i)
  {
    AssignedCell(f, m, "type", i);
  }

  /** Row i of the output, for every row of an accepted input: the date of
      its start timestamp, its label, its value, its category's display
      name and its direction's sign, all taken from row i of the input. */
  lemma ProcessDataRows(f: Frame, i: nat)
    requires WellFormed(f) && Accepted(f) && i < f.height
    ensures ProcessData(f).Ok? && Rectangular(ProcessData(f).value)
    ensures Row(ProcessData(f).value, i) == ExpectedRow(f, i)
  {
    ProcessDataShape(f);
    forall t | 0 <= t < |Order| ensures ProcessData(f).value.columns[t].cells[i] == ExpectedRow(f, i)[t] {
      OutputCell(f, t, i);
    }
  }

  // ---------------------------------------------------------------------
  // Consequences

  /** Neither dropped column reaches the output. */
  lemma DroppedColumnsAbsent(f: Frame)
    requires WellFormed(f) && Accepted(f)
    ensures ProcessData(f).Ok?
    ensures "id" !in Labels(ProcessData(f).value) && End !in Labels(ProcessData(f).value)
  {
    ProcessDataShape(f);
    RenamesShape();
  }

  /** An unknown direction code leaves a missing sign; the row itself stays. */
  lemma UnknownDirection(f: Frame, i: nat)
    requires WellFormed(f) && Accepted(f) && i < f.height
    requires CellOf(f, "type", i) != Text("expense") && CellOf(f, "type", i) != Text("income")
    ensures ProcessData(f).Ok? && ProcessData(f).value.height == f.height
    ensures Rectangular(ProcessData(f).value) && Labels(ProcessData(f).value) == Order
    ensures Row(ProcessData(f).value, i)[4] == Missing
  {
    ProcessDataRows(f, i);
  }

  /** A missing start time, or one equal to the NaT encoding, leaves a
      missing date; the row itself stays. */
  lemma MissingTime(f: Frame, i: nat)
    requires WellFormed(f) && Accepted(f) && i < f.height
    requires CellOf(f, Start, i) == Missing || IsNaT(CellOf(f, Start, i))
    ensures ProcessData(f).Ok? && ProcessData(f).value.height == f.height
    ensures Rectangular(ProcessData(f).value) && Labels(ProcessData(f).value) == Order
    ensures Row(ProcessData(f).value, i)[0] == Missing
  {
    ProcessDataRows(f, i);
  }

  /** An unknown category code leaves a missing display name; the row itself stays. */
  lemma UnknownCategory(f: Frame, i: nat)
    requires WellFormed(f) && Accepted(f) && i < f.height
    requires !(CellOf(f, "category", i).Text? && CellOf(f, "category", i).s in Categories)
    ensures ProcessData(f).Ok? && ProcessData(f).value.height == f.height
    ensures Rectangular(ProcessData(f).value) && Labels(ProcessData(f).value) == Order
    ensures Row(ProcessData(f).value, i)[3] == Missing
  {
    ProcessDataRows(f, i);
  }

  /** The text of a converted timestamp: `MM/DD/YYYY` with a month in 1..12,
      a day within that month and a year between 1677 and 2262. */
  lemma DateText(c: Cell)
    requires DateCell(c).Ok? && DateCell(c) != Ok(Missing)
    ensures var s := DateCell(c).value.s;
      && |s| == 10 && s[2] == '/' && s[5] == '/'
      && AllDigits(s[..2]) && AllDigits(s[3..5]) && AllDigits(s[6..])
      && ParseDate(s).Some? && ValidDate(ParseDate(s).value)
      && 1677 <= ParseDate(s).value.year <= 2262
  {
    var z := if c.Int? then DayOfMillis(c.i) else DayOfRealMillis(c.x);
    if c.Int? {
      DaysOfInRangeMillis(c.i);
    } else {
      DaysOfInRangeRealMillis(c.x);
    }
    TimestampYears(z);
  }

  /** A missing start, type or category column is the KeyError of reading it. */
  lemma MissingSourceColumns(f: Frame)
    requires WellFormed(f)
    ensures Start !in Labels(f) ==> ProcessData(f) == Err(KeyError([Start]))
    ensures Start in Labels(f) && TimestampsConvert(f) && "type" !in Labels(f) ==>
      ProcessData(f) == Err(KeyError(["type"]))
    ensures Start in Labels(f) && TimestampsConvert(f) && "type" in Labels(f) && "category" !in Labels(f) ==>
      ProcessData(f) == Err(KeyError(["category"]))
  {
    ProcessDataErrors(f);
    if Start in Labels(f) {
      TimestampsConvertColumn(f);
    }
  }

  /** A missing dropped column is the KeyError of `drop`, listing each
      dropped label that is missing, in the order of the drop list; when
      two columns also share an output name, it lists both dropped labels. */
  lemma MissingDroppedColumns(f: Frame)
    requires WellFormed(f)
    requires Start in Labels(f) && TimestampsConvert(f) && "type" in Labels(f) && "category" in Labels(f)
    requires "id" !in Labels(f) || End !in Labels(f)
    ensures !RenameClash(Labels(f)) ==> ProcessData(f) == Err(KeyError(
      (if "id" in Labels(f) then [] else ["id"]) + (if End in Labels(f) then [] else [End])))
    ensures RenameClash(Labels(f)) ==> ProcessData(f) == Err(KeyError(["id", End]))
  {
    ProcessDataErrors(f);
    TimestampsConvertColumn(f);
    NotFoundPair("id", End, Labels(f));
  }

  /** A timestamp column with a value that does not convert fails with the
      error of the first such value. */
  lemma BadTimestamp(f: Frame)
    requires WellFormed(f) && Start in Labels(f) && !TimestampsConvert(f)
    ensures ProcessData(f).Err?
    ensures exists i :: FirstFailure(Lookup(f.columns, Start).value.cells, i, ProcessData(f).error)
  {
    ProcessDataErrors(f);
    TimestampsConvertColumn(f);
  }

  /** An input where both a renamed column and a column already under its
      new name are present (say `millisSinceEpochStart` and `Date`) fails
      in the reindex. */
  lemma ClashingNames(f: Frame)
    requires WellFormed(f)
    requires Start in Labels(f) && TimestampsConvert(f) && "type" in Labels(f) && "category" in Labels(f)
    requires "id" in Labels(f) && End in Labels(f) && RenameClash(Labels(f))
    ensures ProcessData(f) == Err(DuplicateLabels)
  {
    ProcessDataErrors(f);
    TimestampsConvertColumn(f);
  }

  // ---------------------------------------------------------------------
  // A worked example

  /** One exported transaction: a grocery expense of 3.50 on 1 January 2021. */
  const Example := Frame(1, [
    Column("id", [Int(1)]),
    Column(Start, [Int(1609459200000)]),
    Column(End, [Int(1609459300000)]),
    Column("type", [Text("expense")]),
    Column("category", [Text("grocery")]),
    Column("label", [Text("Milk")]),
    Column("value", [Float(3.5)])])

  /** It becomes the row `01/01/2021, Milk, 3.50, Course, -1`. */
  lemma ExampleRow()
    ensures WellFormed(Example) && ProcessData(Example).Ok?
    ensures Labels(ProcessData(Example).value) == Order
    ensures Rectangular(ProcessData(Example).value) && ProcessData(Example).value.height == 1
    ensures Row(ProcessData(Example).value, 0) ==
      [Text("01/01/2021"), Text("Milk"), Float(3.5), Text("Course"), Int(-1)]
  {
    ExampleWellFormed();
    ExampleAccepted();
    ProcessDataShape(Example);
    ProcessDataRows(Example, 0);
    ExampleExpectedRow();
  }

  lemma ExampleWellFormed()
    ensures WellFormed(Example)
    ensures Labels(Example) == ["id", Start, End, "type", "category", "label", "value"]
  {
  }

  /** The example's cells, looked up by label. */
  lemma ExampleCells()
    ensures WellFormed(Example)
    ensures CellOf(Example, Start, 0) == Int(1609459200000)
    ensures CellOf(Example, "type", 0) == Text("expense")
    ensures CellOf(Example, "category", 0) == Text("grocery")
    ensures CellOf(Example, "label", 0) == Text("Milk")
    ensures CellOf(Example, "value", 0) == Float(3.5)
  {
    ExampleWellFormed();
    var cs := Example.columns;
    LookupFinds(cs, cs[1]);
    LookupFinds(cs, cs[3]);
    LookupFinds(cs, cs[4]);
    LookupFinds(cs, cs[5]);
    LookupFinds(cs, cs[6]);
  }

  lemma ExampleAccepted()
    ensures WellFormed(Example) && Accepted(Example)
  {
    ExampleWellFormed();
    ExampleConverts();
    ExampleNoClash();
    var ls := Labels(Example);
    assert ls[0] == "id" && ls[1] == Start && ls[2] == End && ls[3] == "type" && ls[4] == "category";
  }

  lemma ExampleConverts()
    ensures Rectangular(Example) && TimestampsConvert(Example)
  {
    ExampleCells();
    ExampleDate();
    forall i | 0 <= i < Example.height ensures DateCell(CellOf(Example, Start, i)).Ok? {
      assert i == 0;
    }
  }

  lemma ExampleNoClash()
    ensures !RenameClash(Labels(Example))
  {
    ExampleWellFormed();
    var ls := Labels(Example);
    assert "Date" !in ls && "Revenu/Dépense" !in ls && "Type" !in ls && "Intitulé" !in ls && "Montant" !in ls;
  }

  lemma ExampleDate()
    ensures DateCell(Int(1609459200000)) == Ok(Text("01/01/2021"))
  {
    assert MillisInRange(1609459200000);
    NewYear2021();
  }

  lemma ExampleExpectedRow()
    ensures WellFormed(Example) && TimestampsConvert(Example)
    ensures ExpectedRow(Example, 0) == [Text("01/01/2021"), Text("Milk"), Float(3.5), Text("Course"), Int(-1)]
  {
    ExampleWellFormed();
    ExampleConverts();
    ExampleCells();
    ExampleDate();
    ExampleCategory();
    assert Labels(Example)[5] == "label" && Labels(Example)[6] == "value";
    ExpectedRowWithSources(Example, 0);
  }

  /** The expected row of an input that has the label and value columns. */
  lemma ExpectedRowWithSources(f: Frame, i: nat)
    requires Rectangular(f) && i < f.height && TimestampsConvert(f)
    requires "label" in Labels(f) && "value" in Labels(f)
    ensures ExpectedRow(f, i) == [DateCell(CellOf(f, Start, i)).value, CellOf(f, "label", i),
      CellOf(f, "value", i), CategoryOf(CellOf(f, "category", i)), DirectionOf(CellOf(f, "type", i))]
  {
  }

  lemma ExampleCategory()
    ensures CategoryOf(Text("grocery")) == Text("Course")
  {
    assert "grocery" in Categories;
  }
}
