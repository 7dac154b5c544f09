/** A column-major model of the pandas DataFrame operations the transform
    chains: column access `df[name]`, `assign` of an existing column,
    `Series.map` with a dictionary, `rename`, `drop` and `reindex` on the
    column axis. A frame is a row count and a sequence of labelled columns,
    each holding one cell per row. */
module Frames {
  import opened Wrappers

  /** A cell as read from the CSV file. Missing is pandas's NaN/NaT. A
      Float is carried as an opaque value: nothing computes on it except the
      timestamp conversion, which only takes its floor. */
  datatype Cell = Missing | Int(i: int) | Float(x: real) | Text(s: string)

  datatype Column = Column(name: string, cells: seq<Cell>)

  datatype Frame = Frame(height: nat, columns: seq<Column>)

  /** The exceptions of the chain: a KeyError naming the labels that were
      not found, the ValueError of a reindex on a duplicated axis, and the
      two ways a timestamp conversion fails. */
  datatype Error =
    | KeyError(labels: seq<string>)
    | DuplicateLabels
    | NotATimestamp(cell: Cell)
    | TimestampOutOfBounds(cell: Cell)

  function LabelsOf(cs: seq<Column>): (ls: seq<string>)
    ensures |ls| == |cs| && forall j :: 0 <= j < |cs| ==> ls[j] == cs[j].name
  {
    seq(|cs|, j requires 0 <= j < |cs| => cs[j].name)
  }

  function Labels(f: Frame): seq<string> {
    LabelsOf(f.columns)
  }

  predicate Distinct(ls: seq<string>) {
    forall i, j :: 0 <= i < j < |ls| ==> ls[i] != ls[j]
  }

  predicate Rectangular(f: Frame) {
    forall j :: 0 <= j < |f.columns| ==> |f.columns[j].cells| == f.height
  }

  /** What a CSV reader hands over: every column has one cell per row, and
      labels do not repeat (repeated headers get distinct names when read). */
  predicate WellFormed(f: Frame) {
    Rectangular(f) && Distinct(Labels(f))
  }

  /** Row i, read across the columns. */
  function Row(f: Frame, i: nat): (r: seq<Cell>)
    requires Rectangular(f) && i < f.height
    ensures |r| == |f.columns| && forall j :: 0 <= j < |r| ==> r[j] == f.columns[j].cells[i]
  {
    seq(|f.columns|, j requires 0 <= j < |f.columns| => f.columns[j].cells[i])
  }

  /** The first column with a label (LookupFirst), if any. */
  function Lookup(cs: seq<Column>, name: string): (r: Option<Column>)
    ensures r.None? <==> name !in LabelsOf(cs)
    ensures r.Some? ==> r.value in cs && r.value.name == name
  {
    if cs == [] then None
    else if cs[0].name == name then Some(cs[0])
    else
      assert LabelsOf(cs) == [cs[0].name] + LabelsOf(cs[1..]);
      Lookup(cs[1..], name)
  }

  /** The column found is the first one carrying the label. */
  lemma {:induction false} LookupFirst(cs: seq<Column>, name: string) returns (k: nat)
    requires name in LabelsOf(cs)
    ensures k < |cs| && Lookup(cs, name) == Some(cs[k])
    ensures forall j :: 0 <= j < k ==> cs[j].name != name
  {
    if cs[0].name == name {
      k := 0;
    } else {
      var i :| 0 <= i < |cs| && LabelsOf(cs)[i] == name;
      assert LabelsOf(cs[1..])[i - 1] == cs[i].name;
      var k' := LookupFirst(cs[1..], name);
      k := k' + 1;
      forall j | 0 <= j < k ensures cs[j].name != name {
        if j > 0 {
          assert cs[j] == cs[1..][j - 1];
        }
      }
    }
  }

  /** In a frame without repeated labels, the lookup of a column's label finds that column. */
  lemma LookupFinds(cs: seq<Column>, c: Column)
    requires Distinct(LabelsOf(cs)) && c in cs
    ensures Lookup(cs, c.name) == Some(c)
  {
    var j :| 0 <= j < |cs| && cs[j] == c;
    assert LabelsOf(cs)[j] == c.name;
    var k := LookupFirst(cs, c.name);
    assert LabelsOf(cs)[k] == c.name;
  }

  /** `df[name]`: the column, or a KeyError when no column has that label. */
  function Select(f: Frame, name: string): (r: Result<Column, Error>)
    ensures r.Err? <==> name !in Labels(f)
    ensures r.Err? ==> r.error == KeyError([name])
    ensures r.Ok? ==> r.value in f.columns && r.value.name == name
  {
    match Lookup(f.columns, name)
    case Some(c) => Ok(c)
    case None => Err(KeyError([name]))
  }

  /** `df.assign(name=cells)` where `name` is already a column: that column's
      cells are replaced in place, every other column and the order stay. */
  function SetColumn(f: Frame, name: string, cells: seq<Cell>): (g: Frame)
    requires |cells| == f.height
    ensures g.height == f.height && |g.columns| == |f.columns| && Labels(g) == Labels(f)
    ensures forall j :: 0 <= j < |f.columns| ==>
      g.columns[j] == if f.columns[j].name == name then Column(name, cells) else f.columns[j]
    ensures Rectangular(f) ==> Rectangular(g)
  {
    var cs := seq(|f.columns|, j requires 0 <= j < |f.columns| =>
      if f.columns[j].name == name then Column(name, cells) else f.columns[j]);
    Frame(f.height, cs)
  }

  /** Lookup depends only on the labels and on the columns carrying the
      label looked up. */
  lemma {:induction false} LookupAgrees(cs: seq<Column>, ds: seq<Column>, name: string)
    requires LabelsOf(cs) == LabelsOf(ds)
    requires forall j :: 0 <= j < |cs| && cs[j].name == name ==> ds[j] == cs[j]
    ensures Lookup(ds, name) == Lookup(cs, name)
  {
    if cs != [] {
      assert |ds| == |cs| && ds[0].name == cs[0].name;
      assert LabelsOf(cs[1..]) == LabelsOf(cs)[1..] && LabelsOf(ds[1..]) == LabelsOf(ds)[1..];
      forall j | 0 <= j < |cs[1..]| && cs[1..][j].name == name ensures ds[1..][j] == cs[1..][j] {
        assert cs[1..][j] == cs[j + 1] && ds[1..][j] == ds[j + 1];
      }
      LookupAgrees(cs[1..], ds[1..], name);
    }
  }

  /** Replacing one column leaves the lookup of any other label as it was. */
  lemma SelectAfterSet(f: Frame, name: string, cells: seq<Cell>, other: string)
    requires |cells| == f.height && other != name
    ensures Select(SetColumn(f, name, cells), other) == Select(f, other)
  {
    LookupAgrees(f.columns, SetColumn(f, name, cells).columns, other);
  }

  /** The cell of row i under a label; Missing when no column has it. */
  function CellOf(f: Frame, name: string, i: nat): Cell
    requires Rectangular(f) && i < f.height
  {
    match Lookup(f.columns, name)
    case Some(c) => c.cells[i]
    case None => Missing
  }

  /** `Series.map(table)`: a text cell found in the table becomes its image,
      every other cell (unknown text, a number, a missing value) becomes Missing. */
  function MapCell(c: Cell, table: map<string, Cell>): (r: Cell)
    ensures c.Text? && c.s in table ==> r == table[c.s]
    ensures !(c.Text? && c.s in table) ==> r == Missing
    ensures r != Missing ==> c.Text? && c.s in table
  {
    if c.Text? && c.s in table then table[c.s] else Missing
  }

  function MapCells(cells: seq<Cell>, table: map<string, Cell>): (r: seq<Cell>)
    ensures |r| == |cells| && forall i :: 0 <= i < |cells| ==> r[i] == MapCell(cells[i], table)
  {
    seq(|cells|, i requires 0 <= i < |cells| => MapCell(cells[i], table))
  }

  function RenameLabel(l: string, m: map<string, string>): string {
    if l in m then m[l] else l
  }

  /** `df.rename(columns=m)`: labels in m are replaced by their image; cells
      and order stay, and a label absent from the frame is ignored. */
  function Rename(f: Frame, m: map<string, string>): (g: Frame)
    ensures g.height == f.height && |g.columns| == |f.columns|
    ensures forall j :: 0 <= j < |f.columns| ==>
      g.columns[j] == Column(RenameLabel(f.columns[j].name, m), f.columns[j].cells)
    ensures Rectangular(f) ==> Rectangular(g)
  {
    var cs := seq(|f.columns|, j requires 0 <= j < |f.columns| =>
      Column(RenameLabel(f.columns[j].name, m), f.columns[j].cells));
    Frame(f.height, cs)
  }

  /** The columns whose labels are not in `names`, in their order. */
  function Without(cs: seq<Column>, names: set<string>): seq<Column> {
    if cs == [] then []
    else (if cs[0].name in names then [] else [cs[0]]) + Without(cs[1..], names)
  }

  /** The kept columns are exactly those whose label is not dropped. */
  lemma {:induction false} WithoutMembers(cs: seq<Column>, names: set<string>)
    ensures forall c :: c in Without(cs, names) <==> c in cs && c.name !in names
  {
    if cs != [] {
      WithoutMembers(cs[1..], names);
      assert cs == [cs[0]] + cs[1..];
    }
  }

  /** The labels of `names` that no column carries, in the order given. */
  function NotFound(names: seq<string>, ls: seq<string>): (r: seq<string>)
    ensures forall n :: n in r <==> n in names && n !in ls
  {
    if names == [] then []
    else (if names[0] in ls then [] else [names[0]]) + NotFound(names[1..], ls)
  }

  /** NotFound depends only on which of the names the labels contain. */
  lemma {:induction false} NotFoundAgrees(names: seq<string>, ls: seq<string>, ms: seq<string>)
    requires forall n :: n in names ==> (n in ls <==> n in ms)
    ensures NotFound(names, ls) == NotFound(names, ms)
  {
    if names != [] {
      assert names[0] in names;
      NotFoundAgrees(names[1..], ls, ms);
    }
  }

  lemma NotFoundPair(a: string, b: string, ls: seq<string>)
    ensures NotFound([a, b], ls) == (if a in ls then [] else [a]) + (if b in ls then [] else [b])
  {
    assert [a, b][1..] == [b] && [b][1..] == [];
    assert NotFound([b], ls) == (if b in ls then [] else [b]) + NotFound([], ls);
    assert NotFound([a, b], ls) == (if a in ls then [] else [a]) + NotFound([b], ls);
  }

  /** `df.drop(columns=names)`: a KeyError when a label is not found,
      otherwise the frame without the columns carrying those labels. On an
      axis without repeats the KeyError lists the labels not found; on an
      axis with a repeated label pandas takes another path, whose KeyError
      lists every label asked for. */
  function Drop(f: Frame, names: seq<string>): (r: Result<Frame, Error>)
    ensures r.Err? <==> exists n :: n in names && n !in Labels(f)
    ensures r.Err? && Distinct(Labels(f)) ==> r.error == KeyError(NotFound(names, Labels(f)))
    ensures r.Err? && !Distinct(Labels(f)) ==> r.error == KeyError(names)
    ensures r.Ok? ==> r.value.height == f.height
    ensures r.Ok? ==> forall c :: c in r.value.columns <==> c in f.columns && c.name !in names
  {
    var missing := NotFound(names, Labels(f));
    if missing != [] then
      assert missing[0] in missing;
      Err(KeyError(if Distinct(Labels(f)) then missing else names))
    else
      assert forall n :: n in names ==> n in Labels(f);
      WithoutMembers(f.columns, set n | n in names);
      Ok(Frame(f.height, Without(f.columns, set n | n in names)))
  }

  /** Dropping columns keeps the rows of every remaining one. */
  lemma DropKeepsRectangular(f: Frame, names: seq<string>)
    requires Rectangular(f) && Drop(f, names).Ok?
    ensures Rectangular(Drop(f, names).value)
  {
    var g := Drop(f, names).value;
    forall j | 0 <= j < |g.columns| ensures |g.columns[j].cells| == f.height {
      assert g.columns[j] in f.columns;
    }
  }

  /** No two kept columns of the original share a label. */
  predicate KeptDistinct(cs: seq<Column>, names: set<string>) {
    forall i, j :: 0 <= i < j < |cs| && cs[i].name !in names && cs[j].name !in names ==>
      cs[i].name != cs[j].name
  }

  /** The kept columns carry distinct labels exactly when no two kept columns
      of the original share a label. */
  lemma WithoutDistinct(cs: seq<Column>, names: set<string>)
    ensures Distinct(LabelsOf(Without(cs, names))) <==> KeptDistinct(cs, names)
  {
    if KeptDistinct(cs, names) {
      WithoutDistinctIf(cs, names);
    } else {
      var i, j :| 0 <= i < j < |cs| && cs[i].name !in names && cs[j].name !in names && cs[i].name == cs[j].name;
      var a, b := WithoutDistinctOnlyIf(cs, names, i, j);
      assert LabelsOf(Without(cs, names))[a] == LabelsOf(Without(cs, names))[b];
    }
  }

  lemma {:induction false} WithoutDistinctIf(cs: seq<Column>, names: set<string>)
    requires KeptDistinct(cs, names)
    ensures Distinct(LabelsOf(Without(cs, names)))
  {
    if cs != [] {
      var rest := cs[1..];
      assert KeptDistinct(rest, names) by {
        forall i, j | 0 <= i < j < |rest| && rest[i].name !in names && rest[j].name !in names
          ensures rest[i].name != rest[j].name
        {
          assert cs[i + 1] == rest[i] && cs[j + 1] == rest[j];
        }
      }
      WithoutDistinctIf(rest, names);
      var wr := Without(rest, names);
      if cs[0].name !in names {
        assert Without(cs, names) == [cs[0]] + wr;
        assert LabelsOf(Without(cs, names)) == [cs[0].name] + LabelsOf(wr);
        WithoutMembers(rest, names);
        forall k | 0 <= k < |wr| ensures wr[k].name != cs[0].name {
          assert wr[k] in rest;
          var k' :| 0 <= k' < |rest| && rest[k'] == wr[k];
          assert cs[k' + 1] == wr[k];
        }
      } else {
        assert Without(cs, names) == wr;
      }
    }
  }

  /** Where a kept column lands in the result. */
  lemma KeptPosition(cs: seq<Column>, names: set<string>, j: nat) returns (k: nat)
    requires j < |cs| && cs[j].name !in names
    ensures k < |Without(cs, names)| && Without(cs, names)[k] == cs[j]
  {
    WithoutMembers(cs, names);
    assert cs[j] in Without(cs, names);
    k :| k < |Without(cs, names)| && Without(cs, names)[k] == cs[j];
  }

  /** Two kept columns that share a label show up as two positions of the
      result with that label. */
  lemma {:induction false} WithoutDistinctOnlyIf(cs: seq<Column>, names: set<string>, i: nat, j: nat)
    returns (a: nat, b: nat)
    requires i < j < |cs| && cs[i].name !in names && cs[j].name !in names
    requires cs[i].name == cs[j].name
    ensures a < b < |Without(cs, names)|
    ensures Without(cs, names)[a].name == Without(cs, names)[b].name
  {
    var rest := cs[1..];
    var wr := Without(rest, names);
    if i == 0 {
      var k := KeptPosition(rest, names, j - 1);
      assert Without(cs, names) == [cs[0]] + wr;
      a, b := 0, k + 1;
    } else {
      assert rest[i - 1] == cs[i] && rest[j - 1] == cs[j];
      var a', b' := WithoutDistinctOnlyIf(rest, names, i - 1, j - 1);
      if cs[0].name !in names {
        assert Without(cs, names) == [cs[0]] + wr;
        a, b := a' + 1, b' + 1;
      } else {
        assert Without(cs, names) == wr;
        a, b := a', b';
      }
    }
  }

  /** `df.reindex(order, axis=1)` for a target list without repeats: a
      ValueError when the frame's own labels repeat; otherwise the columns
      of `order`, in that order, each the frame's column of that label or
      all Missing when there is none. */
  function Reindex(f: Frame, order: seq<string>): (r: Result<Frame, Error>)
    requires Distinct(order)
    ensures r.Err? <==> !Distinct(Labels(f))
    ensures r.Err? ==> r.error == DuplicateLabels
    ensures r.Ok? ==> r.value.height == f.height && Labels(r.value) == order
    ensures r.Ok? && Rectangular(f) ==> Rectangular(r.value)
    ensures r.Ok? ==> forall t :: 0 <= t < |order| ==>
      r.value.columns[t].cells ==
        match Lookup(f.columns, order[t])
        case Some(c) => c.cells
        case None => seq(f.height, _ => Missing)
  {
    if !Distinct(Labels(f)) then Err(DuplicateLabels)
    else
      var cs := seq(|order|, t requires 0 <= t < |order| =>
        match Lookup(f.columns, order[t])
        case Some(c) => Column(order[t], c.cells)
        case None => Column(order[t], seq(f.height, _ => Missing)));
      Ok(Frame(f.height, cs))
  }

  /** Cell i of reindexed column t is what the frame held under label
      order[t]. */
  lemma ReindexCell(f: Frame, order: seq<string>, t: nat, i: nat)
    requires Rectangular(f) && Distinct(order) && Reindex(f, order).Ok? && t < |order| && i < f.height
    ensures Rectangular(Reindex(f, order).value)
    ensures Reindex(f, order).value.columns[t].cells[i] == CellOf(f, order[t], i)
  {
  }
}
