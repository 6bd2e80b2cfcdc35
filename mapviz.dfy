/**
 * The filtering pipeline of the map report: the table of business records read
 * from the spreadsheet is narrowed to six columns, records without an area
 * ("Comuna") are dropped in place, the distinct areas are listed in ascending
 * order for the sidebar menu, and the user's selection of areas narrows the
 * table to the view that is listed and drawn (empty selection: everything).
 */
module MapViz {
  import opened Wrappers
  import opened Seqs
  import opened StringOrder

  // ---------------------------------------------------------------- raw table

  /**
   * A spreadsheet cell as the reader delivers it: blank (the reader's missing
   * value), text, or a number kept as its 64-bit pattern (an IEEE double or an
   * int64) and never inspected.
   */
  datatype Cell = Blank | Text(text: string) | Number(bits: bv64)

  /** One spreadsheet row: header to cell. */
  type RawRow = map<string, Cell>

  /** The sheet as read: its header names and its rows, top to bottom. */
  datatype RawTable = RawTable(columns: set<string>, rows: seq<RawRow>)

  /** A data frame is rectangular: every row has a cell under every header and no other. */
  predicate WellFormed(t: RawTable) {
    forall i | 0 <= i < |t.rows| :: t.rows[i].Keys == t.columns
  }

  // ---------------------------------------------------------------- projection

  const CodeColumn := "CODIGO"
  const NameColumn := "NOMBRE FANTASIA"
  const AddressColumn := "CERRO BLANCO 625"
  const AreaColumn := "MAIPU"
  const LatitudeColumn := "LATITUD"
  const LongitudeColumn := "LONGITUD"

  /** The six source headers that are kept, in the order they are kept. */
  const Selected: seq<string> :=
    [CodeColumn, NameColumn, AddressColumn, AreaColumn, LatitudeColumn, LongitudeColumn]

  /** The three mislabelled source headers and the names they are given. */
  const Renames: map<string, string> :=
    map[NameColumn := "Negocio", AddressColumn := "Dirección", AreaColumn := "Comuna"]

  /** The column names of a projected record, in order. */
  const RecordColumns: seq<string> :=
    ["CODIGO", "Negocio", "Dirección", "Comuna", "LATITUD", "LONGITUD"]

  /** One row of the projected table; `comuna` is None where the area cell was blank. */
  datatype Record = Record(
    codigo: Cell,
    negocio: Cell,
    direccion: Cell,
    comuna: Option<string>,
    latitud: Cell,
    longitud: Cell)

  datatype SchemaError =
    | MissingColumns(names: seq<string>)  // required headers absent from the sheet
    | NonTextArea(row: nat)               // a number where an area name belongs

  /** A header's name after the rename; headers not in the rename table keep theirs. */
  function Relabel(h: string): string {
    if h in Renames then Renames[h] else h
  }

  /** Selecting the six headers and renaming them gives exactly the record's columns. */
  function ProjectedHeader(): (h: seq<string>)
    ensures h == RecordColumns
  {
    seq(|Selected|, i requires 0 <= i < |Selected| => Relabel(Selected[i]))
  }

  /** The required headers the sheet lacks, in the order they are required. */
  function AbsentColumns(columns: set<string>): (m: seq<string>)
    ensures forall h :: h in m <==> h in Selected && h !in columns
    ensures m == [] <==> forall i | 0 <= i < |Selected| :: Selected[i] in columns
    ensures IsSubsequence(m, Selected)
  {
    var absent := h => h !in columns;
    FilterCount(Selected, absent);
    FilterIsSubsequence(Selected, absent);
    var m := Filter(Selected, absent);
    assert forall h :: h in m <==> multiset(m)[h] > 0;
    m
  }

  /** The area cell as an optional name. */
  function AreaValue(c: Cell): Option<string>
    requires !c.Number?
  {
    if c.Text? then Some(c.text) else None
  }

  /** The first row whose area cell holds a number, if any. */
  function FirstNumericArea(rows: seq<RawRow>): (k: Option<nat>)
    requires forall i | 0 <= i < |rows| :: AreaColumn in rows[i]
    ensures k.None? <==> forall i | 0 <= i < |rows| :: !rows[i][AreaColumn].Number?
    ensures k.Some? ==>
      k.value < |rows| && rows[k.value][AreaColumn].Number? &&
      forall i | 0 <= i < k.value :: !rows[i][AreaColumn].Number?
  {
    if rows == [] then None
    else if rows[0][AreaColumn].Number? then Some(0)
    else match FirstNumericArea(rows[1..])
      case None => None
      case Some(k) => Some(k + 1)
  }

  /** `rec` carries, field by field, the values of the six kept cells of `row`. */
  ghost predicate ProjectsTo(row: RawRow, rec: Record)
    requires forall h | h in Selected :: h in row
  {
    && rec.codigo == row[CodeColumn]
    && rec.negocio == row[NameColumn]
    && rec.direccion == row[AddressColumn]
    && (rec.comuna == None <==> row[AreaColumn] == Blank)
    && (rec.comuna.Some? ==> row[AreaColumn] == Text(rec.comuna.value))
    && rec.latitud == row[LatitudeColumn]
    && rec.longitud == row[LongitudeColumn]
  }

  /**
   * The cell a record shows under its column `RecordColumns[i]`; the area is
   * shown as the text it was read from, or blank.
   */
  function Column(rec: Record, i: nat): Cell
    requires i < |RecordColumns|
  {
    if i == 0 then rec.codigo
    else if i == 1 then rec.negocio
    else if i == 2 then rec.direccion
    else if i == 3 then (if rec.comuna.Some? then Text(rec.comuna.value) else Blank)
    else if i == 4 then rec.latitud
    else rec.longitud
  }

  /**
   * Column by column, a projected record shows under the renamed header exactly
   * the cell the row held under the original header.
   */
  lemma ProjectedColumns(row: RawRow, rec: Record)
    requires forall h | h in Selected :: h in row
    requires ProjectsTo(row, rec)
    ensures forall i | 0 <= i < |Selected| ::
      RecordColumns[i] == Relabel(Selected[i]) && Column(rec, i) == row[Selected[i]]
  {
  }

  /**
   * `bip[[...]].rename(columns = ...)`: one record per row, in row order, or the
   * error for a sheet that lacks a required header (or has a number as an area).
   */
  function Project(t: RawTable): (r: Result<seq<Record>, SchemaError>)
    requires WellFormed(t)
    ensures (r.Failure? && r.error.MissingColumns?) <==> exists h :: h in Selected && h !in t.columns
    ensures r.Failure? && r.error.MissingColumns? ==>
      r.error.names == AbsentColumns(t.columns) && r.error.names != []
    ensures r.Failure? && r.error.NonTextArea? ==>
      r.error.row < |t.rows| && t.rows[r.error.row][AreaColumn].Number? &&
      forall i | 0 <= i < r.error.row :: !t.rows[i][AreaColumn].Number?
    ensures r.Success? <==>
      (forall h | h in Selected :: h in t.columns) &&
      (forall i | 0 <= i < |t.rows| :: !t.rows[i][AreaColumn].Number?)
    ensures r.Success? ==>
      |r.value| == |t.rows| &&
      forall i | 0 <= i < |t.rows| :: ProjectsTo(t.rows[i], r.value[i])
  {
    var missing := AbsentColumns(t.columns);
    if missing != [] then
      Failure(MissingColumns(missing))
    else
      match FirstNumericArea(t.rows)
      case Some(k) => Failure(NonTextArea(k))
      case None =>
        Success(seq(|t.rows|, i requires 0 <= i < |t.rows| =>
          var row := t.rows[i];
          Record(row[CodeColumn], row[NameColumn], row[AddressColumn],
                 AreaValue(row[AreaColumn]), row[LatitudeColumn], row[LongitudeColumn])))
  }

  // ---------------------------------------------------------------- null filter

  predicate HasArea(r: Record) {
    r.comuna.Some?
  }

  ghost predicate AllHaveArea(rows: seq<Record>) {
    forall i | 0 <= i < |rows| :: HasArea(rows[i])
  }

  /**
   * `dropna(subset=["Comuna"])`: the records with an area, unmodified and in
   * their original order; exactly the records without one are gone.
   */
  function KeepPresent(rows: seq<Record>): (kept: seq<Record>)
    ensures AllHaveArea(kept)
    ensures IsSubsequence(kept, rows)
    ensures forall x :: multiset(kept)[x] == if HasArea(x) then multiset(rows)[x] else 0
  {
    FilterIsSubsequence(rows, HasArea);
    FilterCount(rows, HasArea);
    Filter(rows, HasArea)
  }

  /** Dropping missing areas a second time changes nothing. */
  lemma {:induction false} KeepPresentIdempotent(rows: seq<Record>)
    ensures KeepPresent(KeepPresent(rows)) == KeepPresent(rows)
  {
    FilterAll(KeepPresent(rows), HasArea);
  }

  /** A table whose records all have an area is left as it is. */
  lemma {:induction false} KeepPresentOfFiltered(rows: seq<Record>)
    requires AllHaveArea(rows)
    ensures KeepPresent(rows) == rows
  {
    FilterAll(rows, HasArea);
  }

  /** The working table the script narrows in place. */
  class Frame {
    var rows: seq<Record>

    constructor (rows: seq<Record>)
      ensures this.rows == rows
    {
      this.rows := rows;
    }

    /** `dropna(subset=["Comuna"], inplace=True)`. */
    method DropMissingArea()
      modifies this
      ensures rows == KeepPresent(old(rows))
      ensures AllHaveArea(rows)
    {
      var kept: seq<Record> := [];
      var i := 0;
      while i < |rows|
        invariant 0 <= i <= |rows|
        invariant rows == old(rows)
        invariant kept == Filter(rows[..i], HasArea)
      {
        if HasArea(rows[i]) {
          kept := kept + [rows[i]];
        }
        assert rows[..i + 1][..i] == rows[..i];
        i := i + 1;
      }
      assert rows[..i] == rows;
      rows := kept;
    }
  }

  // ---------------------------------------------------------------- area catalog

  /** Some record of `rows` has area `v`. */
  ghost predicate AreaOccurs(rows: seq<Record>, v: string) {
    exists i | 0 <= i < |rows| :: rows[i].comuna == Some(v)
  }

  /** The `Comuna` column of a table whose records all have an area. */
  function AreaValues(rows: seq<Record>): (areas: seq<string>)
    requires AllHaveArea(rows)
    ensures |areas| == |rows|
    ensures forall i | 0 <= i < |rows| :: rows[i].comuna == Some(areas[i])
  {
    seq(|rows|, i requires 0 <= i < |rows| => rows[i].comuna.value)
  }

  /**
   * `["Comuna"].sort_values().unique()`: the menu of areas, strictly ascending,
   * holding exactly the areas that occur in the table.
   */
  function Catalog(rows: seq<Record>): (comunas: seq<string>)
    requires AllHaveArea(rows)
    ensures StrictlyAscending(comunas)
    ensures forall v :: v in comunas <==> AreaOccurs(rows, v)
  {
    var areas := AreaValues(rows);
    var sorted := Sort(areas);
    UniqueOfSorted(sorted);
    assert forall v :: v in sorted <==> v in areas by {
      forall v ensures v in sorted <==> v in areas {
        assert v in sorted <==> v in multiset(sorted);
      }
    }
    Unique(sorted)
  }

  // ---------------------------------------------------------------- selection filter

  /** The record's area is one of the selected values (a missing area matches nothing). */
  predicate Matches(r: Record, selection: seq<string>) {
    r.comuna.Some? && r.comuna.value in selection
  }

  /** `query("Comuna == @selection")`: the matching records, unmodified and in table order. */
  function Query(rows: seq<Record>, selection: seq<string>): (view: seq<Record>)
    ensures IsSubsequence(view, rows)
    ensures forall i | 0 <= i < |view| :: Matches(view[i], selection)
    ensures forall x :: multiset(view)[x] == if Matches(x, selection) then multiset(rows)[x] else 0
  {
    var p := r => Matches(r, selection);
    FilterIsSubsequence(rows, p);
    FilterCount(rows, p);
    Filter(rows, p)
  }

  /**
   * The view the script lists and draws: the whole table when nothing is
   * selected, otherwise the records whose area is selected, in table order.
   */
  function Select(rows: seq<Record>, selection: seq<string>): (view: seq<Record>)
    ensures IsSubsequence(view, rows)
    ensures selection == [] ==> view == rows
    ensures selection != [] ==> forall i | 0 <= i < |view| :: Matches(view[i], selection)
    ensures selection != [] ==>
      forall x :: multiset(view)[x] == if Matches(x, selection) then multiset(rows)[x] else 0
  {
    SubsequenceOfSelf(rows);
    if selection == [] then rows else Query(rows, selection)
  }

  /** A non-empty selection of areas none of which occurs gives an empty view. */
  lemma SelectAbsent(rows: seq<Record>, selection: seq<string>)
    requires selection != []
    requires forall v | v in selection :: !AreaOccurs(rows, v)
    ensures Select(rows, selection) == []
  {
  }

  /** Selected values that occur nowhere in the table do not change a query. */
  lemma {:induction false} QueryIgnoresAbsent(rows: seq<Record>, selection: seq<string>, selection': seq<string>)
    requires forall v | AreaOccurs(rows, v) :: v in selection <==> v in selection'
    ensures Query(rows, selection) == Query(rows, selection')
  {
    var p, q := r => Matches(r, selection), r => Matches(r, selection');
    FilterAgree(rows, p, q);
  }

  /** Selecting the whole menu shows the whole table, as selecting nothing does. */
  lemma {:induction false} SelectWholeCatalog(rows: seq<Record>)
    requires AllHaveArea(rows)
    ensures Select(rows, Catalog(rows)) == rows
    ensures Select(rows, Catalog(rows)) == Select(rows, [])
  {
    var comunas := Catalog(rows);
    if rows != [] {
      assert AreaOccurs(rows, rows[0].comuna.value);
      assert comunas != [];
      forall i | 0 <= i < |rows| ensures Matches(rows[i], comunas) {
        assert AreaOccurs(rows, rows[i].comuna.value);
      }
      FilterAll(rows, r => Matches(r, comunas));
    }
  }

  // ---------------------------------------------------------------- the script

  /** What one run of the page shows: the area menu and the filtered view. */
  datatype Page = Page(comunas: seq<string>, view: seq<Record>)

  /**
   * One run of the script for the sheet `bip` and the areas chosen in the menu:
   * project, drop missing areas in place, list the areas, narrow by selection.
   */
  method Run(bip: RawTable, selection: seq<string>) returns (r: Result<Page, SchemaError>)
    requires WellFormed(bip)
    ensures Project(bip).Failure? ==> r == Failure(Project(bip).error)
    ensures Project(bip).Success? ==>
      var table := KeepPresent(Project(bip).value);
      r == Success(Page(Catalog(table), Select(table, selection)))
  {
    var projected := Project(bip);
    if projected.Failure? {
      return Failure(projected.error);
    }
    var table := new Frame(projected.value);
    table.DropMissingArea();
    var comunas := Catalog(table.rows);
    var view := table.rows;
    if selection != [] {
      view := Query(table.rows, selection);
    }
    r := Success(Page(comunas, view));
  }
}
