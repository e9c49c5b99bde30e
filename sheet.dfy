/** GoogleSheetMGR: the results table kept in a Google spreadsheet. The worksheet is a grid of
    strings; every request to it may fail, an HTTP error is retried after re-authorizing, and a
    row is written cell by cell. */
module Sheets {
  import opened Errors

  type Table = seq<seq<string>>

  /** A write of `value` to the cell at 1-based `row` and `col`, as `update_cell` takes them. */
  datatype Cell = Cell(row: int, col: int, value: string)

  /** The spreadsheet service's answer to one request. */
  datatype Reply =
    | Served                     // the request was carried out
    | HttpError(details: string) // gspread's HTTPError: re-authorize and retry
    | OtherError(reason: string) // any other exception: propagates at once

  // ---------------------------------------------------------------------------------------------
  // The grid

  /** The text in the cell at 0-based `i`, `j`; a cell past the end of the table is empty. */
  function Get(t: Table, i: int, j: int): string {
    if 0 <= i < |t| && 0 <= j < |t[i]| then t[i][j] else ""
  }

  /** The table with the cell at 0-based `i`, `j` set to `v`, grown with empty rows and cells
      where it did not reach that far. */
  function SetCell(t: Table, i: nat, j: nat, v: string): Table {
    var t1 := if |t| <= i then t + seq(i + 1 - |t|, _ => []) else t;
    var row := t1[i];
    var row1 := if |row| <= j then row + seq(j + 1 - |row|, _ => "") else row;
    t1[i := row1[j := v]]
  }

  /** Setting a cell changes that cell and no other. */
  lemma GetSetCell(t: Table, i: nat, j: nat, v: string, a: int, b: int)
    ensures Get(SetCell(t, i, j, v), a, b) == if a == i && b == j then v else Get(t, a, b)
  {
    var t1 := if |t| <= i then t + seq(i + 1 - |t|, _ => []) else t;
    assert Get(t1, a, b) == Get(t, a, b);
  }

  /** The length of the longest row. */
  function Width(t: Table): (w: nat)
    ensures forall i :: 0 <= i < |t| ==> |t[i]| <= w
    ensures t == [] ==> w == 0
    ensures t != [] ==> exists i :: 0 <= i < |t| && |t[i]| == w
    decreases |t|
  {
    if t == [] then 0
    else
      var n := |t| - 1;
      var w := Width(t[..n]);
      assert forall i :: 0 <= i < n ==> t[..n][i] == t[i];
      if |t[n]| > w then |t[n]| else w
  }

  /** A row filled up with empty cells to `w` cells. */
  function PadRow(row: seq<string>, w: nat): (r: seq<string>)
    requires |row| <= w
    ensures |r| == w && r[..|row|] == row
    ensures forall j :: |row| <= j < w ==> r[j] == ""
  {
    row + seq(w - |row|, _ => "")
  }

  /** The table as gspread's `get_all_values` hands it over: every row filled up with empty cells
      to the width of the widest, a rectangle holding the same cells. */
  function Padded(t: Table): (r: Table)
    ensures |r| == |t|
    ensures forall i :: 0 <= i < |r| ==> |r[i]| == Width(t)
    ensures forall i, j :: Get(r, i, j) == Get(t, i, j)
  {
    var w := Width(t);
    var r := seq(|t|, i requires 0 <= i < |t| => PadRow(t[i], w));
    assert forall i, j :: 0 <= i < |t| && 0 <= j < |t[i]| ==> r[i][j] == r[i][..|t[i]|][j];
    r
  }

  /** `u` has at least the rows of `t`, each at least as long. */
  predicate Extends(t: Table, u: Table) {
    |u| >= |t| && forall i :: 0 <= i < |t| ==> |u[i]| >= |t[i]|
  }

  /** A table that extends another is at least as wide. */
  lemma WidthExtends(t: Table, u: Table)
    requires Extends(t, u)
    ensures Width(t) <= Width(u)
  {
    if t != [] {
      var i :| 0 <= i < |t| && |t[i]| == Width(t);
      assert |u[i]| <= Width(u);
    }
  }

  /** Whether a write lands on the cell at 0-based `i`, `j`. */
  predicate Addresses(c: Cell, i: int, j: int) {
    0 <= i && 0 <= j && c.row == i + 1 && c.col == j + 1
  }

  /** One write carried out; a cell address below 1 names no cell. */
  function Write(t: Table, c: Cell): Table {
    if c.row >= 1 && c.col >= 1 then SetCell(t, c.row - 1, c.col - 1, c.value) else t
  }

  /** Writes carried out in order. */
  function ApplyCells(t: Table, cells: seq<Cell>): Table
    decreases |cells|
  {
    if cells == [] then t else ApplyCells(Write(t, cells[0]), cells[1..])
  }

  /** Writes never shorten a row nor drop one. */
  lemma {:induction false} ApplyExtends(t: Table, cells: seq<Cell>)
    ensures Extends(t, ApplyCells(t, cells))
    decreases |cells|
  {
    if cells != [] {
      var t1 := Write(t, cells[0]);
      assert Extends(t, t1);
      ApplyExtends(t1, cells[1..]);
    }
  }

  /** Applying two runs of writes is applying one after the other. */
  lemma {:induction false} ApplyAppend(t: Table, a: seq<Cell>, b: seq<Cell>)
    ensures ApplyCells(t, a + b) == ApplyCells(ApplyCells(t, a), b)
    decreases |a|
  {
    if a == [] {
      assert a + b == b;
    } else {
      assert (a + b)[0] == a[0] && (a + b)[1..] == a[1..] + b;
      ApplyAppend(Write(t, a[0]), a[1..], b);
    }
  }
  /** A cell no write addresses keeps its text. */
  lemma {:induction false} ApplyUntouched(t: Table, cells: seq<Cell>, i: int, j: int)
    requires forall k :: 0 <= k < |cells| ==> !Addresses(cells[k], i, j)
    ensures Get(ApplyCells(t, cells), i, j) == Get(t, i, j)
    decreases |cells|
  {
    if cells != [] {
      assert !Addresses(cells[0], i, j);
      var c := cells[0];
      if c.row >= 1 && c.col >= 1 {
        GetSetCell(t, c.row - 1, c.col - 1, c.value, i, j);
      }
      ApplyUntouched(Write(t, cells[0]), cells[1..], i, j);
    }
  }

  /** A cell holds the value of the last write that addresses it. */
  lemma {:induction false} ApplyLastWins(t: Table, cells: seq<Cell>, k: nat, i: int, j: int)
    requires k < |cells| && Addresses(cells[k], i, j)
    requires forall m :: k < m < |cells| ==> !Addresses(cells[m], i, j)
    ensures Get(ApplyCells(t, cells), i, j) == cells[k].value
    decreases |cells|
  {
    if k == 0 {
      assert forall m :: 0 <= m < |cells[1..]| ==> !Addresses(cells[1..][m], i, j) by {
        forall m | 0 <= m < |cells[1..]|
          ensures !Addresses(cells[1..][m], i, j)
        {
          assert cells[1..][m] == cells[m + 1];
        }
      }
      GetSetCell(t, i, j, cells[0].value, i, j);
      ApplyUntouched(Write(t, cells[0]), cells[1..], i, j);
    } else {
      ApplyLastWins(Write(t, cells[0]), cells[1..], k - 1, i, j);
    }
  }

  // ---------------------------------------------------------------------------------------------
  // _worksheet_action

  /** Retries after an HTTP error; the sixth HTTP error in a row is raised. */
  const MaxRetry := 5

  /** How a request ended: the number of attempts made and the reply to the last one. */
  datatype Try = Try(used: nat, reply: Reply)

  /** `_worksheet_action` with `retry` HTTP errors already behind it, its next attempt answered
      by `server(at)`. */
  function RetryFrom(server: nat -> Reply, at: nat, retry: nat): Try
    requires retry <= MaxRetry
    decreases MaxRetry - retry
  {
    var reply := server(at);
    if reply.HttpError? && retry < MaxRetry then
      var t := RetryFrom(server, at + 1, retry + 1);
      Try(t.used + 1, t.reply)
    else Try(1, reply)
  }

  /** The retry loop makes at most six attempts; every attempt but the last met an HTTP error; the
      last one's reply is the outcome; and an HTTP error is the outcome only after six attempts. */
  lemma {:induction false} RetryFromShape(server: nat -> Reply, at: nat, retry: nat)
    requires retry <= MaxRetry
    ensures var t := RetryFrom(server, at, retry);
            1 <= t.used <= MaxRetry + 1 - retry
            && (forall a :: at <= a < at + t.used - 1 ==> server(a).HttpError?)
            && t.reply == server(at + t.used - 1)
            && (t.reply.HttpError? ==> t.used == MaxRetry + 1 - retry)
    decreases MaxRetry - retry
  {
    if server(at).HttpError? && retry < MaxRetry {
      RetryFromShape(server, at + 1, retry + 1);
      var t := RetryFrom(server, at + 1, retry + 1);
      assert at + (t.used + 1) - 1 == at + 1 + t.used - 1;
    }
  }

  /** A request succeeds exactly when one of the first six attempts is served and every attempt
      before it met an HTTP error. */
  lemma RetrySucceeds(server: nat -> Reply, at: nat)
    ensures RetryFrom(server, at, 0).reply.Served? <==> exists a :: ServedAfterErrors(server, at, a)
  {
    RetryFromShape(server, at, 0);
    var t := RetryFrom(server, at, 0);
    if t.reply.Served? {
      assert ServedAfterErrors(server, at, at + t.used - 1);
    }
    if a :| ServedAfterErrors(server, at, a) {
      assert server(at + t.used - 1) == t.reply;
    }
  }

  /** Attempt `a` is among the first six, is served, and every attempt before it met an HTTP
      error. */
  predicate ServedAfterErrors(server: nat -> Reply, at: nat, a: nat) {
    at <= a <= at + MaxRetry && server(a).Served?
    && forall b :: at <= b < a ==> server(b).HttpError?
  }

  // ---------------------------------------------------------------------------------------------
  // Writing cells

  /** What a run of writes did: the writes carried out, the attempts made, and whether it
      completed. The table after it is the one before with the writes applied. */
  datatype Applied = Applied(writes: seq<Cell>, used: nat, ok: bool)

  function Then(writes: seq<Cell>, used: nat, a: Applied): Applied {
    Applied(writes + a.writes, used + a.used, a.ok)
  }

  /** `_update_cell` for each cell in order, the first attempt answered by `server(at)`, stopping at
      the first that raises. An address below 1 is refused before any request. */
  function WriteOutcome(server: nat -> Reply, at: nat, cells: seq<Cell>): Applied
    decreases |cells|
  {
    if cells == [] then Applied([], 0, true)
    else
      var c := cells[0];
      if c.row < 1 || c.col < 1 then Applied([], 0, false)
      else
        var t := RetryFrom(server, at, 0);
        if !t.reply.Served? then Applied([], t.used, false)
        else Then([c], t.used, WriteOutcome(server, at + t.used, cells[1..]))
  }

  /** The writes carried out are the first ones asked for, all of them exactly when the run
      completes, and each write took at most six attempts. */
  lemma WriteOutcomeShape(server: nat -> Reply, at: nat, cells: seq<Cell>)
    ensures var o := WriteOutcome(server, at, cells);
            |o.writes| <= |cells| && o.writes == cells[..|o.writes|]
            && (o.ok <==> o.writes == cells)
            && o.used <= 6 * |cells|
  {
    WritesPrefix(server, at, cells);
    WritesUsed(server, at, cells);
  }

  lemma {:induction false} WritesPrefix(server: nat -> Reply, at: nat, cells: seq<Cell>)
    ensures var o := WriteOutcome(server, at, cells);
            |o.writes| <= |cells| && o.writes == cells[..|o.writes|] && (o.ok <==> o.writes == cells)
    decreases |cells|
  {
    if cells != [] {
      var c, t := cells[0], RetryFrom(server, at, 0);
      if c.row >= 1 && c.col >= 1 && t.reply.Served? {
        WriteFirstServed(server, at, cells);
        var rest := WriteOutcome(server, at + t.used, cells[1..]);
        WritesPrefix(server, at + t.used, cells[1..]);
        ConsPrefix(cells, rest.writes);
        var o := WriteOutcome(server, at, cells);
        assert o.writes == [c] + rest.writes && o.ok == rest.ok;
      } else {
        WriteFirstStops(server, at, cells);
      }
    }
  }

  lemma {:induction false} WritesUsed(server: nat -> Reply, at: nat, cells: seq<Cell>)
    ensures WriteOutcome(server, at, cells).used <= 6 * |cells|
    decreases |cells|
  {
    if cells != [] {
      var c, t := cells[0], RetryFrom(server, at, 0);
      RetryFromShape(server, at, 0);
      if c.row >= 1 && c.col >= 1 && t.reply.Served? {
        WriteFirstServed(server, at, cells);
        WritesUsed(server, at + t.used, cells[1..]);
      } else {
        WriteFirstStops(server, at, cells);
      }
    }
  }

  lemma ConsPrefix(cells: seq<Cell>, w: seq<Cell>)
    requires cells != [] && |w| <= |cells| - 1 && w == cells[1..][..|w|]
    ensures [cells[0]] + w == cells[..|w| + 1]
    ensures [cells[0]] + w == cells <==> w == cells[1..]
  {
    if w == cells[1..] {
      assert cells == [cells[0]] + cells[1..];
    }
  }

  /** A run whose first write is served goes on with the rest... */
  lemma WriteFirstServed(server: nat -> Reply, at: nat, cells: seq<Cell>)
    requires cells != [] && cells[0].row >= 1 && cells[0].col >= 1
    requires RetryFrom(server, at, 0).reply.Served?
    ensures var u := RetryFrom(server, at, 0).used;
            WriteOutcome(server, at, cells) == Then([cells[0]], u, WriteOutcome(server, at + u, cells[1..]))
  {
  }

  /** ...and one whose first write raises stops there, with no write carried out. */
  lemma WriteFirstStops(server: nat -> Reply, at: nat, cells: seq<Cell>)
    requires cells != []
    requires cells[0].row < 1 || cells[0].col < 1 || !RetryFrom(server, at, 0).reply.Served?
    ensures var u := if cells[0].row < 1 || cells[0].col < 1 then 0 else RetryFrom(server, at, 0).used;
            WriteOutcome(server, at, cells) == Applied([], u, false)
  {
  }

  /** One more write run behind a loop's accumulated writes. */
  lemma ThenStep(o: Applied, done: seq<Cell>, used: nat, whole: Applied, w: seq<Cell>, u: nat, next: Applied)
    requires o == Then(done, used, whole) && whole == Then(w, u, next)
    ensures o == Then(done + w, used + u, next)
  {
    assert done + (w + next.writes) == (done + w) + next.writes;
  }

  lemma ApplySnoc(t: Table, w: seq<Cell>, c: Cell)
    ensures ApplyCells(t, w + [c]) == Write(ApplyCells(t, w), c)
  {
    ApplyAppend(t, w, [c]);
    assert [c][1..] == [];
  }

  // ---------------------------------------------------------------------------------------------
  // Columns of a row

  /** A 0-based column and the value meant for it. */
  datatype Col = Col(index: nat, value: string)

  predicate Increasing(cols: seq<Col>) {
    forall p, q :: 0 <= p < q < |cols| ==> cols[p].index < cols[q].index
  }

  /** The header columns whose key is in `d`, in header order, with `d`'s value for that key: the
      `index_dict` the search builds, and the cells `add_new_row_by_dict` fills. */
  function Columns(keys: seq<string>, d: map<string, string>): seq<Col>
    decreases |keys|
  {
    if keys == [] then []
    else
      var n := |keys| - 1;
      Columns(keys[..n], d) + if keys[n] in d then [Col(n, d[keys[n]])] else []
  }

  /** A column is listed exactly when its header key is in the dictionary, with that key's value,
      and the columns come in header order. */
  lemma {:induction false} ColumnsSpec(keys: seq<string>, d: map<string, string>)
    ensures var cols := Columns(keys, d);
            Increasing(cols)
            && (forall c :: c in cols <==> c.index < |keys| && keys[c.index] in d && c.value == d[keys[c.index]])
            && (forall p :: 0 <= p < |cols| ==> cols[p].index < |keys|)
    decreases |keys|
  {
    if keys != [] {
      var n := |keys| - 1;
      ColumnsSpec(keys[..n], d);
      forall k | 0 <= k < n
        ensures keys[..n][k] == keys[k]
      {
      }
    }
  }

  /** The columns of a list, numbered from 0: the cells `add_new_row` fills. */
  function Numbered(values: seq<string>): (cols: seq<Col>)
    ensures |cols| == |values| && Increasing(cols)
    ensures forall p :: 0 <= p < |cols| ==> cols[p] == Col(p, values[p])
  {
    seq(|values|, p requires 0 <= p < |values| => Col(p, values[p]))
  }

  /** The writes that put each column's value in the 1-based row `row`. */
  function DataCells(row: int, cols: seq<Col>): (cells: seq<Cell>)
    ensures |cells| == |cols|
    ensures forall p :: 0 <= p < |cols| ==> cells[p] == Cell(row, cols[p].index + 1, cols[p].value)
  {
    seq(|cols|, p requires 0 <= p < |cols| => Cell(row, cols[p].index + 1, cols[p].value))
  }

  /** Writing a row's columns puts each value in its column of that row... */
  lemma DataCellsHit(t: Table, row: int, cols: seq<Col>, p: nat)
    requires row >= 1 && Increasing(cols) && p < |cols|
    ensures Get(ApplyCells(t, DataCells(row, cols)), row - 1, cols[p].index) == cols[p].value
  {
    var cells := DataCells(row, cols);
    ApplyLastWins(t, cells, p, row - 1, cols[p].index);
  }

  /** ...and leaves every other cell as it was. */
  lemma DataCellsMiss(t: Table, row: int, cols: seq<Col>, i: int, j: int)
    requires forall p :: 0 <= p < |cols| ==> !(i == row - 1 && j == cols[p].index)
    ensures Get(ApplyCells(t, DataCells(row, cols)), i, j) == Get(t, i, j)
  {
    ApplyUntouched(t, DataCells(row, cols), i, j);
  }

  // ---------------------------------------------------------------------------------------------
  // search_update_by_dict

  /** A row matches when every search column holds its value. */
  predicate Matches(row: seq<string>, keys: seq<string>, search: map<string, string>) {
    forall k :: 0 <= k < |keys| && keys[k] in search ==> k < |row| && row[k] == search[keys[k]]
  }

  /** The inner loop of the search: the columns compared in order, stopping at the first that
      differs; reading past the end of the row raises IndexError. */
  function RowMatch(row: seq<string>, cols: seq<Col>): Result<bool>
    decreases |cols|
  {
    if cols == [] then Ok(true)
    else if cols[0].index >= |row| then Err("list index out of range")
    else if row[cols[0].index] != cols[0].value then Ok(false)
    else RowMatch(row, cols[1..])
  }

  /** When the row is long enough, the comparison answers whether every column holds its value. */
  lemma {:induction false} RowMatchAll(row: seq<string>, cols: seq<Col>)
    requires forall p :: 0 <= p < |cols| ==> cols[p].index < |row|
    ensures RowMatch(row, cols) == Ok(forall p :: 0 <= p < |cols| ==> row[cols[p].index] == cols[p].value)
    decreases |cols|
  {
    if cols != [] {
      RowMatchAll(row, cols[1..]);
      assert forall p :: 1 <= p < |cols| ==> cols[p] == cols[1..][p - 1];
    }
  }

  /** The search compares a row against the search dictionary exactly as `Matches` says, for a
      row at least as wide as the header. */
  lemma RowMatchSpec(row: seq<string>, keys: seq<string>, search: map<string, string>)
    requires |row| >= |keys|
    ensures RowMatch(row, Columns(keys, search)) == Ok(Matches(row, keys, search))
  {
    var cols := Columns(keys, search);
    ColumnsSpec(keys, search);
    RowMatchAll(row, cols);
    if forall p :: 0 <= p < |cols| ==> row[cols[p].index] == cols[p].value {
      forall k | 0 <= k < |keys| && keys[k] in search
        ensures row[k] == search[keys[k]]
      {
        assert Col(k, search[keys[k]]) in cols;
      }
    } else {
      var p :| 0 <= p < |cols| && row[cols[p].index] != cols[p].value;
      assert cols[p] in cols;
    }
  }

  /** Cells to write, and the exception raised after writing them, if any. */
  datatype Planned = Planned(cells: seq<Cell>, error: Option<string>)

  /** The rows of the table from `from` on: each matching row gets the data columns written, in
      the 1-based row below its 0-based index. */
  function SearchRows(table: Table, from: nat, cols: seq<Col>, dataCols: seq<Col>): Planned
    decreases |table| - from
  {
    if from >= |table| then Planned([], None)
    else
      var m := RowMatch(table[from], cols);
      if m.Err? then Planned([], Some(m.reason))
      else
        var here := if m.value then DataCells(from + 1, dataCols) else [];
        var rest := SearchRows(table, from + 1, cols, dataCols);
        Planned(here + rest.cells, rest.error)
  }

  /** `search_update_by_dict` on the fetched table. With no header key among the search keys the
      flag `found` is read before it is ever set, which raises on the first row. */
  function SearchPlan(table: Table, keys: seq<string>, search: map<string, string>,
                      data: map<string, string>): Planned
  {
    var cols := Columns(keys, search);
    if cols == [] then
      if table == [] then Planned([], None) else Planned([], Some("local variable 'found' referenced before assignment"))
    else SearchRows(table, 0, cols, Columns(keys, data))
  }

  /** The cells the search means to write: in a row that matches, each header column whose key
      has a new value. */
  predicate SearchTarget(table: Table, keys: seq<string>, search: map<string, string>,
                         data: map<string, string>, c: Cell)
  {
    1 <= c.row <= |table| && Matches(table[c.row - 1], keys, search) && ColumnTarget(keys, data, c)
  }

  /** A write to the column whose header key has a value in `data`, of that value. */
  predicate ColumnTarget(keys: seq<string>, data: map<string, string>, c: Cell) {
    1 <= c.col <= |keys| && keys[c.col - 1] in data && c.value == data[keys[c.col - 1]]
  }

  /** Every row at least as wide as the header. */
  predicate Wide(table: Table, keys: seq<string>) {
    forall r :: 0 <= r < |table| ==> |table[r]| >= |keys|
  }

  lemma {:induction false} SearchRowsSpec(table: Table, from: nat, keys: seq<string>,
                                          search: map<string, string>, data: map<string, string>)
    requires Wide(table, keys) && from <= |table|
    ensures var p := SearchRows(table, from, Columns(keys, search), Columns(keys, data));
            p.error.None?
            && forall c :: c in p.cells <==> c.row > from && SearchTarget(table, keys, search, data, c)
    decreases |table| - from
  {
    if from < |table| {
      var cols, dataCols := Columns(keys, search), Columns(keys, data);
      RowMatchSpec(table[from], keys, search);
      SearchRowsSpec(table, from + 1, keys, search, data);
      var rest := SearchRows(table, from + 1, cols, dataCols);
      var here := if Matches(table[from], keys, search) then DataCells(from + 1, dataCols) else [];
      assert SearchRows(table, from, cols, dataCols) == Planned(here + rest.cells, rest.error);
      SearchRowCells(table, from, keys, search, data);
    }
  }

  /** The cells one row of the search writes. */
  lemma SearchRowCells(table: Table, from: nat, keys: seq<string>,
                       search: map<string, string>, data: map<string, string>)
    requires Wide(table, keys) && from < |table|
    ensures var here := if Matches(table[from], keys, search) then DataCells(from + 1, Columns(keys, data)) else [];
            forall c :: c in here <==> c.row == from + 1 && SearchTarget(table, keys, search, data, c)
  {
    DataCellsColumns(from + 1, keys, data);
  }

  /** Writing the columns of a dictionary into a row writes each header column whose key has a
      value, and nothing else. */
  lemma DataCellsColumns(r: int, keys: seq<string>, data: map<string, string>)
    ensures forall c :: c in DataCells(r, Columns(keys, data)) <==> c.row == r && ColumnTarget(keys, data, c)
  {
    ColumnsSpec(keys, data);
    forall c: Cell | c.row == r && ColumnTarget(keys, data, c)
      ensures c in DataCells(r, Columns(keys, data))
    {
      DataCellsOf(r, Columns(keys, data), Col(c.col - 1, c.value));
    }
  }

  /** A column listed gives a write into the row. */
  lemma DataCellsOf(r: int, cols: seq<Col>, col: Col)
    requires col in cols
    ensures Cell(r, col.index + 1, col.value) in DataCells(r, cols)
  {
    var p :| 0 <= p < |cols| && cols[p] == col;
    assert DataCells(r, cols)[p] == Cell(r, col.index + 1, col.value);
  }

  /** For a table at least as wide as the header and some header key to search on, the search
      raises nothing and writes exactly the cells it is meant to. */
  lemma SearchPlanSpec(table: Table, keys: seq<string>, search: map<string, string>,
                       data: map<string, string>)
    requires Wide(table, keys)
    ensures var p := SearchPlan(table, keys, search, data);
            (exists k :: 0 <= k < |keys| && keys[k] in search) ==>
              p.error.None? && forall c :: c in p.cells <==> SearchTarget(table, keys, search, data, c)
  {
    ColumnsSpec(keys, search);
    if k :| 0 <= k < |keys| && keys[k] in search {
      assert Col(k, search[keys[k]]) in Columns(keys, search);
      SearchRowsSpec(table, 0, keys, search, data);
    }
  }

  /** No search key in the header: a non-empty table raises before anything is written. */
  /** The header is the first row of a fetch. Whatever this manager writes afterwards only
      lengthens rows and adds new ones, so every later fetch is at least as wide as the header. */
  lemma FetchedHeaderFits(t0: Table, cells: seq<Cell>)
    requires t0 != []
    ensures Wide(Padded(ApplyCells(t0, cells)), Padded(t0)[0])
  {
    ApplyExtends(t0, cells);
    WidthExtends(t0, ApplyCells(t0, cells));
  }

  /** `search_update_by_dict` on a fetch taken after any writes since the header was read: once
      some header column is searched, no IndexError is raised and the cells written are exactly
      the data columns of the matching rows. */
  lemma SearchFetchedSpec(t0: Table, cells: seq<Cell>, search: map<string, string>,
                          data: map<string, string>)
    requires t0 != []
    ensures var keys := Padded(t0)[0];
            var table := Padded(ApplyCells(t0, cells));
            var p := SearchPlan(table, keys, search, data);
            (exists k :: 0 <= k < |keys| && keys[k] in search) ==>
              p.error.None? && forall c :: c in p.cells <==> SearchTarget(table, keys, search, data, c)
  {
    FetchedHeaderFits(t0, cells);
    SearchPlanSpec(Padded(ApplyCells(t0, cells)), Padded(t0)[0], search, data);
  }

  /** A row appended with fewer cells than the header is fetched filled up with empty cells, so a
      search over the header's last column reads "" there instead of failing. */
  lemma ShortRowSearched()
    ensures var t := [["name", "ver"], ["a", "1"], ["b"]];
            SearchPlan(Padded(t), ["name", "ver"], map["ver" := "2"], map["name" := "z"]) == Planned([], None)
  {
    ShortRowPadded();
    var r := [["name", "ver"], ["a", "1"], ["b", ""]];
    assert Columns(["name", "ver"], map["ver" := "2"]) == [Col(1, "2")];
    assert Columns(["name", "ver"], map["name" := "z"]) == [Col(0, "z")];
  }

  lemma ShortRowPadded()
    ensures Padded([["name", "ver"], ["a", "1"], ["b"]]) == [["name", "ver"], ["a", "1"], ["b", ""]]
  {
    var t := [["name", "ver"], ["a", "1"], ["b"]];
    assert Width(t[..2][..1]) == 2;
    assert Width(t[..2]) == 2;
    assert Width(t) == 2;
    var r := Padded(t);
    assert Get(r, 0, 0) == "name" && Get(r, 0, 1) == "ver";
    assert Get(r, 1, 0) == "a" && Get(r, 1, 1) == "1";
    assert Get(r, 2, 0) == "b" && Get(r, 2, 1) == "";
    assert r[0] == ["name", "ver"] && r[1] == ["a", "1"] && r[2] == ["b", ""];
  }


  lemma SearchPlanUnbound(table: Table, keys: seq<string>, search: map<string, string>,
                          data: map<string, string>)
    requires table != [] && forall k :: 0 <= k < |keys| ==> keys[k] !in search
    ensures SearchPlan(table, keys, search, data) == Planned([], Some("local variable 'found' referenced before assignment"))
  {
    ColumnsSpec(keys, search);
    var cols := Columns(keys, search);
    assert forall p :: 0 <= p < |cols| ==> cols[p] in cols;
  }

  // ---------------------------------------------------------------------------------------------
  // rework_sheet

  /** The cells of one row from column `j` on whose new value differs, at row `i + base` and
      column `j + base`; a new row shorter than the old one raises IndexError. */
  function ReworkRow(oldRow: seq<string>, newRow: seq<string>, i: nat, j: nat, base: nat): Planned
    decreases |oldRow| - j
  {
    if j >= |oldRow| then Planned([], None)
    else if j >= |newRow| then Planned([], Some("list index out of range"))
    else
      var rest := ReworkRow(oldRow, newRow, i, j + 1, base);
      if newRow[j] != oldRow[j] then Planned([Cell(i + base, j + base, newRow[j])] + rest.cells, rest.error)
      else rest
  }

  /** The rows of the old table from `i` on; only an old row with cells reads the new row. */
  function ReworkRows(before: Table, data: Table, i: nat, base: nat): Planned
    decreases |before| - i
  {
    if i >= |before| then Planned([], None)
    else if before[i] != [] && i >= |data| then Planned([], Some("list index out of range"))
    else
      var here := if before[i] == [] then Planned([], None) else ReworkRow(before[i], data[i], i, 0, base);
      if here.error.Some? then here
      else
        var rest := ReworkRows(before, data, i + 1, base);
        Planned(here.cells + rest.cells, rest.error)
  }

  /** `rework_sheet` as written: the 0-based loop indices are passed to `update_cell`, which counts
      from 1. */
  function ReworkPlan(before: Table, data: Table): Planned {
    ReworkRows(before, data, 0, 0)
  }

  /** `rework_sheet` as evidently intended: each differing cell written at its own 1-based
      address. */
  function ReworkPlanFixed(before: Table, data: Table): Planned {
    ReworkRows(before, data, 0, 1)
  }

  /** The new table has a value for every cell of the old one. */
  predicate Covers(before: Table, data: Table) {
    |data| >= |before| && forall i :: 0 <= i < |before| ==> |data[i]| >= |before[i]|
  }

  lemma {:induction false} ReworkRowApplied(t: Table, oldRow: seq<string>, newRow: seq<string>, i: nat, j: nat)
    requires |newRow| >= |oldRow|
    ensures var p := ReworkRow(oldRow, newRow, i, j, 1);
            p.error.None?
            && forall a, b :: Get(ApplyCells(t, p.cells), a, b) ==
                 if a == i && j <= b < |oldRow| && newRow[b] != oldRow[b] then newRow[b] else Get(t, a, b)
    decreases |oldRow| - j
  {
    if j < |oldRow| {
      var rest := ReworkRow(oldRow, newRow, i, j + 1, 1);
      if newRow[j] != oldRow[j] {
        var c := Cell(i + 1, j + 1, newRow[j]);
        assert ([c] + rest.cells)[1..] == rest.cells;
        assert ApplyCells(t, [c] + rest.cells) == ApplyCells(Write(t, c), rest.cells);
        ReworkRowApplied(Write(t, c), oldRow, newRow, i, j + 1);
        forall a, b
          ensures Get(Write(t, c), a, b) == if a == i && b == j then newRow[j] else Get(t, a, b)
        {
          GetSetCell(t, i, j, newRow[j], a, b);
        }
      } else {
        ReworkRowApplied(t, oldRow, newRow, i, j + 1);
      }
    }
  }



  lemma {:induction false} ReworkRowsApplied(t: Table, before: Table, data: Table, i: nat)
    requires Covers(before, data)
    ensures var p := ReworkRows(before, data, i, 1);
            p.error.None?
            && forall a, b :: Get(ApplyCells(t, p.cells), a, b) ==
                 if i <= a < |before| && 0 <= b < |before[a]| && data[a][b] != before[a][b] then data[a][b] else Get(t, a, b)
    decreases |before| - i
  {
    if i < |before| {
      var here := if before[i] == [] then Planned([], None) else ReworkRow(before[i], data[i], i, 0, 1);
      var u := ApplyCells(t, here.cells);
      if before[i] != [] {
        ReworkRowApplied(t, before[i], data[i], i, 0);
      }
      var rest := ReworkRows(before, data, i + 1, 1);
      ReworkRowsApplied(u, before, data, i + 1);
      ApplyAppend(t, here.cells, rest.cells);
      forall a, b
        ensures Get(ApplyCells(t, here.cells + rest.cells), a, b) ==
                if i <= a < |before| && 0 <= b < |before[a]| && data[a][b] != before[a][b] then data[a][b] else Get(t, a, b)
      {
        if a != i {
          assert Get(u, a, b) == Get(t, a, b);
        }
      }
    }
  }

  /** The writes one old row plans from column `j` on: exactly the cells whose new value differs
      from the old one, each at its 1-based address with the new value. */
  lemma {:induction false} ReworkRowWrites(oldRow: seq<string>, newRow: seq<string>, i: nat, j: nat)
    requires |newRow| >= |oldRow|
    ensures var p := ReworkRow(oldRow, newRow, i, j, 1);
            p.error.None?
            && forall c :: c in p.cells <==>
                 c.row == i + 1 && j + 1 <= c.col <= |oldRow|
                 && c.value == newRow[c.col - 1] && newRow[c.col - 1] != oldRow[c.col - 1]
    decreases |oldRow| - j
  {
    if j < |oldRow| {
      ReworkRowWrites(oldRow, newRow, i, j + 1);
    }
  }

  /** A cell the corrected rework writes: inside the old table, with a new value that differs
      from the old one, at its 1-based address. */
  predicate ReworkTarget(before: Table, data: Table, c: Cell)
    requires Covers(before, data)
  {
    1 <= c.row <= |before| && 1 <= c.col <= |before[c.row - 1]|
    && c.value == data[c.row - 1][c.col - 1] && data[c.row - 1][c.col - 1] != before[c.row - 1][c.col - 1]
  }

  lemma {:induction false} ReworkRowsWrites(before: Table, data: Table, i: nat)
    requires Covers(before, data)
    ensures var p := ReworkRows(before, data, i, 1);
            p.error.None? && forall c :: c in p.cells <==> c.row >= i + 1 && ReworkTarget(before, data, c)
    decreases |before| - i
  {
    if i < |before| {
      var here: Planned := if before[i] == [] then Planned([], None) else ReworkRow(before[i], data[i], i, 0, 1);
      if before[i] != [] {
        ReworkRowWrites(before[i], data[i], i, 0);
      }
      var rest := ReworkRows(before, data, i + 1, 1);
      ReworkRowsWrites(before, data, i + 1);
      assert ReworkRows(before, data, i, 1).cells == here.cells + rest.cells;
    }
  }

  /** The corrected rework writes exactly the cells of the old table whose new value differs, and
      raises nothing once the new table covers the old one. */
  lemma ReworkFixedWrites(before: Table, data: Table)
    requires Covers(before, data)
    ensures var p := ReworkPlanFixed(before, data);
            p.error.None? && forall c :: c in p.cells <==> ReworkTarget(before, data, c)
  {
    ReworkRowsWrites(before, data, 0);
  }

  /** A cell `rework_sheet` writes over a fetched rectangle `w` wide: inside it, with a new value
      that differs from the worksheet's, the padded `""` included. */
  ghost predicate FetchedTarget(table: Table, w: nat, data: Table, c: Cell) {
    1 <= c.row <= |table| && 1 <= c.col <= w
    && c.value == Get(data, c.row - 1, c.col - 1) && Get(data, c.row - 1, c.col - 1) != Get(table, c.row - 1, c.col - 1)
  }

  /** The write set of `rework_sheet` over the rectangle a fetch returns. */
  lemma ReworkFetchedWrites(table: Table, data: Table)
    requires Covers(Padded(table), data)
    ensures var p := ReworkPlanFixed(Padded(table), data);
            p.error.None? && forall c :: c in p.cells <==> FetchedTarget(table, Width(table), data, c)
  {
    ReworkRectangleWrites(table, Padded(table), Width(table), data);
  }

  lemma ReworkRectangleWrites(table: Table, before: Table, w: nat, data: Table)
    requires |before| == |table| && forall i :: 0 <= i < |before| ==> |before[i]| == w
    requires forall i, j :: Get(before, i, j) == Get(table, i, j)
    requires Covers(before, data)
    ensures var p := ReworkPlanFixed(before, data);
            p.error.None? && forall c :: c in p.cells <==> FetchedTarget(table, w, data, c)
  {
    ReworkFixedWrites(before, data);
    forall c: Cell | 1 <= c.row <= |table| && 1 <= c.col <= w
      ensures Get(before, c.row - 1, c.col - 1) == before[c.row - 1][c.col - 1]
      ensures Get(data, c.row - 1, c.col - 1) == data[c.row - 1][c.col - 1]
    {
    }
  }

  /** The corrected rework leaves the worksheet holding the new values over the whole extent of
      the old table and every other cell as it was. */
  lemma ReworkFixedWritesData(before: Table, data: Table)
    requires Covers(before, data)
    ensures var p := ReworkPlanFixed(before, data);
            p.error.None?
            && forall a, b :: Get(ApplyCells(before, p.cells), a, b) ==
                 if 0 <= a < |before| && 0 <= b < |before[a]| then data[a][b] else Get(before, a, b)
  {
    ReworkRowsApplied(before, before, data, 0);
  }

  /** What `rework_sheet` does to the worksheet, over the rectangle it fetched: once `data` has a
      value for every fetched cell, the corrected rework leaves the new values over that whole
      rectangle, the padded empty cells included, and every other cell as it was. */
  /** `after` holds the cells of `data` over the first `w` columns of every row of `table`, and
      the cells of `table` everywhere else. */
  ghost predicate Reworked(after: Table, table: Table, w: nat, data: Table) {
    forall a, b :: Get(after, a, b) == if 0 <= a < |table| && 0 <= b < w then Get(data, a, b) else Get(table, a, b)
  }

  lemma ReworkFetchedWritesData(table: Table, data: Table)
    requires Covers(Padded(table), data)
    ensures var p := ReworkPlanFixed(Padded(table), data);
            p.error.None?
            && Reworked(ApplyCells(table, p.cells), table, Width(table), data)
  {
    ReworkRectangle(table, Padded(table), Width(table), data);
  }

  /** The rework over a rectangle `w` wide that holds the table's cells. */
  lemma ReworkRectangle(table: Table, before: Table, w: nat, data: Table)
    requires |before| == |table| && forall i :: 0 <= i < |before| ==> |before[i]| == w
    requires forall i, j :: Get(before, i, j) == Get(table, i, j)
    requires Covers(before, data)
    ensures var p := ReworkPlanFixed(before, data);
            p.error.None?
            && Reworked(ApplyCells(table, p.cells), table, w, data)
  {
    var p := ReworkPlanFixed(before, data);
    ReworkRowsApplied(table, before, data, 0);
    forall a, b
      ensures Get(ApplyCells(table, p.cells), a, b) ==
              if 0 <= a < |table| && 0 <= b < w then Get(data, a, b) else Get(table, a, b)
    {
      if 0 <= a < |table| && 0 <= b < w {
        assert Get(before, a, b) == before[a][b] && Get(data, a, b) == data[a][b];
      }
    }
  }


  /** As written, a change in the second row and column is written over the first cell of the
      sheet, and the cell meant to change keeps its old value. */
  lemma ReworkMisplaces()
    ensures var before := [["a", "b"], ["c", "d"]];
            var p := ReworkPlan(before, [["a", "b"], ["c", "x"]]);
            p == Planned([Cell(1, 1, "x")], None)
            && Get(ApplyCells(before, p.cells), 0, 0) == "x"
            && Get(ApplyCells(before, p.cells), 1, 1) == "d"
  {
    var before := [["a", "b"], ["c", "d"]];
    var data := [["a", "b"], ["c", "x"]];
    assert ReworkRow(before[0], data[0], 0, 0, 0) == Planned([], None);
    assert ReworkRow(before[1], data[1], 1, 0, 0) == Planned([Cell(1, 1, "x")], None);
    GetSetCell(before, 0, 0, "x", 0, 0);
    GetSetCell(before, 0, 0, "x", 1, 1);
  }

  /** As written, a change in the first row or column yields an address of 0, which `update_cell`
      refuses: the rework stops there. */
  lemma ReworkFirstRowFails(server: nat -> Reply, at: nat)
    ensures var p := ReworkPlan([["a"]], [["b"]]);
            p == Planned([Cell(0, 0, "b")], None)
            && !WriteOutcome(server, at, p.cells).ok
  {
    assert ReworkRow(["a"], ["b"], 0, 0, 0) == Planned([Cell(0, 0, "b")], None);
  }

  // ---------------------------------------------------------------------------------------------
  // Operations that fetch the table first

  /** A request for the whole table, then the writes planned from it (the table does not change
      in between); the exception the plan ends with, if any, is raised after its writes. */
  function FetchThenWrite(server: nat -> Reply, at: nat, p: Planned): Applied {
    var t := RetryFrom(server, at, 0);
    if !t.reply.Served? then Applied([], t.used, false)
    else
      var o := WriteOutcome(server, at + t.used, p.cells);
      Applied(o.writes, t.used + o.used, o.ok && p.error.None?)
  }

  /** A served fetch followed by a run of writes. */
  lemma FetchedThenWrote(server: nat -> Reply, at: nat, p: Planned, w: Applied)
    requires RetryFrom(server, at, 0).reply.Served?
    requires w == WriteOutcome(server, at + RetryFrom(server, at, 0).used, p.cells)
    ensures FetchThenWrite(server, at, p) == Applied(w.writes, RetryFrom(server, at, 0).used + w.used, w.ok && p.error.None?)
  {
  }

  /** The row `add_new_row` writes to: the one given when it is truthy, else the one after the
      table. */
  function TargetRow(row: int, tableLength: nat): int {
    if row != 0 then row else tableLength + 1
  }

  /** `add_new_row` and `add_new_row_by_dict`: the columns written into the given row, or into the
      row after the fetched table when no row is given. */
  function RowOutcome(server: nat -> Reply, at: nat, tableLength: nat, row: int, cols: seq<Col>): Applied {
    if row != 0 then WriteOutcome(server, at, DataCells(row, cols))
    else FetchThenWrite(server, at, Planned(DataCells(tableLength + 1, cols), None))
  }

  /** A completed row write puts every column's value in the target row and changes no other
      cell. */
  lemma RowOutcomeTable(server: nat -> Reply, at: nat, table: Table, row: int, cols: seq<Col>)
    requires Increasing(cols) && cols != []
    ensures var o := RowOutcome(server, at, |table|, row, cols);
            var r := TargetRow(row, |table|);
            var after := ApplyCells(table, o.writes);
            o.ok ==>
              r >= 1
              && (forall p :: 0 <= p < |cols| ==> Get(after, r - 1, cols[p].index) == cols[p].value)
              && forall i, j :: (forall p :: 0 <= p < |cols| ==> !(i == r - 1 && j == cols[p].index)) ==>
                                Get(after, i, j) == Get(table, i, j)
  {
    var r := TargetRow(row, |table|);
    var at' := if row != 0 then at else at + RetryFrom(server, at, 0).used;
    var o := RowOutcome(server, at, |table|, row, cols);
    var w := WriteOutcome(server, at', DataCells(r, cols));
    assert o.ok ==> w.ok && o.writes == w.writes;
    WriteRowTable(server, at', table, r, cols);
  }

  /** Writing a row's columns, as `RowOutcomeTable` states it for the run of writes alone. */
  lemma WriteRowTable(server: nat -> Reply, at: nat, table: Table, r: int, cols: seq<Col>)
    requires Increasing(cols) && cols != []
    ensures var o := WriteOutcome(server, at, DataCells(r, cols));
            var after := ApplyCells(table, o.writes);
            o.ok ==>
              r >= 1
              && (forall p :: 0 <= p < |cols| ==> Get(after, r - 1, cols[p].index) == cols[p].value)
              && forall i, j :: (forall p :: 0 <= p < |cols| ==> !(i == r - 1 && j == cols[p].index)) ==>
                                Get(after, i, j) == Get(table, i, j)
  {
    var cells := DataCells(r, cols);
    var o := WriteOutcome(server, at, cells);
    WriteOutcomeShape(server, at, cells);
    WriteFirstValid(server, at, cells);
    if o.ok {
      assert cells[0].row == r;
      forall p | 0 <= p < |cols|
        ensures Get(ApplyCells(table, cells), r - 1, cols[p].index) == cols[p].value
      {
        DataCellsHit(table, r, cols, p);
      }
      forall i, j | forall p :: 0 <= p < |cols| ==> !(i == r - 1 && j == cols[p].index)
        ensures Get(ApplyCells(table, cells), i, j) == Get(table, i, j)
      {
        DataCellsMiss(table, r, cols, i, j);
      }
    }
  }

  /** A run that completes had a valid address in its first write. */
  lemma WriteFirstValid(server: nat -> Reply, at: nat, cells: seq<Cell>)
    requires cells != []
    ensures WriteOutcome(server, at, cells).ok ==> cells[0].row >= 1 && cells[0].col >= 1
  {
  }

  // ---------------------------------------------------------------------------------------------
  // GoogleSheetMGR

  /** A worksheet opened through gspread. `table` is what the worksheet holds, `keys` the header
      row read when the manager was made, `attempts` the requests sent so far (the service answers
      the n-th with `server(n)`), and `writes` every cell written so far. */
  class SheetMGR {
    var table: Table
    var keys: seq<string>
    var attempts: nat
    var writes: seq<Cell>
    const server: nat -> Reply

    /** The state a run of writes `o` leaves behind, from `table0`, `attempts0` and `writes0`. */
    predicate Reached(o: Applied, table0: Table, attempts0: nat, writes0: seq<Cell>)
      reads this
    {
      table == ApplyCells(table0, o.writes) && writes == writes0 + o.writes && attempts == attempts0 + o.used
    }

    /** The worksheet opened (the credentials and the spreadsheet name are not modelled); the
        header is read by `LoadKeys`, which finishes `__init__`. */
    constructor (server: nat -> Reply, table: Table)
      ensures this.server == server && this.table == table
      ensures keys == [] && attempts == 0 && writes == []
    {
      this.server := server;
      this.table := table;
      keys := [];
      attempts := 0;
      writes := [];
    }

    /** `_worksheet_action`: the request is sent until it is served, raises something other than
        an HTTP error, or meets its sixth HTTP error. */
    method Retry() returns (reply: Reply)
      modifies this`attempts
      ensures var t := RetryFrom(server, old(attempts), 0);
              attempts == old(attempts) + t.used && reply == t.reply
    {
      ghost var at := attempts;
      var retry := 0;
      while true
        invariant 0 <= retry <= MaxRetry && attempts == at + retry
        invariant RetryFrom(server, at, 0) == Try(retry + RetryFrom(server, attempts, retry).used,
                                                  RetryFrom(server, attempts, retry).reply)
        decreases MaxRetry - retry
      {
        reply := server(attempts);
        attempts := attempts + 1;
        if !reply.HttpError? {
          return;
        }
        // the credentials are refreshed here
        retry := retry + 1;
        if retry > MaxRetry {
          return;
        }
      }
    }

    /** `get_all_values`: the whole table as a rectangle, every row filled up with empty cells to
        the widest, once the request is served. */
    method GetAllValues() returns (r: Result<Table>)
      modifies this`attempts
      ensures var t := RetryFrom(server, old(attempts), 0);
              attempts == old(attempts) + t.used
              && (r.Ok? <==> t.reply.Served?)
              && (r.Ok? ==> r.value == Padded(table))
    {
      var reply := Retry();
      if reply.Served? {
        r := Ok(Padded(table));
      } else if reply.HttpError? {
        r := Err(reply.details);
      } else {
        r := Err(reply.reason);
      }
    }

    /** `get_keys`: the first row; an empty worksheet has none and raises IndexError. */
    method GetKeys() returns (r: Result<seq<string>>)
      modifies this`attempts
      ensures var t := RetryFrom(server, old(attempts), 0);
              attempts == old(attempts) + t.used
              && (r.Ok? <==> t.reply.Served? && table != [])
              && (r.Ok? ==> r.value == Padded(table)[0])
    {
      var values := GetAllValues();
      if values.Err? {
        return Err(values.reason);
      }
      if values.value == [] {
        return Err("list index out of range");
      }
      r := Ok(values.value[0]);
    }

    /** The rest of `__init__`: the header is read once, and no other operation refreshes it. */
    method LoadKeys() returns (s: Status)
      modifies this`attempts, this`keys
      ensures var t := RetryFrom(server, old(attempts), 0);
              attempts == old(attempts) + t.used
              && (s.Done? <==> t.reply.Served? && table != [])
              && (s.Done? ==> keys == Padded(table)[0])
              && (s.Failed? ==> keys == old(keys))
    {
      var r := GetKeys();
      if r.Err? {
        return Failed(r.reason);
      }
      keys := r.value;
      s := Done;
    }

    /** `_update_cell`: the cell written once the request is served; an address below 1 is refused
        before any request. */
    method UpdateCell(row: int, col: int, value: string) returns (s: Status)
      modifies this`attempts, this`table, this`writes
      ensures row < 1 || col < 1 ==> s.Failed? && unchanged(this)
      ensures row >= 1 && col >= 1 ==>
                var t := RetryFrom(server, old(attempts), 0);
                attempts == old(attempts) + t.used
                && (s.Done? <==> t.reply.Served?)
                && (s.Done? ==> table == SetCell(old(table), row - 1, col - 1, value)
                                && writes == old(writes) + [Cell(row, col, value)])
                && (s.Failed? ==> table == old(table) && writes == old(writes))
    {
      if row < 1 || col < 1 {
        return Failed("incorrect cell label");
      }
      var reply := Retry();
      if !reply.Served? {
        return Failed(if reply.HttpError? then reply.details else reply.reason);
      }
      var c := Cell(row, col, value);
      table := Write(table, c);
      writes := writes + [c];
      s := Done;
    }

    /** The loops of the operations below: each cell written in order, stopping at the first write
        that raises. */
    method WriteAll(cells: seq<Cell>) returns (s: Status)
      modifies this`attempts, this`table, this`writes
      ensures var o := WriteOutcome(server, old(attempts), cells);
              Reached(o, old(table), old(attempts), old(writes)) && (s.Done? <==> o.ok)
    {
      ghost var o := WriteOutcome(server, attempts, cells);
      ghost var table0, at, writes0 := table, attempts, writes;
      ghost var done: seq<Cell>, used: nat := [], 0;
      var i := 0;
      s := Done;
      while i < |cells| && s.Done?
        invariant 0 <= i <= |cells|
        invariant table == ApplyCells(table0, done) && writes == writes0 + done && attempts == at + used
        invariant s.Done? ==> o == Then(done, used, WriteOutcome(server, attempts, cells[i..]))
        invariant s.Failed? ==> o == Applied(done, used, false)
        decreases |cells| - i
      {
        s, done, used := WriteNextCell(cells, i, o, table0, writes0, at, done, used);
        i := i + 1;
      }
      if s.Done? {
        assert cells[i..] == [] && done + [] == done;
        assert o == Applied(done, used, true);
      }
    }

    /** One turn of the `WriteAll` loop: cell `i` written, and the run so far extended by it. */
    method WriteNextCell(cells: seq<Cell>, i: nat, ghost o: Applied, ghost table0: Table,
                         ghost writes0: seq<Cell>, ghost at: nat, ghost done: seq<Cell>, ghost used: nat)
      returns (s: Status, ghost done': seq<Cell>, ghost used': nat)
      requires i < |cells|
      requires table == ApplyCells(table0, done) && writes == writes0 + done && attempts == at + used
      requires o == Then(done, used, WriteOutcome(server, attempts, cells[i..]))
      modifies this`attempts, this`table, this`writes
      ensures table == ApplyCells(table0, done') && writes == writes0 + done' && attempts == at + used'
      ensures s.Done? ==> o == Then(done', used', WriteOutcome(server, attempts, cells[i + 1..]))
      ensures s.Failed? ==> o == Applied(done', used', false)
    {
      ghost var a0 := attempts;
      var rest := cells[i..];
      assert rest[1..] == cells[i + 1..];
      s := WriteFirstCell(rest);
      ghost var u := attempts - a0;
      if s.Done? {
        ThenStep(o, done, used, WriteOutcome(server, a0, rest), [rest[0]], u,
                 WriteOutcome(server, attempts, cells[i + 1..]));
        ApplySnoc(table0, done, rest[0]);
        done' := done + [rest[0]];
      } else {
        assert done + [] == done;
        done' := done;
      }
      used' := used + u;
    }

    /** The first cell of a run written, as the run sees it. */
    method WriteFirstCell(cells: seq<Cell>) returns (s: Status)
      requires cells != []
      modifies this`attempts, this`table, this`writes
      ensures attempts >= old(attempts)
      ensures s.Done? ==> table == Write(old(table), cells[0]) && writes == old(writes) + [cells[0]]
                          && WriteOutcome(server, old(attempts), cells)
                             == Then([cells[0]], attempts - old(attempts), WriteOutcome(server, attempts, cells[1..]))
      ensures s.Failed? ==> table == old(table) && writes == old(writes)
                            && WriteOutcome(server, old(attempts), cells) == Applied([], attempts - old(attempts), false)
    {
      ghost var a0 := attempts;
      var c := cells[0];
      s := UpdateCell(c.row, c.col, c.value);
      if s.Done? {
        WriteFirstServed(server, a0, cells);
      } else {
        WriteFirstStops(server, a0, cells);
      }
    }

    /** `add_new_row`: the values written into the given row, or, when no row is given (None or
        0), into the row after the table. */
    method AddNewRow(rowData: seq<string>, row: int) returns (s: Status)
      modifies this`attempts, this`table, this`writes
      ensures var o := RowOutcome(server, old(attempts), |old(table)|, row, Numbered(rowData));
              Reached(o, old(table), old(attempts), old(writes)) && (s.Done? <==> o.ok)
    {
      s := WriteRow(Numbered(rowData), row);
    }

    /** `add_new_row_by_dict`: each header column whose key is in the dictionary gets that key's
        value, in the given row or the row after the table. */
    method AddNewRowByDict(dict: map<string, string>, row: int) returns (s: Status)
      modifies this`attempts, this`table, this`writes
      ensures var o := RowOutcome(server, old(attempts), |old(table)|, row, Columns(keys, dict));
              Reached(o, old(table), old(attempts), old(writes)) && (s.Done? <==> o.ok)
    {
      s := WriteRow(Columns(keys, dict), row);
    }

    /** The columns written into the target row of `add_new_row` and `add_new_row_by_dict`. */
    method WriteRow(cols: seq<Col>, row: int) returns (s: Status)
      modifies this`attempts, this`table, this`writes
      ensures var o := RowOutcome(server, old(attempts), |old(table)|, row, cols);
              Reached(o, old(table), old(attempts), old(writes)) && (s.Done? <==> o.ok)
    {
      var newRow := row;
      if row == 0 {
        var values := GetAllValues();
        if values.Err? {
          return Failed(values.reason);
        }
        newRow := |values.value| + 1;
      }
      s := WriteAll(DataCells(newRow, cols));
    }

    /** `search_update_by_dict`: in every row of the fetched table whose search columns hold the
        searched values, the data columns are written. */
    method SearchUpdateByDict(search: map<string, string>, data: map<string, string>) returns (s: Status)
      modifies this`attempts, this`table, this`writes
      ensures var o := FetchThenWrite(server, old(attempts), SearchPlan(Padded(old(table)), keys, search, data));
              Reached(o, old(table), old(attempts), old(writes)) && (s.Done? <==> o.ok)
    {
      var header := keys;
      s := FetchAndWrite(t => SearchPlan(t, header, search, data));
    }

    /** `rework_sheet`, with the addresses corrected: every cell of the fetched rectangle whose value
        in `data` differs is written at its own 1-based address (`ReworkPlan` is the code as
        written, which passes the 0-based indices). */
    method ReworkSheet(data: Table) returns (s: Status)
      modifies this`attempts, this`table, this`writes
      ensures var o := FetchThenWrite(server, old(attempts), ReworkPlanFixed(Padded(old(table)), data));
              Reached(o, old(table), old(attempts), old(writes)) && (s.Done? <==> o.ok)
    {
      s := FetchAndWrite(t => ReworkPlanFixed(t, data));
    }

    /** The table fetched, then the writes planned from it. */
    method FetchAndWrite(planOf: Table -> Planned) returns (s: Status)
      modifies this`attempts, this`table, this`writes
      ensures var o := FetchThenWrite(server, old(attempts), planOf(Padded(old(table))));
              Reached(o, old(table), old(attempts), old(writes)) && (s.Done? <==> o.ok)
    {
      ghost var t := RetryFrom(server, attempts, 0);
      ghost var a0, t0, w0 := attempts, table, writes;
      var values := GetAllValues();
      if values.Err? {
        assert FetchThenWrite(server, a0, planOf(Padded(t0))) == Applied([], t.used, false);
        assert ApplyCells(t0, []) == t0 && w0 + [] == w0;
        return Failed(values.reason);
      }
      var p := planOf(values.value);
      assert table == t0 && writes == w0;
      assert attempts == a0 + t.used && values.value == Padded(t0);
      ghost var w := WriteOutcome(server, a0 + t.used, p.cells);
      s := WritePlan(p);
      FetchedThenWrote(server, a0, p, w);
      assert Reached(Applied(w.writes, t.used + w.used, w.ok && p.error.None?), t0, a0, w0);
    }

    /** The planned cells written, then the exception the plan ends with raised. */
    method WritePlan(p: Planned) returns (s: Status)
      modifies this`attempts, this`table, this`writes
      ensures var o := WriteOutcome(server, old(attempts), p.cells);
              Reached(o, old(table), old(attempts), old(writes)) && (s.Done? <==> o.ok && p.error.None?)
    {
      s := WriteAll(p.cells);
      if s.Done? && p.error.Some? {
        s := Failed(p.error.value);
      }
    }
  }
}
