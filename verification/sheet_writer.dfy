/**
 * The spreadsheet pipeline: every product row becomes one row of the output
 * sheet. Row 0 holds the column names; a column is allocated the first time
 * a field name is seen, and the name-to-column map survives between runs.
 */
module SheetWriter {
  import opened Text
  import opened Dicts
  import opened Values

  /** A key of `headers`: a column name, or a (column, sub-column) pair. */
  datatype Header = Column(name: string) | SubColumn(group: string, sub: string)

  /**
   * A value of `headers`: a column index, or the (first column, number of
   * children) pair of a grouped column.
   */
  datatype Slot = Index(col: int) | Group(first: int, children: int)

  /** `sheet.merge(r1, r2, c1, c2)`: a merged cell range. */
  datatype Merge = Merge(r1: int, r2: int, c1: int, c2: int)

  /** The cells written so far, by (row, column). */
  type Cells = map<(int, int), Value>

  /** The pipeline's state: the header map, the two counters, the sheet's cells and merges. */
  datatype SheetState = SheetState(
    headers: map<Header, Slot>,
    colIndex: int,
    rowIndex: int,
    cells: Cells,
    merges: seq<Merge>)

  /** An output sheet left by an earlier run: its row and column counts and its cells. */
  datatype SheetFile = SheetFile(nrows: nat, ncols: nat, cells: Cells)

  /**
   * `open_spider` as written: a new sheet starts writing data at row 1 and
   * allocating at column 0; an existing sheet continues at its row count and
   * its column count.
   */
  function OpenedAsWritten(file: Option<SheetFile>, restored: map<Header, Slot>): SheetState {
    match file
    case None => SheetState(restored, 0, 1, map[], [])
    case Some(f) => SheetState(restored, f.ncols, f.nrows, f.cells, [])
  }

  /**
   * `open_spider` with data rows kept below the header row: an existing
   * sheet without any row continues at row 1, like a new one.
   */
  function Opened(file: Option<SheetFile>, restored: map<Header, Slot>): (s: SheetState)
    ensures s.rowIndex >= 1
    ensures s.headers == restored && s.merges == []
    ensures file.None? || file.value.nrows >= 1 ==> s == OpenedAsWritten(file, restored)
  {
    match file
    case None => SheetState(restored, 0, 1, map[], [])
    case Some(f) => SheetState(restored, f.ncols, if f.nrows == 0 then 1 else f.nrows, f.cells, [])
  }

  /** `add_column`: the name goes to row 0 of the next free column, which the header map records. */
  function AddColumnSpec(s: SheetState, name: string): SheetState {
    s.(cells := s.cells[(0, s.colIndex) := Str(name)],
       headers := s.headers[Column(name) := Index(s.colIndex)],
       colIndex := s.colIndex + 1)
  }

  /**
   * `add_sub_column`: the column must be a group (a missing one raises
   * KeyError, a plain column cannot be unpacked and raises TypeError; either
   * way nothing changes). The sub-column's name goes to row 1 of the group's
   * next child column, the group's header is merged over its children, and
   * the group counts one more child.
   */
  function AddSubColumnSpec(s: SheetState, col: string, sub: string): (SheetState, bool) {
    if Column(col) !in s.headers || s.headers[Column(col)].Index? then (s, false)
    else
      var ind := s.headers[Column(col)].first;
      var child := s.headers[Column(col)].children;
      (s.(cells := s.cells[(1, ind + child) := Str(sub)],
          headers := s.headers[SubColumn(col, sub) := Index(ind + child)][Column(col) := Group(ind, child + 1)],
          merges := s.merges + [Merge(0, 0, ind, ind + child)],
          colIndex := s.colIndex + 1), true)
  }

  /** The `key_subkey` column names of a dict field's items. */
  function SubItems(key: string, items: seq<(string, Value)>): (r: seq<(string, Value)>)
    ensures |r| == |items|
    ensures forall j | 0 <= j < |r| :: r[j] == (key + "_" + items[j].0, items[j].1)
  {
    seq(|items|, j requires 0 <= j < |items| => (key + "_" + items[j].0, items[j].1))
  }

  /** The (column name, value) pairs one field gives: a dict value is spread over one column per item. */
  function Expand(key: string, val: Value): seq<(string, Value)> {
    match val
    case Dict(items) => SubItems(key, items)
    case _ => [(key, val)]
  }

  /** The (column name, value) pairs of a row, in field order. */
  function Flatten(fields: seq<(string, Value)>): seq<(string, Value)>
    decreases |fields|
  {
    if fields == [] then []
    else
      var last := fields[|fields| - 1];
      Flatten(fields[..|fields| - 1]) + Expand(last.0, last.1)
  }

  lemma FlattenSnoc(fields: seq<(string, Value)>, i: nat)
    requires i < |fields|
    ensures Flatten(fields[..i + 1]) == Flatten(fields[..i]) + Expand(fields[i].0, fields[i].1)
  {
    assert fields[..i + 1][..i] == fields[..i];
  }

  /** Row data collected so far: a value for each column slot, in first-seen order. */
  type RowData = ODict<Slot, Value>

  /** One column name of `write_row`: the column is allocated if the name is new, then the value is recorded under its slot. */
  function GatherStep(g: (SheetState, RowData), key: string, val: Value): (r: (SheetState, RowData))
    requires g.1.Valid()
    ensures r.1.Valid()
  {
    var s := if Column(key) in g.0.headers then g.0 else AddColumnSpec(g.0, key);
    (s, g.1.Put(s.headers[Column(key)], val))
  }

  /** The first loop of `write_row`, continued from `g` over more pairs. */
  function GatherFrom(g: (SheetState, RowData), pairs: seq<(string, Value)>): (r: (SheetState, RowData))
    requires g.1.Valid()
    ensures r.1.Valid()
    decreases |pairs|
  {
    if pairs == [] then g
    else
      var last := pairs[|pairs| - 1];
      GatherStep(GatherFrom(g, pairs[..|pairs| - 1]), last.0, last.1)
  }

  /** The first loop of `write_row` over the flattened pairs. */
  function Gather(s: SheetState, pairs: seq<(string, Value)>): (r: (SheetState, RowData)) {
    GatherFrom((s, Empty()), pairs)
  }

  lemma GatherSnoc(g: (SheetState, RowData), pairs: seq<(string, Value)>, n: nat)
    requires g.1.Valid()
    requires n < |pairs|
    ensures GatherFrom(g, pairs[..n + 1]) == GatherStep(GatherFrom(g, pairs[..n]), pairs[n].0, pairs[n].1)
  {
    var p := pairs[..n + 1];
    assert p[..|p| - 1] == pairs[..n];
    assert p[|p| - 1] == pairs[n];
  }

  lemma GatherOne(g: (SheetState, RowData), key: string, val: Value)
    requires g.1.Valid()
    ensures GatherFrom(g, [(key, val)]) == GatherStep(g, key, val)
  {
    assert [(key, val)][..0] == [];
  }

  /** Gathering two runs of pairs one after the other. */
  lemma {:induction false} GatherAppend(g: (SheetState, RowData), a: seq<(string, Value)>, b: seq<(string, Value)>)
    requires g.1.Valid()
    ensures GatherFrom(g, a + b) == GatherFrom(GatherFrom(g, a), b)
    decreases |b|
  {
    if b == [] {
      assert a + b == a;
    } else {
      var b' := b[..|b| - 1];
      assert (a + b)[..|a + b| - 1] == a + b';
      GatherAppend(g, a, b');
    }
  }

  /** `val.strip()` for a string, any other value as it is. */
  function StripValue(v: Value): Value {
    if v.Str? then Str(Strip(v.s)) else v
  }

  /**
   * The second loop of `write_row`: each value goes to the current row at
   * its slot's column. A grouped slot is a pair, not a column index: writing
   * there raises, and the values after it are not written.
   */
  function WriteCells(s: SheetState, data: seq<(Slot, Value)>): (SheetState, bool)
    decreases |data|
  {
    if data == [] then (s, true)
    else
      var prev := WriteCells(s, data[..|data| - 1]);
      var last := data[|data| - 1];
      if !prev.1 then prev
      else
        match last.0
        case Index(c) => (prev.0.(cells := prev.0.cells[(prev.0.rowIndex, c) := StripValue(last.1)]), true)
        case Group(_, _) => (prev.0, false)
  }

  lemma WriteCellsSnoc(s: SheetState, data: seq<(Slot, Value)>, k: nat)
    requires k < |data|
    ensures WriteCells(s, data[..k + 1]) ==
      var prev := WriteCells(s, data[..k]);
      if !prev.1 then prev
      else
        match data[k].0
        case Index(c) => (prev.0.(cells := prev.0.cells[(prev.0.rowIndex, c) := StripValue(data[k].1)]), true)
        case Group(_, _) => (prev.0, false)
  {
    assert data[..k + 1][..k] == data[..k];
  }

  /** Once a write has raised, no later value changes anything. */
  lemma {:induction false} WriteCellsStuck(s: SheetState, data: seq<(Slot, Value)>, k: nat)
    requires k <= |data|
    requires !WriteCells(s, data[..k]).1
    ensures WriteCells(s, data) == WriteCells(s, data[..k])
    decreases |data| - k
  {
    if k < |data| {
      WriteCellsSnoc(s, data, k);
      WriteCellsStuck(s, data, k + 1);
    } else {
      assert data[..k] == data;
    }
  }

  /** `write_row`: gather the row data, write it to the current row, move to the next row. */
  function WriteRowSpec(s: SheetState, row: Record): (SheetState, bool)
    requires row.Valid()
  {
    var g := Gather(s, Flatten(Items(row)));
    var w := WriteCells(g.0, Items(g.1));
    if w.1 then (w.0.(rowIndex := w.0.rowIndex + 1), true) else w
  }

  /**
   * The allocation invariant: every header is a plain column below the
   * allocation counter whose name sits in row 0 of that column, and data
   * rows start below the header row. Two names therefore never share a column.
   */
  ghost predicate Allocated(s: SheetState) {
    && s.rowIndex >= 1 && s.colIndex >= 0
    && forall h | h in s.headers ::
      && h.Column? && s.headers[h].Index?
      && 0 <= s.headers[h].col < s.colIndex
      && (0, s.headers[h].col) in s.cells && s.cells[(0, s.headers[h].col)] == Str(h.name)
  }

  /** Every slot of the row data is a column index. */
  ghost predicate AllIndex(d: RowData) {
    forall sl | sl in d.vals :: sl.Index?
  }

  /**
   * `b` keeps the row counter, the merges, every header and every cell
   * outside row 0 of `a`, adds no cell outside row 0, and only moves the
   * column counter forward.
   */
  ghost predicate Extends(a: SheetState, b: SheetState) {
    && b.rowIndex == a.rowIndex && b.merges == a.merges && a.colIndex <= b.colIndex
    && (forall h | h in a.headers :: h in b.headers && b.headers[h] == a.headers[h])
    && (forall p | p in a.cells && p.0 != 0 :: p in b.cells && b.cells[p] == a.cells[p])
    && (forall p | p in b.cells && p.0 != 0 :: p in a.cells)
  }

  /** Some pair of `pairs` names column `name`. */
  ghost predicate Mentions(pairs: seq<(string, Value)>, name: string) {
    exists j | 0 <= j < |pairs| :: pairs[j].0 == name
  }

  /** `add_column` of a new name keeps the allocation invariant. */
  lemma AddColumnAllocated(s: SheetState, name: string)
    requires Allocated(s) && Column(name) !in s.headers
    ensures Allocated(AddColumnSpec(s, name))
    ensures Extends(s, AddColumnSpec(s, name))
  {
    var t := AddColumnSpec(s, name);
    forall h | h in t.headers
      ensures && h.Column? && t.headers[h].Index? && 0 <= t.headers[h].col < t.colIndex
              && (0, t.headers[h].col) in t.cells && t.cells[(0, t.headers[h].col)] == Str(h.name)
    {
      if h != Column(name) {
        assert t.headers[h] == s.headers[h];
        assert (0, s.headers[h].col) != (0, s.colIndex);
      }
    }
  }

  /** One gathering step keeps everything but row 0, gives the name a slot and records the value there. */
  lemma GatherStepExtends(g: (SheetState, RowData), key: string, val: Value)
    requires g.1.Valid()
    ensures Extends(g.0, GatherStep(g, key, val).0)
    ensures Column(key) in GatherStep(g, key, val).0.headers
    ensures GatherStep(g, key, val).1.vals == g.1.vals[GatherStep(g, key, val).0.headers[Column(key)] := val]
  {
    if Column(key) !in g.0.headers {
      var t := AddColumnSpec(g.0, key);
      assert forall p | p in t.cells && p.0 != 0 :: p in g.0.cells;
    }
  }

  lemma ExtendsTrans(a: SheetState, b: SheetState, c: SheetState)
    requires Extends(a, b) && Extends(b, c)
    ensures Extends(a, c)
  {
  }

  /** Gathering keeps everything but row 0 and leaves every named column allocated. */
  lemma GatherExtends(g: (SheetState, RowData), pairs: seq<(string, Value)>)
    requires g.1.Valid()
    ensures Extends(g.0, GatherFrom(g, pairs).0)
    ensures forall j | 0 <= j < |pairs| :: Column(pairs[j].0) in GatherFrom(g, pairs).0.headers
  {
    GatherKeeps(g, pairs);
    GatherNames(g, pairs);
  }

  /** Every gathered name has a header afterwards. */
  lemma {:induction false} GatherNames(g: (SheetState, RowData), pairs: seq<(string, Value)>)
    requires g.1.Valid()
    ensures forall j | 0 <= j < |pairs| :: Column(pairs[j].0) in GatherFrom(g, pairs).0.headers
    decreases |pairs|
  {
    if pairs != [] {
      var init := pairs[..|pairs| - 1];
      var last := pairs[|pairs| - 1];
      GatherNames(g, init);
      var prev := GatherFrom(g, init);
      var next := GatherStep(prev, last.0, last.1);
      assert GatherFrom(g, pairs) == next;
      assert prev.0.headers.Keys <= next.0.headers.Keys;
      forall j | 0 <= j < |pairs| ensures Column(pairs[j].0) in next.0.headers {
        if j < |init| {
          assert init[j] == pairs[j];
        }
      }
    }
  }

  /** Gathering keeps everything but row 0. */
  lemma {:induction false} GatherKeeps(g: (SheetState, RowData), pairs: seq<(string, Value)>)
    requires g.1.Valid()
    ensures Extends(g.0, GatherFrom(g, pairs).0)
    decreases |pairs|
  {
    if pairs != [] {
      var init := pairs[..|pairs| - 1];
      var last := pairs[|pairs| - 1];
      GatherKeeps(g, init);
      var prev := GatherFrom(g, init);
      GatherStepExtends(prev, last.0, last.1);
      var next := GatherStep(prev, last.0, last.1);
      assert GatherFrom(g, pairs) == next;
      ExtendsTrans(g.0, prev.0, next.0);
    }
  }

  /** Under the allocation invariant, a step on another name keeps that name's slot and the value recorded there. */
  lemma GatherStepOther(g: (SheetState, RowData), key: string, val: Value, name: string, v: Value)
    requires g.1.Valid() && Allocated(g.0)
    requires Column(name) in g.0.headers && name != key
    requires g.0.headers[Column(name)] in g.1.vals && g.1.vals[g.0.headers[Column(name)]] == v
    ensures Column(name) in GatherStep(g, key, val).0.headers
    ensures GatherStep(g, key, val).0.headers[Column(name)] in GatherStep(g, key, val).1.vals
    ensures GatherStep(g, key, val).1.vals[GatherStep(g, key, val).0.headers[Column(name)]] == v
  {
    var c := g.0.headers[Column(name)].col;
    GatherStepExtends(g, key, val);
    if Column(key) in g.0.headers {
      var k := g.0.headers[Column(key)].col;
      assert g.0.cells[(0, c)] == Str(name) && g.0.cells[(0, k)] == Str(key);
    }
  }

  /** Gathering keeps the allocation invariant. */
  lemma {:induction false} GatherAllocated(g: (SheetState, RowData), pairs: seq<(string, Value)>)
    requires g.1.Valid() && Allocated(g.0)
    ensures Allocated(GatherFrom(g, pairs).0)
    decreases |pairs|
  {
    if pairs != [] {
      var init := pairs[..|pairs| - 1];
      GatherAllocated(g, init);
      var prev := GatherFrom(g, init);
      var key := pairs[|pairs| - 1].0;
      if Column(key) !in prev.0.headers {
        AddColumnAllocated(prev.0, key);
      }
    }
  }

  /** Under the allocation invariant the row data is keyed by column indexes only. */
  lemma {:induction false} GatherIndexed(g: (SheetState, RowData), pairs: seq<(string, Value)>)
    requires g.1.Valid() && Allocated(g.0) && AllIndex(g.1)
    ensures AllIndex(GatherFrom(g, pairs).1)
    decreases |pairs|
  {
    if pairs != [] {
      var init := pairs[..|pairs| - 1];
      GatherIndexed(g, init);
      GatherAllocated(g, init);
      var prev := GatherFrom(g, init);
      var key := pairs[|pairs| - 1].0;
      if Column(key) !in prev.0.headers {
        AddColumnAllocated(prev.0, key);
      }
    }
  }

  /** Names that already have a column allocate nothing: a second row with the same fields leaves the header map alone. */
  lemma {:induction false} GatherKnown(g: (SheetState, RowData), pairs: seq<(string, Value)>)
    requires g.1.Valid()
    requires forall j | 0 <= j < |pairs| :: Column(pairs[j].0) in g.0.headers
    ensures GatherFrom(g, pairs).0 == g.0
    decreases |pairs|
  {
    if pairs != [] {
      GatherKnown(g, pairs[..|pairs| - 1]);
    }
  }

  /** Every column allocated while gathering is named by one of the pairs, and lies at or above the old counter. */
  lemma {:induction false} GatherNewNames(g: (SheetState, RowData), pairs: seq<(string, Value)>)
    requires g.1.Valid() && Allocated(g.0)
    ensures forall h | h in GatherFrom(g, pairs).0.headers && h !in g.0.headers ::
      && h.Column? && Mentions(pairs, h.name)
      && GatherFrom(g, pairs).0.headers[h].Index? && g.0.colIndex <= GatherFrom(g, pairs).0.headers[h].col
    decreases |pairs|
  {
    if pairs != [] {
      var init := pairs[..|pairs| - 1];
      var key := pairs[|pairs| - 1].0;
      GatherNewNames(g, init);
      GatherExtends(g, init);
      var prev := GatherFrom(g, init).0;
      var next := GatherFrom(g, pairs).0;
      assert next == GatherStep(GatherFrom(g, init), key, pairs[|pairs| - 1].1).0;
      forall h | h in next.headers && h !in g.0.headers
        ensures h.Column? && Mentions(pairs, h.name) && next.headers[h].Index? && g.0.colIndex <= next.headers[h].col
      {
        if h in prev.headers {
          var j :| 0 <= j < |init| && init[j].0 == h.name;
          assert pairs[j].0 == h.name;
        } else {
          assert h == Column(key) && pairs[|pairs| - 1].0 == h.name;
        }
      }
    }
  }

  /**
   * The columns from the old counter up to the new one are all allocated,
   * without a gap: each holds in row 0 a name that the header map sends to it.
   */
  lemma {:induction false} GatherGapFree(g: (SheetState, RowData), pairs: seq<(string, Value)>)
    requires g.1.Valid() && Allocated(g.0)
    ensures forall c | g.0.colIndex <= c < GatherFrom(g, pairs).0.colIndex ::
      && (0, c) in GatherFrom(g, pairs).0.cells
      && GatherFrom(g, pairs).0.cells[(0, c)].Str?
      && Column(GatherFrom(g, pairs).0.cells[(0, c)].s) in GatherFrom(g, pairs).0.headers
      && GatherFrom(g, pairs).0.headers[Column(GatherFrom(g, pairs).0.cells[(0, c)].s)] == Index(c)
    decreases |pairs|
  {
    if pairs != [] {
      var init := pairs[..|pairs| - 1];
      var key := pairs[|pairs| - 1].0;
      GatherGapFree(g, init);
      GatherAllocated(g, init);
      var prev := GatherFrom(g, init).0;
      var next := GatherFrom(g, pairs).0;
      assert next == GatherStep(GatherFrom(g, init), key, pairs[|pairs| - 1].1).0;
      if Column(key) !in prev.headers {
        assert next == AddColumnSpec(prev, key);
        forall c | g.0.colIndex <= c < next.colIndex
          ensures && (0, c) in next.cells && next.cells[(0, c)].Str?
                  && Column(next.cells[(0, c)].s) in next.headers
                  && next.headers[Column(next.cells[(0, c)].s)] == Index(c)
        {
          if c < prev.colIndex {
            assert next.cells[(0, c)] == prev.cells[(0, c)];
            assert Column(prev.cells[(0, c)].s) != Column(key);
          }
        }
      }
    }
  }

  /** A pair that no later pair overrides leaves its value under its column's slot. */
  lemma {:induction false} GatherData(g: (SheetState, RowData), pairs: seq<(string, Value)>, j: nat)
    requires g.1.Valid() && Allocated(g.0)
    requires j < |pairs|
    requires forall k | j < k < |pairs| :: pairs[k].0 != pairs[j].0
    ensures Column(pairs[j].0) in GatherFrom(g, pairs).0.headers
    ensures GatherFrom(g, pairs).0.headers[Column(pairs[j].0)] in GatherFrom(g, pairs).1.vals
    ensures GatherFrom(g, pairs).1.vals[GatherFrom(g, pairs).0.headers[Column(pairs[j].0)]] == pairs[j].1
    decreases |pairs|
  {
    var init := pairs[..|pairs| - 1];
    var last := pairs[|pairs| - 1];
    var prev := GatherFrom(g, init);
    assert GatherFrom(g, pairs) == GatherStep(prev, last.0, last.1);
    if j < |pairs| - 1 {
      assert init[j] == pairs[j];
      GatherData(g, init, j);
      GatherAllocated(g, init);
      GatherStepOther(prev, last.0, last.1, pairs[j].0, pairs[j].1);
    } else {
      GatherStepExtends(prev, last.0, last.1);
    }
  }

  /** The write loop changes cells only, whatever happens. */
  lemma {:induction false} WriteCellsFrame(s: SheetState, data: seq<(Slot, Value)>)
    ensures WriteCells(s, data).0 == s.(cells := WriteCells(s, data).0.cells)
    decreases |data|
  {
    if data != [] {
      WriteCellsFrame(s, data[..|data| - 1]);
    }
  }

  /**
   * Writing data keyed by distinct column indexes reports success (no slot is
   * a group to unpack; xlwt's index limits are not modelled); each value,
   * stripped, lands in the current row at its column, and no other row changes.
   */
  lemma {:induction false} WriteCellsIndex(s: SheetState, data: seq<(Slot, Value)>)
    requires forall j | 0 <= j < |data| :: data[j].0.Index?
    requires forall i, j | 0 <= i < j < |data| :: data[i].0 != data[j].0
    ensures WriteCells(s, data).1
    ensures forall j | 0 <= j < |data| ::
      && (s.rowIndex, data[j].0.col) in WriteCells(s, data).0.cells
      && WriteCells(s, data).0.cells[(s.rowIndex, data[j].0.col)] == StripValue(data[j].1)
    ensures forall p | p in s.cells && p.0 != s.rowIndex ::
      p in WriteCells(s, data).0.cells && WriteCells(s, data).0.cells[p] == s.cells[p]
    ensures forall p | p in WriteCells(s, data).0.cells && p.0 != s.rowIndex :: p in s.cells
    decreases |data|
  {
    if data != [] {
      var init := data[..|data| - 1];
      WriteCellsIndex(s, init);
      WriteCellsFrame(s, init);
      var last := data[|data| - 1];
      var prev := WriteCells(s, init);
      assert prev.1 && prev.0.rowIndex == s.rowIndex;
      var cells := prev.0.cells[(s.rowIndex, last.0.col) := StripValue(last.1)];
      assert WriteCells(s, data) == (prev.0.(cells := cells), true);
      var r := WriteCells(s, data).0;
      forall j | 0 <= j < |data|
        ensures (s.rowIndex, data[j].0.col) in r.cells && r.cells[(s.rowIndex, data[j].0.col)] == StripValue(data[j].1)
      {
        if j < |init| {
          assert init[j] == data[j];
          assert data[j].0.col != last.0.col;
        }
      }
    }
  }

  /** Gathering from the allocation invariant keeps it, keys the row data by column indexes and keeps everything but row 0. */
  lemma GatherAllocatedIndexed(s: SheetState, pairs: seq<(string, Value)>)
    requires Allocated(s)
    ensures Allocated(Gather(s, pairs).0) && AllIndex(Gather(s, pairs).1) && Extends(s, Gather(s, pairs).0)
  {
    assert AllIndex(Empty<Slot, Value>());
    GatherKeeps((s, Empty()), pairs);
    GatherAllocated((s, Empty()), pairs);
    GatherIndexed((s, Empty()), pairs);
  }

  /**
   * `write_row` on an allocated sheet: the model reports success (xlwt's
   * index limits are not modelled), keeps the invariant and every header,
   * moves to the next row, and leaves every row other than the header row
   * and the row written as it was.
   */
  lemma WriteRowAllocated(s: SheetState, row: Record)
    requires row.Valid() && Allocated(s)
    ensures WriteRowSpec(s, row).1
    ensures Allocated(WriteRowSpec(s, row).0)
    ensures WriteRowSpec(s, row).0.rowIndex == s.rowIndex + 1
    ensures forall h | h in s.headers :: h in WriteRowSpec(s, row).0.headers && WriteRowSpec(s, row).0.headers[h] == s.headers[h]
    ensures forall p | p in s.cells && p.0 != 0 && p.0 != s.rowIndex ::
      p in WriteRowSpec(s, row).0.cells && WriteRowSpec(s, row).0.cells[p] == s.cells[p]
    ensures forall p | p in WriteRowSpec(s, row).0.cells && p.0 != 0 && p.0 != s.rowIndex :: p in s.cells
  {
    var pairs := Flatten(Items(row));
    var g := Gather(s, pairs);
    GatherAllocatedIndexed(s, pairs);
    var data := Items(g.1);
    ItemsKeys(g.1);
    WriteCellsIndex(g.0, data);
    WriteCellsFrame(g.0, data);
    var w := WriteCells(g.0, data).0;
    assert WriteRowSpec(s, row) == (w.(rowIndex := w.rowIndex + 1), true);
    assert forall h | h in w.headers :: (0, w.headers[h].col) != (s.rowIndex, w.headers[h].col);
  }

  /** `write_row` keeps the allocation invariant and does not raise on an allocated sheet. */
  lemma WriteRowKeepsAllocated(s: SheetState, row: Record)
    requires row.Valid()
    ensures Allocated(s) ==> WriteRowSpec(s, row).1 && Allocated(WriteRowSpec(s, row).0)
  {
    if Allocated(s) {
      WriteRowAllocated(s, row);
    }
  }

  /**
   * After `write_row` on an allocated sheet, the value of each column name
   * (the last one, when a name repeats) sits stripped in the row written,
   * at that name's column.
   */
  lemma WriteRowValues(s: SheetState, row: Record, j: nat)
    requires row.Valid() && Allocated(s)
    requires j < |Flatten(Items(row))|
    requires forall k | j < k < |Flatten(Items(row))| :: Flatten(Items(row))[k].0 != Flatten(Items(row))[j].0
    ensures Column(Flatten(Items(row))[j].0) in WriteRowSpec(s, row).0.headers
    ensures WriteRowSpec(s, row).0.headers[Column(Flatten(Items(row))[j].0)].Index?
    ensures var c := WriteRowSpec(s, row).0.headers[Column(Flatten(Items(row))[j].0)].col;
      (s.rowIndex, c) in WriteRowSpec(s, row).0.cells
      && WriteRowSpec(s, row).0.cells[(s.rowIndex, c)] == StripValue(Flatten(Items(row))[j].1)
  {
    var pairs := Flatten(Items(row));
    var g := Gather(s, pairs);
    assert AllIndex(Empty<Slot, Value>());
    GatherData((s, Empty()), pairs, j);
    GatherIndexed((s, Empty()), pairs);
    GatherExtends((s, Empty()), pairs);
    var slot := g.0.headers[Column(pairs[j].0)];
    WriteDataCell(g.0, g.1, slot);
  }

  /** Writing row data keyed by column indexes puts each value, stripped, in the current row at its column. */
  lemma WriteDataCell(s: SheetState, d: RowData, slot: Slot)
    requires d.Valid() && AllIndex(d) && slot in d.vals
    ensures WriteCells(s, Items(d)).1
    ensures WriteCells(s, Items(d)).0 == s.(cells := WriteCells(s, Items(d)).0.cells)
    ensures (s.rowIndex, slot.col) in WriteCells(s, Items(d)).0.cells
    ensures WriteCells(s, Items(d)).0.cells[(s.rowIndex, slot.col)] == StripValue(d.vals[slot])
  {
    var data := Items(d);
    var k := Dicts.IndexOf(d.keys, slot);
    assert data[k] == (slot, d.vals[slot]);
    ItemsKeys(d);
    WriteCellsIndex(s, data);
    WriteCellsFrame(s, data);
  }

  /**
   * A row whose column names all have columns already allocates nothing:
   * the header map and the column counter stay as they were.
   */
  lemma WriteRowKnown(s: SheetState, row: Record)
    requires row.Valid()
    requires forall j | 0 <= j < |Flatten(Items(row))| :: Column(Flatten(Items(row))[j].0) in s.headers
    ensures WriteRowSpec(s, row).0.headers == s.headers
    ensures WriteRowSpec(s, row).0.colIndex == s.colIndex
  {
    var pairs := Flatten(Items(row));
    GatherKnown((s, Empty()), pairs);
    WriteCellsFrame(s, Items(Gather(s, pairs).1));
  }

  /**
   * A row with one new plain field: its name goes to row 0 of the next free
   * column, then its value goes to the current row of that column.
   */
  lemma WriteRowSingle(s: SheetState, key: string, v: Value)
    requires !v.Dict? && Column(key) !in s.headers
    ensures WriteRowSpec(s, ODict([key], map[key := v])).1
    ensures WriteRowSpec(s, ODict([key], map[key := v])).0.cells
      == s.cells[(0, s.colIndex) := Str(key)][(s.rowIndex, s.colIndex) := StripValue(v)]
  {
    var row: Record := ODict([key], map[key := v]);
    var pairs := [(key, v)];
    FlattenSingle(key, v);
    GatherSingle(s, key, v);
    var g := Gather(s, pairs);
    var data := [(Index(s.colIndex), v)];
    ItemsSingle(Index(s.colIndex), v);
    WriteCellsSingle(g.0, s.colIndex, v);
    WriteRowSpecOf(s, row, pairs, data);
  }

  /** `write_row` from its two loops' results, when writing does not raise. */
  lemma WriteRowSpecOf(s: SheetState, row: Record, pairs: seq<(string, Value)>, data: seq<(Slot, Value)>)
    requires row.Valid() && Flatten(Items(row)) == pairs && Items(Gather(s, pairs).1) == data
    requires WriteCells(Gather(s, pairs).0, data).1
    ensures WriteRowSpec(s, row).1
    ensures WriteRowSpec(s, row).0.cells == WriteCells(Gather(s, pairs).0, data).0.cells
  {
    var g := Gather(s, Flatten(Items(row)));
    assert g == Gather(s, pairs);
    assert WriteCells(g.0, Items(g.1)) == WriteCells(Gather(s, pairs).0, data);
  }

  lemma ItemsSingle<K, V>(k: K, v: V)
    ensures Items(ODict([k], map[k := v])) == [(k, v)]
  {
    assert ODict([k], map[k := v]).Valid();
  }

  lemma FlattenSingle(key: string, v: Value)
    requires !v.Dict?
    ensures Flatten(Items(ODict([key], map[key := v]))) == [(key, v)]
  {
    ItemsSingle(key, v);
    assert [(key, v)][..0] == [];
  }

  lemma GatherSingle(s: SheetState, key: string, v: Value)
    requires Column(key) !in s.headers
    ensures Gather(s, [(key, v)]) == (AddColumnSpec(s, key), ODict([Index(s.colIndex)], map[Index(s.colIndex) := v]))
  {
    GatherOne((s, Empty()), key, v);
    var e: RowData := Empty();
    var c := Index(s.colIndex);
    assert e.Put(c, v).keys == [] + [c] == [c];
    assert e.Put(c, v).vals == map[][c := v] == map[c := v];
  }

  lemma WriteCellsSingle(t: SheetState, c: int, v: Value)
    ensures WriteCells(t, [(Index(c), v)]) == (t.(cells := t.cells[(t.rowIndex, c) := StripValue(v)]), true)
  {
    var data := [(Index(c), v)];
    WriteCellsSnoc(t, data, 0);
    assert data[..1] == data && data[..0] == [];
  }

  /** A new sheet with no restored header map starts allocated. */
  lemma OpenedNewAllocated()
    ensures Allocated(OpenedAsWritten(None, map[]))
  {
  }

  /**
   * Resuming from an existing sheet starts allocated when the sheet has at
   * least its header row and every restored header is a plain column below
   * the sheet's column count whose name sits in row 0 of that column.
   */
  lemma OpenedResumedAllocated(f: SheetFile, restored: map<Header, Slot>)
    requires f.nrows >= 1
    requires forall h | h in restored ::
      && h.Column? && restored[h].Index? && 0 <= restored[h].col < f.ncols
      && (0, restored[h].col) in f.cells && f.cells[(0, restored[h].col)] == Str(h.name)
    ensures Allocated(OpenedAsWritten(Some(f), restored))
  {
  }

  /**
   * `add_sub_column` on a grouped column: the sub-column gets the group's
   * next child column, named in row 1 and merged under the group's header;
   * the group counts one more child, the column counter moves on by one,
   * and every other header and the row counter stay as they were.
   */
  lemma AddSubColumnGroup(s: SheetState, col: string, sub: string)
    requires Column(col) in s.headers && s.headers[Column(col)].Group?
    ensures var (t, ok) := AddSubColumnSpec(s, col, sub);
      var g := s.headers[Column(col)];
      && ok
      && t.rowIndex == s.rowIndex && t.colIndex == s.colIndex + 1
      && t.headers[Column(col)] == Group(g.first, g.children + 1)
      && t.headers[SubColumn(col, sub)] == Index(g.first + g.children)
      && t.headers.Keys == s.headers.Keys + {SubColumn(col, sub)}
      && (forall h | h in s.headers && h != Column(col) && h != SubColumn(col, sub) :: t.headers[h] == s.headers[h])
      && t.cells == s.cells[(1, g.first + g.children) := Str(sub)]
      && t.merges == s.merges + [Merge(0, 0, g.first, g.first + g.children)]
  {
  }

  /**
   * On an allocated sheet no header is a group, so `add_sub_column` always
   * raises and changes nothing.
   */
  lemma AddSubColumnAllocated(s: SheetState, col: string, sub: string)
    requires Allocated(s)
    ensures AddSubColumnSpec(s, col, sub) == (s, false)
  {
  }

  /**
   * Resuming from an existing sheet that has no row at all, as written, puts
   * the first product into row 0: its value replaces the column's name.
   */
  lemma ResumedEmptySheetLosesHeader()
    ensures var w := WriteRowSpec(OpenedAsWritten(Some(SheetFile(0, 0, map[])), map[]), ODict(["id"], map["id" := Int(7)])).0;
      (0, 0) in w.cells && w.cells[(0, 0)] == Int(7)
  {
    var s := OpenedAsWritten(Some(SheetFile(0, 0, map[])), map[]);
    assert s.rowIndex == 0 && s.colIndex == 0 && s.headers == map[];
    WriteRowSingle(s, "id", Int(7));
  }

  /** With data rows kept below the header row, the column's name stays in row 0. */
  lemma ResumedEmptySheetKeepsHeader()
    ensures var w := WriteRowSpec(Opened(Some(SheetFile(0, 0, map[])), map[]), ODict(["id"], map["id" := Int(7)])).0;
      (0, 0) in w.cells && w.cells[(0, 0)] == Str("id")
  {
    var s := Opened(Some(SheetFile(0, 0, map[])), map[]);
    assert s.rowIndex == 1 && s.colIndex == 0 && s.headers == map[];
    WriteRowSingle(s, "id", Int(7));
  }

  class UltrabookReviewPipeline {
    /** Column name (or group and sub-column) to its slot. */
    var headers: map<Header, Slot>
    /** The next column to allocate. */
    var colIndex: int
    /** The row the next product goes to. */
    var rowIndex: int
    var cells: Cells
    var merges: seq<Merge>

    function State(): SheetState
      reads this
    {
      SheetState(headers, colIndex, rowIndex, cells, merges)
    }

    /**
     * `open_spider`, given the header map restored from the earlier run
     * (empty when there is none) and the existing output sheet, if any.
     */
    constructor (file: Option<SheetFile>, restored: map<Header, Slot>)
      ensures State() == OpenedAsWritten(file, restored)
    {
      headers := restored;
      merges := [];
      match file {
        case None =>
          rowIndex, colIndex, cells := 1, 0, map[];
        case Some(f) =>
          rowIndex, colIndex, cells := f.nrows, f.ncols, f.cells;
      }
    }

    method AddColumn(name: string)
      modifies this
      ensures State() == AddColumnSpec(old(State()), name)
    {
      cells := cells[(0, colIndex) := Str(name)];
      headers := headers[Column(name) := Index(colIndex)];
      colIndex := colIndex + 1;
    }

    method AddSubColumn(col: string, sub: string) returns (ok: bool)
      modifies this
      ensures (State(), ok) == AddSubColumnSpec(old(State()), col, sub)
    {
      if Column(col) !in headers || headers[Column(col)].Index? {
        return false;
      }
      var ind, child := headers[Column(col)].first, headers[Column(col)].children;
      cells := cells[(1, ind + child) := Str(sub)];
      headers := headers[SubColumn(col, sub) := Index(ind + child)];
      merges := merges + [Merge(0, 0, ind, ind + child)];
      headers := headers[Column(col) := Group(ind, child + 1)];
      colIndex := colIndex + 1;
      ok := true;
    }

    /**
     * `write_row` (what `process_item` does with the item's row); on an
     * allocated sheet the model reports success and the sheet stays
     * allocated (xlwt's index limits are not modelled).
     */
    method WriteRow(row: Record) returns (ok: bool)
      requires row.Valid()
      modifies this
      ensures (State(), ok) == WriteRowSpec(old(State()), row)
      ensures Allocated(old(State())) ==> ok && Allocated(State())
    {
      ghost var s0 := State();
      ghost var fields := Items(row);
      var rowData: RowData := Empty();
      var i := 0;
      while i < |row.keys|
        invariant 0 <= i <= |row.keys|
        invariant rowData.Valid()
        invariant (State(), rowData) == Gather(s0, Flatten(fields[..i]))
      {
        rowData := CollectField(row, i, rowData, s0);
        i := i + 1;
      }
      assert fields[..i] == fields;
      ok := WriteData(Items(rowData));
      if ok {
        rowIndex := rowIndex + 1;
      }
      WriteRowKeepsAllocated(s0, row);
    }

    /** One field of `write_row`: a dict value is spread over its `key_subkey` columns, any other value goes to the field's column. */
    method CollectField(row: Record, i: nat, rowData: RowData, ghost s0: SheetState) returns (r: RowData)
      requires row.Valid() && i < |row.keys| && rowData.Valid()
      requires (State(), rowData) == Gather(s0, Flatten(Items(row)[..i]))
      modifies this
      ensures r.Valid()
      ensures (State(), r) == Gather(s0, Flatten(Items(row)[..i + 1]))
    {
      ghost var fields := Items(row);
      var key := row.keys[i];
      var val := row.vals[key];
      FlattenSnoc(fields, i);
      assert fields[i] == (key, val);
      GatherAppend((s0, Empty()), Flatten(fields[..i]), Expand(key, val));
      match val {
        case Dict(subs) =>
          assert Expand(key, val) == SubItems(key, subs);
          r := CollectAll(SubItems(key, subs), rowData);
        case _ =>
          GatherOne((State(), rowData), key, val);
          r := Collect(key, val, rowData);
      }
    }

    /** The inner loop of `write_row` over a dict field's `key_subkey` pairs. */
    method CollectAll(pairs: seq<(string, Value)>, rowData: RowData) returns (r: RowData)
      requires rowData.Valid()
      modifies this
      ensures (State(), r) == GatherFrom((old(State()), rowData), pairs)
    {
      ghost var g := (State(), rowData);
      r := rowData;
      var j := 0;
      while j < |pairs|
        invariant 0 <= j <= |pairs|
        invariant r.Valid()
        invariant (State(), r) == GatherFrom(g, pairs[..j])
      {
        GatherSnoc(g, pairs, j);
        r := Collect(pairs[j].0, pairs[j].1, r);
        j := j + 1;
      }
      assert pairs[..j] == pairs;
    }

    /** The column is allocated if the name is new; the value is recorded under the column's slot. */
    method Collect(key: string, val: Value, rowData: RowData) returns (r: RowData)
      requires rowData.Valid()
      modifies this
      ensures (State(), r) == GatherStep((old(State()), rowData), key, val)
    {
      if Column(key) !in headers {
        AddColumn(key);
      }
      r := rowData.Put(headers[Column(key)], val);
    }

    /** The second loop of `write_row`: the row data goes to the current row. */
    method WriteData(data: seq<(Slot, Value)>) returns (ok: bool)
      modifies this
      ensures (State(), ok) == WriteCells(old(State()), data)
    {
      ghost var g := State();
      var k := 0;
      while k < |data|
        invariant 0 <= k <= |data|
        invariant (State(), true) == WriteCells(g, data[..k])
      {
        WriteCellsSnoc(g, data, k);
        match data[k].0 {
          case Index(c) =>
            cells := cells[(rowIndex, c) := StripValue(data[k].1)];
          case Group(_, _) =>
            WriteCellsStuck(g, data, k + 1);
            return false;
        }
        k := k + 1;
      }
      assert data[..k] == data;
      ok := true;
    }
  }
}
