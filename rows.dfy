/**
 * Reconstruction of CQL rows from the storage rows a query returns: one
 * row per partition for static tables, one row per run of cells sharing a
 * clustering prefix for sparse tables, one row per cell for compact
 * tables; then reversal, the limit, and the single-row count result.
 */
module Rows {
  import opened Wrappers
  import opened Schema
  import opened Statements
  import Compiler
  import CompilerLemmas

  /** A storage cell: its full name, value, timestamp, tombstone flag and counter flag. */
  datatype Cell = Cell(name: Bytes, value: Bytes, timestamp: int, deleted: bool, counter: bool)

  /** A storage row: the partition key and its cells in comparator order, if any were found. */
  datatype StorageRow = StorageRow(key: Bytes, cf: Option<seq<Cell>>)

  /**
   * The comparator-dependent services the reconstruction calls: splitting
   * a composite name into its components, and the total of a counter.
   */
  datatype Codec = Codec(split: Bytes -> seq<Bytes>, total: Bytes -> int)

  /** A result column; an unset value or timestamp is `None`. */
  datatype Column = Column(name: Bytes, value: Option<Bytes>, timestamp: Option<int>)

  datatype CqlRow = CqlRow(key: Bytes, columns: seq<Column>)

  function Last<T>(s: seq<T>): T
    requires s != []
  {
    s[|s| - 1]
  }

  // ---- 64-bit big-endian encoding (ByteBufferUtil.bytes(long)) ----

  function Pow256(k: nat): (p: nat)
    ensures p > 0
  {
    if k == 0 then 1 else 256 * Pow256(k - 1)
  }

  const TWO_63: nat := 0x8000_0000_0000_0000
  const TWO_64: nat := 0x1_0000_0000_0000_0000

  lemma Pow256Eight()
    ensures Pow256(8) == TWO_64
  {
    assert Pow256(2) == 0x1_0000;
    assert Pow256(4) == 0x1_0000_0000;
    assert Pow256(6) == 0x1_0000_0000_0000;
  }

  /** The low `k` bytes of `u`, most significant first. */
  function BigEndian(u: nat, k: nat): (b: Bytes)
    ensures |b| == k
  {
    if k == 0 then [] else BigEndian(u / 256, k - 1) + [(u % 256) as Byte]
  }

  function FromBigEndian(b: Bytes): (u: nat)
    ensures u < Pow256(|b|)
  {
    if b == [] then 0
    else
      var high := FromBigEndian(b[..|b| - 1]);
      assert high * 256 <= (Pow256(|b| - 1) - 1) * 256;
      high * 256 + b[|b| - 1] as nat
  }

  lemma {:induction false} BigEndianRoundTrip(u: nat, k: nat)
    requires u < Pow256(k)
    ensures FromBigEndian(BigEndian(u, k)) == u
  {
    if k > 0 {
      var q, r := u / 256, u % 256;
      var b := BigEndian(u, k);
      assert b[..k - 1] == BigEndian(q, k - 1);
      QuotientBound(u, Pow256(k - 1));
      BigEndianRoundTrip(q, k - 1);
      assert b[k - 1] == r as Byte;
      assert FromBigEndian(b) == q * 256 + r;
    }
  }

  lemma QuotientBound(u: nat, p: nat)
    requires u < 256 * p
    ensures u / 256 < p
  {
  }

  /** A long as eight bytes, two's complement, most significant first. */
  function EncodeLong(n: int): (b: Bytes)
    ensures |b| == 8
  {
    BigEndian(n % TWO_64, 8)
  }

  function DecodeLong(b: Bytes): (n: int)
    requires |b| == 8
    ensures -(TWO_63 as int) <= n < TWO_63
  {
    Pow256Eight();
    var u := FromBigEndian(b);
    if u >= TWO_63 then u - TWO_64 else u
  }

  lemma LongRoundTrip(n: int)
    requires -(TWO_63 as int) <= n < TWO_63
    ensures DecodeLong(EncodeLong(n)) == n
  {
    Pow256Eight();
    BigEndianRoundTrip(n % TWO_64, 8);
  }

  /** The value a cell shows: a counter's total as a long, otherwise the stored bytes. */
  function CellValue(c: Cell, codec: Codec): (v: Bytes)
    ensures !c.counter ==> v == c.value
    ensures c.counter && -(TWO_63 as int) <= codec.total(c.value) < TWO_63 ==>
      |v| == 8 && DecodeLong(v) == codec.total(c.value)
  {
    if c.counter then
      var n := codec.total(c.value);
      if -(TWO_63 as int) <= n < TWO_63 then LongRoundTrip(n); EncodeLong(n) else EncodeLong(n)
    else c.value
  }

  // ---- cells ----

  /** The cells that are not tombstones, in order. */
  function Live(cells: seq<Cell>): seq<Cell> {
    if cells == [] then []
    else
      var init := cells[..|cells| - 1];
      if Last(cells).deleted then Live(init) else Live(init) + [Last(cells)]
  }

  /** The cells kept are exactly the cells that are not tombstones. */
  lemma {:induction false} LiveMembers(cells: seq<Cell>)
    ensures forall c <- Live(cells) :: c in cells && !c.deleted
    ensures forall c <- cells :: !c.deleted ==> c in Live(cells)
  {
    if cells != [] {
      var init := cells[..|cells| - 1];
      assert cells == init + [Last(cells)];
      LiveMembers(init);
    }
  }

  lemma {:induction false} LiveAppend(a: seq<Cell>, b: seq<Cell>)
    ensures Live(a + b) == Live(a) + Live(b)
    decreases |b|
  {
    if b != [] {
      var b' := b[..|b| - 1];
      assert (a + b)[..|a + b| - 1] == a + b';
      LiveAppend(a, b');
    } else {
      assert a + b == a;
    }
  }

  lemma {:induction false} LiveIdempotent(cells: seq<Cell>)
    ensures Live(Live(cells)) == Live(cells)
  {
    if cells != [] {
      var init := cells[..|cells| - 1];
      LiveIdempotent(init);
      if !Last(cells).deleted {
        LiveAppend(Live(init), [Last(cells)]);
        assert [Last(cells)][..0] == [];
      }
    }
  }

  /** The first cell with the given name (ColumnFamily.getColumn). */
  function FindCell(cells: seq<Cell>, name: Bytes): (r: Option<Cell>)
    ensures r.Some? ==> r.value in cells && r.value.name == name
    ensures r.None? <==> forall c <- cells :: c.name != name
  {
    if cells == [] then None
    else if cells[0].name == name then Some(cells[0])
    else FindCell(cells[1..], name)
  }

  /** No two cells share a name, as in a column family. */
  predicate UniqueNames(cells: seq<Cell>) {
    forall i, j | 0 <= i < j < |cells| :: cells[i].name != cells[j].name
  }

  // ---- static tables ----

  /** The column a static row shows for one selected name; none for a data name of a missing row. */
  function StaticColumn(s: Selected, row: StorageRow, codec: Codec): seq<Column> {
    if s.name.kind == KeyAlias then [Column(s.alias, Some(row.key), Some(-1))]
    else if row.cf.None? then []
    else
      match FindCell(row.cf.value, s.name.id)
      case Some(c) =>
        if !c.deleted then [Column(s.name.id, Some(CellValue(c, codec)), Some(c.timestamp))]
        else [Column(s.name.id, None, None)]
      case None => [Column(s.name.id, None, None)]
  }

  function StaticColumns(sel: seq<Selected>, row: StorageRow, codec: Codec): seq<Column> {
    if sel == [] then []
    else StaticColumns(sel[..|sel| - 1], row, codec) + StaticColumn(Last(sel), row, codec)
  }

  /** The single CQL row of a static-table partition. */
  function StaticRow(sel: seq<Selected>, row: StorageRow, codec: Codec): CqlRow {
    CqlRow(row.key, StaticColumns(sel, row, codec))
  }

  method BuildStaticRow(sel: seq<Selected>, row: StorageRow, codec: Codec) returns (r: CqlRow)
    ensures r == StaticRow(sel, row, codec)
  {
    var columns: seq<Column> := [];
    var i := 0;
    while i < |sel|
      invariant 0 <= i <= |sel|
      invariant columns == StaticColumns(sel[..i], row, codec)
    {
      assert sel[..i + 1][..i] == sel[..i];
      var name := sel[i].name;
      if name.kind == KeyAlias {
        columns := columns + [Column(sel[i].alias, Some(row.key), Some(-1))];
      } else if row.cf.Some? {
        var c := FindCell(row.cf.value, name.id);
        if c.Some? && !c.value.deleted {
          columns := columns + [Column(name.id, Some(CellValue(c.value, codec)), Some(c.value.timestamp))];
        } else {
          columns := columns + [Column(name.id, None, None)];
        }
      }
      i := i + 1;
    }
    assert sel[..i] == sel;
    return CqlRow(row.key, columns);
  }

  /**
   * A static row has one column per selected name, in selection order,
   * when the partition was found, and only its key columns otherwise. A
   * data column is set exactly when a live cell of that name exists.
   */
  lemma {:induction false} StaticRowShape(sel: seq<Selected>, row: StorageRow, codec: Codec)
    requires row.cf.Some? ==> UniqueNames(row.cf.value)
    ensures var cols := StaticColumns(sel, row, codec);
      && (row.cf.Some? ==>
            (&& |cols| == |sel|
             && forall i | 0 <= i < |sel| ::
                  && (sel[i].name.kind == KeyAlias ==> cols[i] == Column(sel[i].alias, Some(row.key), Some(-1)))
                  && (sel[i].name.kind != KeyAlias ==>
                        (&& cols[i].name == sel[i].name.id
                         && (cols[i].value.Some? <==> exists c <- row.cf.value :: c.name == sel[i].name.id && !c.deleted)))))
      && (row.cf.None? ==> forall c <- cols :: c.value == Some(row.key) && c.timestamp == Some(-1))
  {
    if sel != [] {
      var init := sel[..|sel| - 1];
      StaticRowShape(init, row, codec);
      var s := Last(sel);
      if row.cf.Some? && s.name.kind != KeyAlias {
        var cells := row.cf.value;
        var f := FindCell(cells, s.name.id);
        if f.Some? {
          forall c <- cells | c.name == s.name.id ensures c == f.value {
            var i :| 0 <= i < |cells| && cells[i] == c;
            var j :| 0 <= j < |cells| && cells[j] == f.value;
            assert i == j;
          }
        }
      }
      forall i | 0 <= i < |sel| - 1 ensures sel[i] == init[i] {}
    }
  }

  /** Removing the tombstones of a static partition does not change its row. */
  lemma StaticTombstonesInvisible(sel: seq<Selected>, row: StorageRow, codec: Codec)
    requires row.cf.Some? && UniqueNames(row.cf.value)
    ensures StaticRow(sel, StorageRow(row.key, Some(Live(row.cf.value))), codec) == StaticRow(sel, row, codec)
  {
    var purged := StorageRow(row.key, Some(Live(row.cf.value)));
    StaticColumnsPurged(sel, row, purged, codec);
  }

  lemma {:induction false} StaticColumnsPurged(sel: seq<Selected>, row: StorageRow, purged: StorageRow, codec: Codec)
    requires row.cf.Some? && UniqueNames(row.cf.value)
    requires purged == StorageRow(row.key, Some(Live(row.cf.value)))
    ensures StaticColumns(sel, purged, codec) == StaticColumns(sel, row, codec)
  {
    if sel != [] {
      StaticColumnsPurged(sel[..|sel| - 1], row, purged, codec);
      var s := Last(sel);
      if s.name.kind != KeyAlias {
        var cells := row.cf.value;
        var f := FindCell(cells, s.name.id);
        var g := FindCell(Live(cells), s.name.id);
        LiveMembers(cells);
        if f.Some? && !f.value.deleted {
          assert g.Some?;
          var i :| 0 <= i < |cells| && cells[i] == f.value;
          var j :| 0 <= j < |cells| && cells[j] == g.value;
          assert i == j;
        }
        if g.Some? {
          assert f.Some?;
          var i :| 0 <= i < |cells| && cells[i] == f.value;
          var j :| 0 <= j < |cells| && cells[j] == g.value;
          assert i == j;
        }
      }
    }
  }

  // ---- sparse tables ----

  /** A live cell with the components of its composite name. */
  datatype Item = Item(parts: seq<Bytes>, cell: Cell)

  function Items(cells: seq<Cell>, codec: Codec): (r: seq<Item>)
    ensures |r| == |cells|
  {
    seq(|cells|, i requires 0 <= i < |cells| => Item(codec.split(cells[i].name), cells[i]))
  }

  lemma ItemsAppend(a: seq<Cell>, b: seq<Cell>, codec: Codec)
    ensures Items(a + b, codec) == Items(a, codec) + Items(b, codec)
  {
  }

  /**
   * The names that grouping accepts: every name has the same number of
   * components and more than `last` of them, `last` being the index of the
   * column-name component.
   */
  predicate Arity(items: seq<Item>, last: nat) {
    forall i | 0 <= i < |items| :: |items[i].parts| > last && |items[i].parts| == |items[0].parts|
  }

  /** isSameRow: two names of a CQL row differ at most in their last component. */
  predicate SameRow(c1: seq<Bytes>, c2: seq<Bytes>) {
    |c1| == |c2| && forall i | 0 <= i < |c1| - 1 :: c1[i] == c2[i]
  }

  method IsSameRow(c1: seq<Bytes>, c2: seq<Bytes>) returns (same: bool)
    requires |c1| == |c2|
    ensures same <==> |c1| <= 1 || c1[..|c1| - 1] == c2[..|c2| - 1]
  {
    var i := 0;
    while i < |c1| - 1
      invariant 0 <= i <= if |c1| == 0 then 0 else |c1| - 1
      invariant c1[..i] == c2[..i]
    {
      if c1[i] != c2[i] {
        assert c1[..|c1| - 1][i] != c2[..|c2| - 1][i];
        return false;
      }
      assert c1[..i + 1] == c1[..i] + [c1[i]];
      assert c2[..i + 1] == c2[..i] + [c2[i]];
      i := i + 1;
    }
    return true;
  }

  lemma SameRowIff(c1: seq<Bytes>, c2: seq<Bytes>)
    requires |c1| == |c2|
    ensures SameRow(c1, c2) <==> |c1| <= 1 || c1[..|c1| - 1] == c2[..|c2| - 1]
  {
    if |c1| > 1 && SameRow(c1, c2) {
      var a, b := c1[..|c1| - 1], c2[..|c2| - 1];
      assert forall i | 0 <= i < |a| :: a[i] == b[i];
    }
    if |c1| > 1 && c1[..|c1| - 1] == c2[..|c2| - 1] {
      assert forall i | 0 <= i < |c1| - 1 :: c1[i] == c1[..|c1| - 1][i];
    }
  }

  /** Every item of `run` has more than `last` components. */
  predicate Wide(run: seq<Item>, last: nat) {
    forall j | 0 <= j < |run| :: |run[j].parts| > last
  }

  /** The runs of consecutive items sharing a row, in order. */
  function Runs(items: seq<Item>): (r: seq<seq<Item>>)
    ensures forall k | 0 <= k < |r| :: r[k] != []
  {
    if items == [] then []
    else
      var init := Runs(items[..|items| - 1]);
      var x := Last(items);
      if init != [] && SameRow(Last(Last(init)).parts, x.parts) then
        var r := init[..|init| - 1] + [Last(init) + [x]];
        assert forall k | 0 <= k < |r| - 1 :: r[k] == init[k];
        r
      else
        var r := init + [[x]];
        assert forall k | 0 <= k < |r| - 1 :: r[k] == init[k];
        r
  }

  /** Runs of items with more than `last` components hold only such items. */
  lemma {:induction false} RunsWide(items: seq<Item>, last: nat)
    requires Wide(items, last)
    ensures forall k | 0 <= k < |Runs(items)| :: Wide(Runs(items)[k], last)
  {
    if items != [] {
      var pre := items[..|items| - 1];
      var init := Runs(pre);
      var x := Last(items);
      var r := Runs(items);
      RunsWide(pre, last);
      assert forall k | 0 <= k < |r| - 1 :: r[k] == init[k];
      if init != [] && SameRow(Last(Last(init)).parts, x.parts) {
        var l := Last(init);
        assert Last(r) == l + [x];
        assert forall j | 0 <= j < |l| :: Last(r)[j] == l[j];
      }
    }
  }

  function Flatten<T>(r: seq<seq<T>>): seq<T> {
    if r == [] then [] else Flatten(r[..|r| - 1]) + Last(r)
  }

  lemma FlattenAppend<T>(r: seq<seq<T>>, x: seq<T>)
    ensures Flatten(r + [x]) == Flatten(r) + x
  {
    assert (r + [x])[..|r|] == r;
  }

  /** One more item either extends the last run or starts a new one. */
  lemma RunsStep(items: seq<Item>)
    requires items != []
    ensures var init := Runs(items[..|items| - 1]); var x := Last(items);
      Runs(items) == if init != [] && SameRow(Last(Last(init)).parts, x.parts)
                     then init[..|init| - 1] + [Last(init) + [x]]
                     else init + [[x]]
  {
  }

  /** Extending the last run extends the flattening by the same item. */
  lemma FlattenExtend<T>(r: seq<seq<T>>, x: T)
    requires r != []
    ensures Flatten(r[..|r| - 1] + [Last(r) + [x]]) == Flatten(r) + [x]
  {
    var a := r[..|r| - 1];
    var l := Last(r);
    FlattenAppend(a, l + [x]);
    assert Flatten(r) == Flatten(a) + l;
    assert Flatten(a) + (l + [x]) == (Flatten(a) + l) + [x];
  }

  /** The runs cover the items exactly, in order. */
  lemma {:induction false} RunsCover(items: seq<Item>)
    ensures Flatten(Runs(items)) == items
  {
    if items != [] {
      var pre := items[..|items| - 1];
      var init := Runs(pre);
      var x := Last(items);
      RunsCover(pre);
      RunsStep(items);
      if init != [] && SameRow(Last(Last(init)).parts, x.parts) {
        FlattenExtend(init, x);
      } else {
        FlattenAppend(init, [x]);
      }
      assert pre + [x] == items;
    }
  }

  /** Consecutive items of a run share a row. */
  predicate Cohesive(run: seq<Item>) {
    forall j | 0 <= j < |run| - 1 :: SameRow(run[j].parts, run[j + 1].parts)
  }

  predicate AllCohesive(r: seq<seq<Item>>) {
    forall k | 0 <= k < |r| :: Cohesive(r[k])
  }

  /** The last item of each run and the first of the next do not share a row. */
  predicate Separated(r: seq<seq<Item>>) {
    forall k {:trigger r[k]} | 0 <= k < |r| - 1 :: r[k] != [] && r[k + 1] != [] && !SameRow(Last(r[k]).parts, r[k + 1][0].parts)
  }

  lemma CohesiveAppend(run: seq<Item>, x: Item)
    requires Cohesive(run) && run != [] && SameRow(Last(run).parts, x.parts)
    ensures Cohesive(run + [x])
  {
    var r := run + [x];
    forall j | 0 <= j < |r| - 1 ensures SameRow(r[j].parts, r[j + 1].parts) {
      if j < |run| - 1 {
        assert r[j] == run[j] && r[j + 1] == run[j + 1];
      }
    }
  }

  /** Consecutive items of one run share a row. */
  lemma {:induction false} RunsWithin(items: seq<Item>)
    ensures AllCohesive(Runs(items))
  {
    if items != [] {
      var pre := items[..|items| - 1];
      RunsWithin(pre);
      var init := Runs(pre);
      var x := Last(items);
      var r := Runs(items);
      assert forall k | 0 <= k < |r| - 1 :: r[k] == init[k];
      if init != [] && SameRow(Last(Last(init)).parts, x.parts) {
        CohesiveAppend(Last(init), x);
      }
    }
  }

  /** The last item of a run and the first of the next do not share a row. */
  lemma {:induction false} RunsBetween(items: seq<Item>)
    ensures Separated(Runs(items))
  {
    if items != [] {
      var pre := items[..|items| - 1];
      RunsBetween(pre);
      var init := Runs(pre);
      var x := Last(items);
      var r := Runs(items);
      assert forall k | 0 <= k < |r| - 1 :: r[k] == init[k];
      if init != [] && SameRow(Last(Last(init)).parts, x.parts) {
        assert r[|r| - 1][0] == Last(init)[0];
      } else if init != [] {
        assert r[|r| - 2] == Last(init) && r[|r| - 1] == [x];
      }
    }
  }

  /** The cells of one CQL row keyed by their column-name component; a later cell replaces an earlier one. */
  function GroupMap(run: seq<Item>, last: nat): map<Bytes, Cell>
    requires Wide(run, last)
  {
    if run == [] then map[]
    else GroupMap(run[..|run| - 1], last)[Last(run).parts[last] := Last(run).cell]
  }

  /** The cell a column name maps to is the last cell of the run carrying that name. */
  lemma {:induction false} GroupMapLast(run: seq<Item>, last: nat, name: Bytes)
    requires Wide(run, last)
    ensures name in GroupMap(run, last) <==> exists j | 0 <= j < |run| :: run[j].parts[last] == name
    ensures name in GroupMap(run, last) ==>
      exists j | 0 <= j < |run| ::
        && run[j].parts[last] == name && GroupMap(run, last)[name] == run[j].cell
        && forall j' | j < j' < |run| :: run[j'].parts[last] != name
  {
    if run != [] {
      var pre := run[..|run| - 1];
      GroupMapLast(pre, last, name);
      assert forall j | 0 <= j < |pre| :: pre[j] == run[j];
      if Last(run).parts[last] != name && name in GroupMap(run, last) {
        var j :| 0 <= j < |pre| && pre[j].parts[last] == name && GroupMap(pre, last)[name] == pre[j].cell
               && forall j' | j < j' < |pre| :: pre[j'].parts[last] != name;
        assert run[j].parts[last] == name && GroupMap(run, last)[name] == run[j].cell;
      }
    }
  }

  /** The selection a sparse row can show: no value alias, clustering positions below `last`. */
  predicate GroupSelectable(sel: seq<Selected>, last: nat) {
    forall s <- sel :: s.name.kind != ValueAlias && (s.name.kind == ColumnAlias ==> s.name.position < last)
  }

  /** The column handleGroup builds for one selected name. */
  function GroupColumn(s: Selected, key: Bytes, components: seq<Bytes>, group: map<Bytes, Cell>, codec: Codec): Column
    requires s.name.kind != ValueAlias
    requires s.name.kind == ColumnAlias ==> s.name.position < |components|
  {
    match s.name.kind
    case KeyAlias => Column(s.alias, Some(key), Some(-1))
    case ColumnAlias => Column(s.alias, Some(components[s.name.position]), Some(-1))
    case ColumnMetadata =>
      if s.name.id in group && !group[s.name.id].deleted then
        Column(s.alias, Some(CellValue(group[s.name.id], codec)), Some(group[s.name.id].timestamp))
      else Column(s.alias, None, None)
  }

  function GroupRow(sel: seq<Selected>, key: Bytes, components: seq<Bytes>, group: map<Bytes, Cell>, codec: Codec): (r: CqlRow)
    requires forall s <- sel :: s.name.kind != ValueAlias && (s.name.kind == ColumnAlias ==> s.name.position < |components|)
  {
    CqlRow(key, seq(|sel|, i requires 0 <= i < |sel| => GroupColumn(sel[i], key, components, group, codec)))
  }

  /** handleGroup: one CQL row for one run, columns in selection order. */
  method HandleGroup(sel: seq<Selected>, key: Bytes, components: seq<Bytes>, group: map<Bytes, Cell>, codec: Codec)
    returns (row: CqlRow)
    requires forall s <- sel :: s.name.kind != ValueAlias && (s.name.kind == ColumnAlias ==> s.name.position < |components|)
    ensures row == GroupRow(sel, key, components, group, codec)
  {
    var columns: seq<Column> := [];
    for i := 0 to |sel|
      invariant columns == seq(i, j requires 0 <= j < i => GroupColumn(sel[j], key, components, group, codec))
    {
      var name := sel[i].name;
      var col: Column;
      match name.kind {
        case KeyAlias => col := Column(sel[i].alias, Some(key), Some(-1));
        case ColumnAlias => col := Column(sel[i].alias, Some(components[name.position]), Some(-1));
        case ColumnMetadata =>
          if name.id in group && !group[name.id].deleted {
            col := Column(sel[i].alias, Some(CellValue(group[name.id], codec)), Some(group[name.id].timestamp));
          } else {
            col := Column(sel[i].alias, None, None);
          }
      }
      columns := columns + [col];
    }
    return CqlRow(key, columns);
  }

  /** The rows of the given runs, one per run, ending each run's row at its last item's name. */
  function RunRows(sel: seq<Selected>, key: Bytes, r: seq<seq<Item>>, last: nat, codec: Codec): (rows: seq<CqlRow>)
    requires GroupSelectable(sel, last)
    requires forall k | 0 <= k < |r| :: r[k] != [] && Wide(r[k], last)
    ensures |rows| == |r|
  {
    seq(|r|, k requires 0 <= k < |r| => GroupRow(sel, key, Last(r[k]).parts, GroupMap(r[k], last), codec))
  }

  /** The CQL rows of a sparse partition whose live cells are `items`. */
  function SparseRows(sel: seq<Selected>, key: Bytes, items: seq<Item>, last: nat, codec: Codec): seq<CqlRow>
    requires GroupSelectable(sel, last) && Arity(items, last)
  {
    RunsWide(items, last);
    RunRows(sel, key, Runs(items), last, codec)
  }

  lemma RunRowsAppend(sel: seq<Selected>, key: Bytes, r: seq<seq<Item>>, last: nat, codec: Codec)
    requires GroupSelectable(sel, last) && r != []
    requires forall k | 0 <= k < |r| :: r[k] != [] && Wide(r[k], last)
    ensures RunRows(sel, key, r, last, codec)
         == RunRows(sel, key, r[..|r| - 1], last, codec) + [GroupRow(sel, key, Last(Last(r)).parts, GroupMap(Last(r), last), codec)]
  {
  }

  lemma RunsLast(items: seq<Item>)
    requires items != []
    ensures Runs(items) != [] && Last(Last(Runs(items))) == Last(items)
  {
  }

  lemma ArityPrefix(a: seq<Item>, b: seq<Item>, last: nat)
    requires Arity(a + b, last)
    ensures Arity(a, last)
  {
    assert forall i | 0 <= i < |a| :: (a + b)[i] == a[i];
  }

  /** A name rejected within the first `i + 1` cells rejects the whole partition. */
  lemma ArityFails(cells: seq<Cell>, i: nat, last: nat, codec: Codec)
    requires i < |cells| && !Arity(Items(Live(cells[..i + 1]), codec), last)
    ensures !Arity(Items(Live(cells), codec), last)
  {
    assert cells == cells[..i + 1] + cells[i + 1..];
    LiveAppend(cells[..i + 1], cells[i + 1..]);
    ItemsAppend(Live(cells[..i + 1]), Live(cells[i + 1..]), codec);
    if Arity(Items(Live(cells), codec), last) {
      ArityPrefix(Items(Live(cells[..i + 1]), codec), Items(Live(cells[i + 1..]), codec), last);
    }
  }

  /** The state of the grouping loop after the cells that produced `items`. */
  predicate Grouping(sel: seq<Selected>, key: Bytes, items: seq<Item>, last: nat, codec: Codec,
                     out: seq<CqlRow>, previous: Option<seq<Bytes>>, group: map<Bytes, Cell>)
    requires GroupSelectable(sel, last) && Arity(items, last)
  {
    RunsWide(items, last);
    var r := Runs(items);
    if r == [] then previous.None? && out == [] && group == map[]
    else
      && previous == Some(Last(Last(r)).parts)
      && group == GroupMap(Last(r), last)
      && out == RunRows(sel, key, r[..|r| - 1], last, codec)
  }

  lemma LiveStep(cells: seq<Cell>, i: nat, codec: Codec)
    requires i < |cells|
    ensures Items(Live(cells[..i + 1]), codec)
         == Items(Live(cells[..i]), codec) + (if cells[i].deleted then [] else [Item(codec.split(cells[i].name), cells[i])])
  {
    assert cells[..i + 1][..i] == cells[..i];
    if !cells[i].deleted {
      ItemsAppend(Live(cells[..i]), [cells[i]], codec);
    }
  }

  /** Appending a name keeps the grouping's names acceptable exactly when it has the arity of the others. */
  lemma ArityStep(items: seq<Item>, x: Item, last: nat)
    requires Arity(items, last)
    ensures Arity(items + [x], last) <==> |x.parts| > last && (items != [] ==> |x.parts| == |Last(items).parts|)
  {
    var ys := items + [x];
    assert ys[|items|] == x;
    if items != [] {
      assert ys[0] == items[0];
    }
    assert forall i | 0 <= i < |items| :: ys[i] == items[i];
  }

  lemma GroupingFirst(sel: seq<Selected>, key: Bytes, items: seq<Item>, x: Item, last: nat, codec: Codec,
                      out: seq<CqlRow>, group: map<Bytes, Cell>)
    requires GroupSelectable(sel, last) && Arity(items, last) && Arity(items + [x], last) && |x.parts| > last
    requires Grouping(sel, key, items, last, codec, out, None, group)
    ensures Grouping(sel, key, items + [x], last, codec, out, Some(x.parts), map[x.parts[last] := x.cell])
  {
    var ys := items + [x];
    assert ys[..|items|] == items;
    RunsWide(items, last);
    RunsWide(ys, last);
    assert items == [];
    assert Runs(ys) == [[x]];
  }

  lemma GroupingNext(sel: seq<Selected>, key: Bytes, items: seq<Item>, x: Item, last: nat, codec: Codec,
                     out: seq<CqlRow>, p: seq<Bytes>, group: map<Bytes, Cell>)
    requires GroupSelectable(sel, last) && Arity(items, last) && Arity(items + [x], last) && |x.parts| > last
    requires Grouping(sel, key, items, last, codec, out, Some(p), group)
    ensures |p| > last
    ensures !SameRow(p, x.parts) ==>
      Grouping(sel, key, items + [x], last, codec, out + [GroupRow(sel, key, p, group, codec)], Some(x.parts), map[x.parts[last] := x.cell])
    ensures SameRow(p, x.parts) ==>
      Grouping(sel, key, items + [x], last, codec, out, Some(x.parts), group[x.parts[last] := x.cell])
  {
    var ys := items + [x];
    assert ys[..|items|] == items;
    RunsWide(items, last);
    RunsWide(ys, last);
    var r := Runs(items);
    assert r != [];
    var l: seq<Item> := Last(r);
    assert |p| > last by {
      assert p == l[|l| - 1].parts;
    }
    if !SameRow(p, x.parts) {
      assert Runs(ys) == r + [[x]];
      assert (r + [[x]])[..|r|] == r;
      RunRowsAppend(sel, key, r, last, codec);
    } else {
      var r' := r[..|r| - 1] + [l + [x]];
      assert Runs(ys) == r';
      assert r'[..|r'| - 1] == r[..|r| - 1];
      assert (l + [x])[..|l|] == l;
    }
  }

  lemma GroupingDone(sel: seq<Selected>, key: Bytes, items: seq<Item>, last: nat, codec: Codec,
                     out: seq<CqlRow>, previous: Option<seq<Bytes>>, group: map<Bytes, Cell>)
    requires GroupSelectable(sel, last) && Arity(items, last)
    requires Grouping(sel, key, items, last, codec, out, previous, group)
    ensures previous.Some? ==> |previous.value| > last
    ensures previous.Some? ==> out + [GroupRow(sel, key, previous.value, group, codec)] == SparseRows(sel, key, items, last, codec)
    ensures previous.None? ==> out == SparseRows(sel, key, items, last, codec)
  {
    RunsWide(items, last);
    var r := Runs(items);
    if r != [] {
      var l: seq<Item> := Last(r);
      assert previous.value == l[|l| - 1].parts;
      RunRowsAppend(sel, key, r, last, codec);
    }
  }

  /** The grouping loop of a sparse partition (process, SPARSE case). */
  method BuildSparseRows(sel: seq<Selected>, key: Bytes, cells: seq<Cell>, last: nat, codec: Codec)
    returns (r: Result<seq<CqlRow>, Error>)
    requires GroupSelectable(sel, last)
    ensures var items := Items(Live(cells), codec);
      r == if Arity(items, last) then Success(SparseRows(sel, key, items, last, codec)) else Failure(AssertionFailure)
  {
    var out: seq<CqlRow> := [];
    var previous: Option<seq<Bytes>> := None;
    var group: map<Bytes, Cell> := map[];
    ghost var items: seq<Item> := [];
    for i := 0 to |cells|
      invariant items == Items(Live(cells[..i]), codec)
      invariant Arity(items, last)
      invariant Grouping(sel, key, items, last, codec, out, previous, group)
      invariant previous.Some? ==> items != [] && previous.value == Last(items).parts
    {
      var c := cells[i];
      LiveStep(cells, i, codec);
      if c.deleted {
        continue;
      }
      var current := codec.split(c.name);
      ghost var x := Item(current, c);
      ArityStep(items, x, last);
      if |current| <= last || (previous.Some? && |previous.value| != |current|) {
        ArityFails(cells, i, last, codec);
        return Failure(AssertionFailure);
      }
      if previous.Some? {
        GroupingNext(sel, key, items, x, last, codec, out, previous.value, group);
        var same := IsSameRow(previous.value, current);
        SameRowIff(previous.value, current);
        if !same {
          var row := HandleGroup(sel, key, previous.value, group, codec);
          out := out + [row];
          group := map[];
        }
      } else {
        GroupingFirst(sel, key, items, x, last, codec, out, group);
      }
      group := group[current[last] := c];
      previous := Some(current);
      items := items + [x];
    }
    assert cells[..|cells|] == cells;
    GroupingDone(sel, key, items, last, codec, out, previous, group);
    if previous.Some? {
      var row := HandleGroup(sel, key, previous.value, group, codec);
      out := out + [row];
    }
    return Success(out);
  }

  /** Each clustering component is shared by every name of a run. */
  lemma {:induction false} CohesiveShared(run: seq<Item>, p: nat)
    requires run != [] && Cohesive(run)
    requires forall j | 0 <= j < |run| :: |run[j].parts| > p + 1
    ensures forall j | 0 <= j < |run| :: run[j].parts[p] == Last(run).parts[p]
  {
    if |run| > 1 {
      var tail := run[1..];
      assert forall j | 0 <= j < |tail| :: tail[j] == run[j + 1];
      CohesiveShared(tail, p);
      assert SameRow(run[0].parts, run[1].parts);
    }
  }

  /**
   * The k-th row of a sparse partition is built from its k-th run: every
   * clustering column shows the component that all cells of the run share.
   */
  lemma SparseClusteringShared(sel: seq<Selected>, key: Bytes, items: seq<Item>, last: nat, codec: Codec, k: nat, t: nat)
    requires GroupSelectable(sel, last) && Arity(items, last)
    requires k < |Runs(items)| && t < |sel| && sel[t].name.kind == ColumnAlias
    ensures var run := Runs(items)[k];
      forall j | 0 <= j < |run| ::
        && sel[t].name.position < |run[j].parts|
        && SparseRows(sel, key, items, last, codec)[k].columns[t].value == Some(run[j].parts[sel[t].name.position])
  {
    var r := Runs(items);
    RunsWide(items, last);
    RunsWithin(items);
    var p := sel[t].name.position;
    assert sel[t] in sel;
    var run := r[k];
    assert forall j | 0 <= j < |run| :: |run[j].parts| > p + 1 by {
      RunsMembers(items, k);
    }
    CohesiveShared(run, p);
  }

  /** Every item of a run is an item of the partition. */
  lemma {:induction false} RunsMembers(items: seq<Item>, k: nat)
    requires k < |Runs(items)|
    ensures forall j | 0 <= j < |Runs(items)[k]| :: Runs(items)[k][j] in items
  {
    RunsCover(items);
    var r := Runs(items);
    FlattenContains(r, k);
  }

  lemma {:induction false} FlattenContains<T>(r: seq<seq<T>>, k: nat)
    requires k < |r|
    ensures forall j | 0 <= j < |r[k]| :: r[k][j] in Flatten(r)
  {
    var pre := r[..|r| - 1];
    if k < |r| - 1 {
      FlattenContains(pre, k);
      assert pre[k] == r[k];
    }
  }

  // ---- compact tables ----

  /** The column a compact row shows for one selected name of the cell `c`. */
  function CellColumn(s: Selected, key: Bytes, c: Cell, components: Option<seq<Bytes>>, codec: Codec): Column
    requires s.name.kind != ColumnMetadata
  {
    match s.name.kind
    case KeyAlias => Column(s.alias, Some(key), Some(-1))
    case ColumnAlias =>
      var v := if components.None? then c.name
               else if s.name.position < |components.value| then components.value[s.name.position]
               else [];
      Column(s.alias, Some(v), Some(c.timestamp))
    case ValueAlias => Column(s.alias, Some(CellValue(c, codec)), Some(c.timestamp))
  }

  /** Compact rows show no metadata column. */
  predicate CompactSelectable(sel: seq<Selected>) {
    forall s <- sel :: s.name.kind != ColumnMetadata
  }

  function CellRow(sel: seq<Selected>, key: Bytes, c: Cell, composite: bool, codec: Codec): CqlRow
    requires CompactSelectable(sel)
  {
    var components := if composite then Some(codec.split(c.name)) else None;
    CqlRow(key, seq(|sel|, i requires 0 <= i < |sel| => CellColumn(sel[i], key, c, components, codec)))
  }

  /** The rows of a compact partition: one per live cell, in cell order. */
  function CellRows(sel: seq<Selected>, key: Bytes, cells: seq<Cell>, composite: bool, codec: Codec): (rows: seq<CqlRow>)
    requires CompactSelectable(sel)
  {
    var live := Live(cells);
    seq(|live|, i requires 0 <= i < |live| => CellRow(sel, key, live[i], composite, codec))
  }

  method BuildCellRow(sel: seq<Selected>, key: Bytes, c: Cell, composite: bool, codec: Codec) returns (row: CqlRow)
    requires CompactSelectable(sel)
    ensures row == CellRow(sel, key, c, composite, codec)
  {
    var components: Option<seq<Bytes>> := if composite then Some(codec.split(c.name)) else None;
    var columns: seq<Column> := [];
    for i := 0 to |sel|
      invariant columns == seq(i, j requires 0 <= j < i => CellColumn(sel[j], key, c, components, codec))
    {
      var name := sel[i].name;
      var col: Column;
      match name.kind {
        case KeyAlias => col := Column(sel[i].alias, Some(key), Some(-1));
        case ColumnAlias =>
          if composite {
            if name.position < |components.value| {
              col := Column(sel[i].alias, Some(components.value[name.position]), Some(c.timestamp));
            } else {
              col := Column(sel[i].alias, Some([]), Some(c.timestamp));
            }
          } else {
            col := Column(sel[i].alias, Some(c.name), Some(c.timestamp));
          }
        case ValueAlias => col := Column(sel[i].alias, Some(CellValue(c, codec)), Some(c.timestamp));
      }
      columns := columns + [col];
    }
    return CqlRow(key, columns);
  }

  /** The per-cell loop of process for dynamic and dense tables. */
  method BuildCellRows(sel: seq<Selected>, key: Bytes, cells: seq<Cell>, composite: bool, codec: Codec) returns (rows: seq<CqlRow>)
    requires CompactSelectable(sel)
    ensures rows == CellRows(sel, key, cells, composite, codec)
  {
    rows := [];
    for i := 0 to |cells|
      invariant rows == CellRows(sel, key, cells[..i], composite, codec)
    {
      assert cells[..i + 1][..i] == cells[..i];
      if !cells[i].deleted {
        var row := BuildCellRow(sel, key, cells[i], composite, codec);
        rows := rows + [row];
      }
    }
    assert cells[..|cells|] == cells;
  }

  /**
   * A row of a dynamic table shows, for its clustering column, the name of
   * its cell and, for its value column, the value of that cell.
   */
  lemma DynamicRowMeaning(sel: seq<Selected>, key: Bytes, cells: seq<Cell>, codec: Codec, i: nat, t: nat)
    requires CompactSelectable(sel) && i < |Live(cells)| && t < |sel|
    ensures var row := CellRows(sel, key, cells, false, codec)[i];
      && row.key == key && |row.columns| == |sel|
      && (sel[t].name.kind == ColumnAlias ==> row.columns[t].value == Some(Live(cells)[i].name))
      && (sel[t].name.kind == ValueAlias ==> row.columns[t].value == Some(CellValue(Live(cells)[i], codec)))
      && Live(cells)[i] in cells && !Live(cells)[i].deleted
  {
    assert sel[t] in sel;
    LiveMembers(cells);
  }

  /**
   * A row of a dense table shows, for each clustering column, the component
   * of the cell name at that column's position, or the empty value when the
   * name has fewer components; the value column shows the cell's value and
   * the key column the partition key.
   */
  lemma DenseRowMeaning(sel: seq<Selected>, key: Bytes, cells: seq<Cell>, codec: Codec, i: nat, t: nat)
    requires CompactSelectable(sel) && i < |Live(cells)| && t < |sel|
    ensures var c := Live(cells)[i]; var parts := codec.split(c.name); var s := sel[t];
      var row := CellRows(sel, key, cells, true, codec)[i];
      && row.key == key && |row.columns| == |sel| && row.columns[t].name == s.alias
      && (s.name.kind == KeyAlias ==> row.columns[t].value == Some(key) && row.columns[t].timestamp == Some(-1))
      && (s.name.kind == ColumnAlias ==>
            && row.columns[t].value == Some(if s.name.position < |parts| then parts[s.name.position] else [])
            && row.columns[t].timestamp == Some(c.timestamp))
      && (s.name.kind == ValueAlias ==>
            row.columns[t].value == Some(CellValue(c, codec)) && row.columns[t].timestamp == Some(c.timestamp))
      && c in cells && !c.deleted
  {
    assert sel[t] in sel;
    LiveMembers(cells);
  }

  // ---- process ----

  /** The selection constraints each table kind relies on. */
  predicate Shows(st: Statement) {
    var sel := st.ExpandedSelection();
    match st.layout.kind
    case Static => true
    case Sparse => GroupSelectable(sel, |st.layout.columns|)
    case Dynamic => CompactSelectable(sel)
    case Dense => CompactSelectable(sel)
  }

  /** Every compiled statement meets those constraints. */
  lemma WellFormedShows(st: Statement)
    requires st.WellFormed()
    ensures Shows(st)
  {
    var sel := st.ExpandedSelection();
    var l := st.layout;
    forall s <- sel ensures s.name in l.Names() {
      if st.selected == [] {
        var i :| 0 <= i < |sel| && sel[i] == s;
        assert s.name == l.Names()[i];
      }
    }
    forall n <- l.Names()
      ensures n.kind == ColumnAlias ==> n.position < |l.columns|
      ensures n.kind == ValueAlias ==> l.value.Some?
      ensures n.kind == ColumnMetadata ==> l.metadata != []
    {
      var i :| 0 <= i < |l.Names()| && l.Names()[i] == n;
      var c := |l.ColumnNames()|;
      var v := |l.ValueNames()|;
      if 1 <= i <= c {
        assert n == l.ColumnNames()[i - 1];
      } else if c < i <= c + v {
        assert n == l.ValueNames()[i - 1 - c];
      } else if c + v < i {
        assert n == l.MetadataNames()[i - 1 - c - v];
      }
    }
  }

  /** The CQL rows of one storage row. */
  function PartitionRows(st: Statement, row: StorageRow, codec: Codec): Result<seq<CqlRow>, Error>
    requires Shows(st)
  {
    var sel := st.ExpandedSelection();
    match st.layout.kind
    case Static => Success([StaticRow(sel, row, codec)])
    case Sparse =>
      if row.cf.None? then Success([])
      else
        var items := Items(Live(row.cf.value), codec);
        var last := |st.layout.columns|;
        if Arity(items, last) then Success(SparseRows(sel, row.key, items, last, codec)) else Failure(AssertionFailure)
    case Dynamic => if row.cf.None? then Success([]) else Success(CellRows(sel, row.key, row.cf.value, false, codec))
    case Dense => if row.cf.None? then Success([]) else Success(CellRows(sel, row.key, row.cf.value, true, codec))
  }

  /** The rows of `rows` after those already built in `acc`, stopping at the first failure. */
  function ReconstructFrom(st: Statement, acc: seq<CqlRow>, rows: seq<StorageRow>, codec: Codec): Result<seq<CqlRow>, Error>
    requires Shows(st)
    decreases |rows|
  {
    if rows == [] then Success(acc)
    else
      match PartitionRows(st, rows[0], codec)
      case Failure(e) => Failure(e)
      case Success(more) => ReconstructFrom(st, acc + more, rows[1..], codec)
  }

  function Reconstruct(st: Statement, rows: seq<StorageRow>, codec: Codec): Result<seq<CqlRow>, Error>
    requires Shows(st)
  {
    ReconstructFrom(st, [], rows, codec)
  }

  function Reverse<T>(s: seq<T>): (r: seq<T>)
    ensures |r| == |s|
    ensures forall i | 0 <= i < |s| :: r[i] == s[|s| - 1 - i]
  {
    if s == [] then [] else Reverse(s[1..]) + [s[0]]
  }

  /** Reversal when asked for, then the first `limit` rows. */
  function Shape(rows: seq<CqlRow>, reversed: bool, limit: nat): seq<CqlRow> {
    var r := if reversed then Reverse(rows) else rows;
    if |r| > limit then r[..limit] else r
  }

  /** The result keeps min(n, limit) rows: the first ones, or the last ones in reverse order. */
  lemma ShapeAt(rows: seq<CqlRow>, reversed: bool, limit: nat)
    ensures var out := Shape(rows, reversed, limit);
      && |out| == (if |rows| < limit then |rows| else limit)
      && forall i | 0 <= i < |out| :: out[i] == (if reversed then rows[|rows| - 1 - i] else rows[i])
  {
  }

  /** What process returns for the storage rows of a query. */
  function Processed(st: Statement, rows: seq<StorageRow>, codec: Codec): Result<seq<CqlRow>, Error>
    requires Shows(st) && st.parameters.limit >= 0
  {
    var built := Reconstruct(st, rows, codec);
    if built.Failure? then Failure(built.error)
    else Success(Shape(built.value, st.parameters.reversed, st.parameters.limit as nat))
  }

  /** The rows of one storage row (the body of process's per-row switch). */
  method BuildPartitionRows(st: Statement, row: StorageRow, codec: Codec) returns (r: Result<seq<CqlRow>, Error>)
    requires Shows(st)
    ensures r == PartitionRows(st, row, codec)
  {
    var sel := st.ExpandedSelection();
    match st.layout.kind {
      case Static =>
        var cqlRow := BuildStaticRow(sel, row, codec);
        return Success([cqlRow]);
      case Sparse =>
        if row.cf.None? {
          return Success([]);
        }
        r := BuildSparseRows(sel, row.key, row.cf.value, |st.layout.columns|, codec);
      case Dynamic =>
        if row.cf.None? {
          return Success([]);
        }
        var rows := BuildCellRows(sel, row.key, row.cf.value, false, codec);
        return Success(rows);
      case Dense =>
        if row.cf.None? {
          return Success([]);
        }
        var rows := BuildCellRows(sel, row.key, row.cf.value, true, codec);
        return Success(rows);
    }
  }

  /** process: the CQL rows of all storage rows, reversed if asked, cut to the limit. */
  method Process(st: Statement, rows: seq<StorageRow>, codec: Codec) returns (r: Result<seq<CqlRow>, Error>)
    requires Shows(st) && st.parameters.limit >= 0
    ensures r == Processed(st, rows, codec)
  {
    var cqlRows: seq<CqlRow> := [];
    for i := 0 to |rows|
      invariant ReconstructFrom(st, cqlRows, rows[i..], codec) == Reconstruct(st, rows, codec)
    {
      assert rows[i..][1..] == rows[i + 1..];
      var more := BuildPartitionRows(st, rows[i], codec);
      if more.Failure? {
        return Failure(more.error);
      }
      cqlRows := cqlRows + more.value;
    }
    if st.parameters.reversed {
      cqlRows := Reverse(cqlRows);
    }
    if |cqlRows| > st.parameters.limit as int {
      cqlRows := cqlRows[..st.parameters.limit];
    }
    return Success(cqlRows);
  }

  /** A static table yields exactly one row per storage row, in order, whether or not the partition was found. */
  lemma {:induction false} StaticRowPerPartition(st: Statement, acc: seq<CqlRow>, rows: seq<StorageRow>, codec: Codec)
    requires st.layout.kind == Static
    ensures ReconstructFrom(st, acc, rows, codec)
         == Success(acc + seq(|rows|, i requires 0 <= i < |rows| => StaticRow(st.ExpandedSelection(), rows[i], codec)))
    decreases |rows|
  {
    var sel := st.ExpandedSelection();
    if rows != [] {
      StaticRowPerPartition(st, acc + [StaticRow(sel, rows[0], codec)], rows[1..], codec);
      var tail := rows[1..];
      var first := StaticRow(sel, rows[0], codec);
      assert PartitionRows(st, rows[0], codec) == Success([first]);
      var t := seq(|tail|, i requires 0 <= i < |tail| => StaticRow(sel, tail[i], codec));
      var all := seq(|rows|, i requires 0 <= i < |rows| => StaticRow(sel, rows[i], codec));
      assert [first] + t == all;
      assert acc + [first] + t == acc + all;
      assert ReconstructFrom(st, acc, rows, codec) == ReconstructFrom(st, acc + [first], tail, codec);
    } else {
      assert seq(|rows|, i requires 0 <= i < |rows| => StaticRow(sel, rows[i], codec)) == [];
      assert acc + [] == acc;
    }
  }

  /** The storage row with its tombstones dropped. */
  function Purged(row: StorageRow): StorageRow {
    StorageRow(row.key, if row.cf.Some? then Some(Live(row.cf.value)) else None)
  }

  /** Tombstones never show: dropping them first leaves the rows of a partition unchanged. */
  lemma TombstonesInvisible(st: Statement, row: StorageRow, codec: Codec)
    requires Shows(st)
    requires row.cf.Some? ==> UniqueNames(row.cf.value)
    ensures PartitionRows(st, Purged(row), codec) == PartitionRows(st, row, codec)
  {
    if row.cf.Some? {
      LiveIdempotent(row.cf.value);
      if st.layout.kind == Static {
        StaticTombstonesInvisible(st.ExpandedSelection(), row, codec);
      }
    }
  }

  // ---- processResult ----

  /** The column and row name of a count result. */
  const COUNT: Bytes := [0x63, 0x6f, 0x75, 0x6e, 0x74]

  /** The single row of a count: the number of storage rows, as a long. */
  function CountRow(n: nat): CqlRow {
    CqlRow(COUNT, [Column(COUNT, Some(EncodeLong(n)), None)])
  }

  /** processResult: a count answers one row holding the number of storage rows, otherwise process. */
  method ProcessResult(st: Statement, rows: seq<StorageRow>, codec: Codec) returns (r: Result<seq<CqlRow>, Error>)
    requires Shows(st) && st.parameters.limit >= 0
    ensures st.parameters.isCount ==> r == Success([CountRow(|rows|)])
    ensures !st.parameters.isCount ==> r == Processed(st, rows, codec)
  {
    if st.parameters.isCount {
      return Success([CountRow(|rows|)]);
    }
    r := Process(st, rows, codec);
  }

  /** The count row decodes back to the number of storage rows. */
  lemma CountRowDecodes(n: nat)
    requires n < TWO_63
    ensures var row := CountRow(n);
      && |row.columns| == 1 && row.columns[0].name == COUNT && row.columns[0].value.Some?
      && |row.columns[0].value.value| == 8 && DecodeLong(row.columns[0].value.value) == n
  {
    LongRoundTrip(n);
  }

  /** Every statement compilation produces can be processed. */
  lemma CompiledProcessable(raw: RawStatement, layout: Layout, indexed: set<Id>)
    requires layout.Valid() && Compiler.Compile(raw, layout, indexed).Success?
    ensures var st := Compiler.Compile(raw, layout, indexed).value;
      Shows(st) && st.parameters.limit > 0
  {
    CompilerLemmas.CompiledWellFormed(raw, layout, indexed);
    WellFormedShows(Compiler.Compile(raw, layout, indexed).value);
  }
}
