/**
 * The shape of the storage request derived from a compiled statement:
 * the clustering slice or the named columns to read, the secondary-index
 * expressions, and how each relates to the WHERE clause it came from.
 */
module Query {
  import opened Wrappers
  import opened Schema
  import opened Statements
  import opened Compiler
  import opened CompilerLemmas

  /** The number of leading clustering columns restricted by an equality. */
  function EqPrefixLength(cols: seq<Id>, m: map<Id, Restriction>): (k: nat)
    ensures k <= |cols|
    ensures forall i | 0 <= i < k :: cols[i] in m && m[cols[i]].IsEquality()
    ensures k < |cols| ==> !(cols[k] in m && m[cols[k]].IsEquality())
  {
    if cols == [] || !(cols[0] in m && m[cols[0]].IsEquality()) then 0
    else
      assert forall i | 1 <= i < |cols| :: cols[i] == cols[1..][i - 1];
      1 + EqPrefixLength(cols[1..], m)
  }

  /** The first `k` clustering columns carry single-value equalities. */
  predicate SingletonPrefix(cols: seq<Id>, m: map<Id, Restriction>, k: nat) {
    && k <= |cols|
    && forall i | 0 <= i < k :: cols[i] in m && m[cols[i]].IsEquality() && |m[cols[i]].eqValues.value| == 1
  }

  /** The composite components given by the equalities of the first `k` clustering columns. */
  function EqParts(cols: seq<Id>, m: map<Id, Restriction>, k: nat): (r: seq<Part>)
    requires SingletonPrefix(cols, m, k)
    ensures |r| == k
  {
    seq(k, i requires 0 <= i < k => Part(m[cols[i]].eqValues.value[0], EQ))
  }

  /** The comparison a bound of the given side is added with. */
  function SideOp(r: Restriction, isStart: bool): Op {
    if isStart then (if r.startInclusive then GTE else GT) else (if r.endInclusive then LTE else LT)
  }

  /** The bound of the given side as a component, if the restriction has one. */
  function BoundPart(r: Restriction, isStart: bool): seq<Part> {
    var t := if isStart then r.start else r.end;
    if t.Some? then [Part(t.value, SideOp(r, isStart))] else []
  }

  /** The names of the selected metadata columns, each behind the composite prefix if there is one. */
  function MetadataColumnNames(sel: seq<Selected>, prefix: Option<seq<Part>>): (r: seq<ColumnName>)
    ensures |r| <= |sel|
  {
    if sel == [] then []
    else
      var init := MetadataColumnNames(sel[..|sel| - 1], prefix);
      var name := sel[|sel| - 1].name;
      if name.kind != ColumnMetadata then init
      else init + [if prefix.None? then Plain(name.id) else Composite(prefix.value + [Part(name.id, EQ)])]
  }

  /** When `GetRequestedBound` can build its bound. */
  predicate BoundSucceeds(st: Statement) {
    var cols := st.layout.columns;
    var m := st.restrictions;
    if st.layout.IsComposite() then SingletonPrefix(cols, m, EqPrefixLength(cols, m))
    else st.layout.kind == Dynamic ==> |cols| > 0 && !(cols[0] in m && m[cols[0]].IsEquality())
  }

  /** When `GetRequestedColumns` can build its names. */
  predicate ColumnsSucceed(st: Statement) {
    var cols := st.layout.columns;
    var m := st.restrictions;
    match st.layout.kind
    case Static => true
    case Sparse => SingletonPrefix(cols, m, |cols|)
    case Dense => SingletonPrefix(cols, m, |cols|)
    case Dynamic => |cols| > 0 && SingletonPrefix(cols, m, 1)
  }

  /** The composite branch of `GetRequestedBound`: the equality prefix, then the side of the first range column. */
  method CompositeBound(cols: seq<Id>, m: map<Id, Restriction>, isStart: bool) returns (r: Result<ColumnName, Error>)
    ensures r.Success? <==> SingletonPrefix(cols, m, EqPrefixLength(cols, m))
    ensures r.Success? ==>
      var k := EqPrefixLength(cols, m);
      r.value == Composite(EqParts(cols, m, k) + (if k < |cols| && cols[k] in m then BoundPart(m[cols[k]], isStart) else []))
  {
    ghost var k := EqPrefixLength(cols, m);
    var parts: seq<Part> := [];
    var i := 0;
    while i < |cols|
      invariant 0 <= i <= k
      invariant SingletonPrefix(cols, m, i)
      invariant parts == EqParts(cols, m, i)
    {
      var c := cols[i];
      if c !in m {
        break;
      }
      if m[c].IsEquality() {
        if |m[c].eqValues.value| != 1 {
          return Failure(AssertionFailure);
        }
        parts := parts + [Part(m[c].eqValues.value[0], EQ)];
      } else {
        var t := if isStart then m[c].start else m[c].end;
        var op := SideOp(m[c], isStart);
        if t.Some? {
          parts := parts + [Part(t.value, op)];
        }
        break;
      }
      i := i + 1;
    }
    return Success(Composite(parts));
  }

  /**
   * getRequestedBound: the start (or finish) of the clustering slice. The
   * composite bound holds the equality value of each leading equality
   * column in order, then, at the first range column, that side's term if
   * it has one; it stops at the first unrestricted column.
   */
  method GetRequestedBound(st: Statement, isStart: bool) returns (r: Result<ColumnName, Error>)
    requires st.IsColumnRange()
    ensures r.Success? <==> BoundSucceeds(st)
    ensures r.Success? && st.layout.IsComposite() ==>
      var cols := st.layout.columns; var m := st.restrictions; var k := EqPrefixLength(cols, m);
      r.value == Composite(EqParts(cols, m, k) + (if k < |cols| && cols[k] in m then BoundPart(m[cols[k]], isStart) else []))
    ensures r.Success? && st.layout.kind == Dynamic ==>
      var c := st.layout.columns[0]; var m := st.restrictions;
      r.value == Plain(if c in m && (if isStart then m[c].start else m[c].end).Some?
                       then (if isStart then m[c].start else m[c].end).value else [])
  {
    var cols := st.layout.columns;
    var m := st.restrictions;
    assert st.layout.kind != Static;
    if st.layout.kind == Dynamic {
      var c := cols[0];
      if c !in m {
        return Success(Plain([]));
      }
      if m[c].IsEquality() {
        return Failure(AssertionFailure);
      }
      var t := if isStart then m[c].start else m[c].end;
      if t.None? {
        return Success(Plain([]));
      }
      return Success(Plain(t.value));
    }
    r := CompositeBound(cols, m, isStart);
  }

  /**
   * getRequestedColumns: the named columns to read when every clustering
   * column is fixed by an equality: the selected metadata columns (behind
   * the composite of the clustering values for sparse tables), the single
   * clustering value for dynamic tables, that composite for dense ones.
   */
  method GetRequestedColumns(st: Statement) returns (r: Result<seq<ColumnName>, Error>)
    requires !st.IsColumnRange()
    ensures r.Success? <==> ColumnsSucceed(st)
    ensures r.Success? ==>
      var cols := st.layout.columns; var m := st.restrictions;
      match st.layout.kind
      case Static => r.value == MetadataColumnNames(st.ExpandedSelection(), None)
      case Sparse => r.value == MetadataColumnNames(st.ExpandedSelection(), Some(EqParts(cols, m, |cols|)))
      case Dynamic => r.value == [Plain(m[cols[0]].eqValues.value[0])]
      case Dense => r.value == [Composite(EqParts(cols, m, |cols|))]
  {
    var cols := st.layout.columns;
    var m := st.restrictions;
    var prefix: Option<seq<Part>> := None;
    if st.layout.IsComposite() {
      var parts: seq<Part> := [];
      var i := 0;
      while i < |cols|
        invariant 0 <= i <= |cols|
        invariant SingletonPrefix(cols, m, i)
        invariant parts == EqParts(cols, m, i)
      {
        var c := cols[i];
        if !(c in m && m[c].IsEquality() && |m[c].eqValues.value| == 1) {
          return Failure(AssertionFailure);
        }
        parts := parts + [Part(m[c].eqValues.value[0], EQ)];
        i := i + 1;
      }
      prefix := Some(parts);
    }
    match st.layout.kind {
      case Static =>
        var names := SelectMetadataNames(st.ExpandedSelection(), prefix);
        return Success(names);
      case Sparse =>
        var names := SelectMetadataNames(st.ExpandedSelection(), prefix);
        return Success(names);
      case Dynamic =>
        if |cols| == 0 || !(cols[0] in m && m[cols[0]].IsEquality() && |m[cols[0]].eqValues.value| == 1) {
          return Failure(AssertionFailure);
        }
        return Success([Plain(m[cols[0]].eqValues.value[0])]);
      case Dense =>
        return Success([Composite(prefix.value)]);
    }
  }

  /** The selection loop of getRequestedColumns, skipping every name but metadata columns. */
  method SelectMetadataNames(sel: seq<Selected>, prefix: Option<seq<Part>>) returns (names: seq<ColumnName>)
    ensures names == MetadataColumnNames(sel, prefix)
  {
    names := [];
    for i := 0 to |sel|
      invariant names == MetadataColumnNames(sel[..i], prefix)
    {
      assert sel[..i + 1][..i] == sel[..i];
      var name := sel[i].name;
      if name.kind == ColumnMetadata {
        var cname := if prefix.None? then Plain(name.id) else Composite(prefix.value + [Part(name.id, EQ)]);
        names := names + [cname];
      }
    }
    assert sel[..|sel|] == sel;
  }

  /** A compiled statement never trips the assertions of the request builders. */
  lemma WellFormedRequestsSucceed(st: Statement)
    requires st.WellFormed()
    ensures st.IsColumnRange() ==> BoundSucceeds(st)
    ensures !st.IsColumnRange() ==> ColumnsSucceed(st)
  {
    var cols := st.layout.columns;
    var m := st.restrictions;
    if !st.IsColumnRange() && st.layout.kind != Static {
      assert forall i | 0 <= i < |cols| :: cols[i] in m && m[cols[i]].IsEquality();
    }
  }

  /** A secondary-index predicate handed to storage. */
  datatype IndexExpression = IndexExpression(column: Id, op: Op, value: Bytes)

  function EqExpressions(id: Id, values: seq<Term>): (r: seq<IndexExpression>)
    ensures |r| == |values|
  {
    seq(|values|, j requires 0 <= j < |values| => IndexExpression(id, EQ, values[j]))
  }

  /** The expressions of one restricted metadata column, as written: the end bound uses GTE/GT. */
  function ColumnExpressions(id: Id, r: Restriction): seq<IndexExpression> {
    if r.IsEquality() then EqExpressions(id, r.eqValues.value)
    else
      (if r.start.Some? then [IndexExpression(id, if r.startInclusive then GTE else GT, r.start.value)] else [])
      + (if r.end.Some? then [IndexExpression(id, if r.endInclusive then GTE else GT, r.end.value)] else [])
  }

  /** The expressions of the restricted metadata columns among `md`, in order. */
  function MetadataExpressions(md: seq<Id>, m: map<Id, Restriction>): seq<IndexExpression> {
    if md == [] then []
    else
      var last := md[|md| - 1];
      MetadataExpressions(md[..|md| - 1], m) + (if last in m then ColumnExpressions(last, m[last]) else [])
  }

  /** getIndexExpressions: nothing without an indexed expression, else every metadata column's expressions. */
  method GetIndexExpressions(st: Statement) returns (expressions: seq<IndexExpression>)
    ensures expressions == if st.hasIndexedExpression then MetadataExpressions(st.layout.metadata, st.restrictions) else []
  {
    if !st.hasIndexedExpression {
      return [];
    }
    var md := st.layout.metadata;
    var m := st.restrictions;
    expressions := [];
    var i := 0;
    while i < |md|
      invariant 0 <= i <= |md|
      invariant expressions == MetadataExpressions(md[..i], m)
    {
      assert md[..i + 1][..i] == md[..i];
      var id := md[i];
      if id in m {
        var r := m[id];
        if r.IsEquality() {
          var values := r.eqValues.value;
          ghost var before := expressions;
          var j := 0;
          while j < |values|
            invariant 0 <= j <= |values|
            invariant expressions == before + EqExpressions(id, values[..j])
          {
            assert EqExpressions(id, values[..j + 1]) == EqExpressions(id, values[..j]) + [IndexExpression(id, EQ, values[j])];
            expressions := expressions + [IndexExpression(id, EQ, values[j])];
            j := j + 1;
          }
          assert values[..j] == values;
        } else {
          if r.start.Some? {
            expressions := expressions + [IndexExpression(id, if r.startInclusive then GTE else GT, r.start.value)];
          }
          if r.end.Some? {
            expressions := expressions + [IndexExpression(id, if r.endInclusive then GTE else GT, r.end.value)];
          }
        }
      }
      i := i + 1;
    }
    assert md[..i] == md;
  }

  /** Every expression names a restricted metadata column, and none compares with LT or LTE. */
  lemma {:induction false} MetadataExpressionsShape(md: seq<Id>, m: map<Id, Restriction>)
    ensures forall e <- MetadataExpressions(md, m) :: e.column in md && e.column in m && e.op != LT && e.op != LTE
  {
    if md != [] {
      var init := md[..|md| - 1];
      MetadataExpressionsShape(init, m);
      assert forall x <- init :: x in md;
    }
  }

  /**
   * The converse of `MetadataExpressionsShape`: every restricted metadata
   * column sends each of its equality values, or each bound it has (the end
   * with GTE/GT, as written).
   */
  lemma {:induction false} MetadataExpressionsCover(md: seq<Id>, m: map<Id, Restriction>, i: nat)
    requires i < |md| && md[i] in m
    ensures m[md[i]].IsEquality() ==>
      forall v <- m[md[i]].eqValues.value :: IndexExpression(md[i], EQ, v) in MetadataExpressions(md, m)
    ensures !m[md[i]].IsEquality() && m[md[i]].start.Some? ==>
      IndexExpression(md[i], if m[md[i]].startInclusive then GTE else GT, m[md[i]].start.value) in MetadataExpressions(md, m)
    ensures !m[md[i]].IsEquality() && m[md[i]].end.Some? ==>
      IndexExpression(md[i], if m[md[i]].endInclusive then GTE else GT, m[md[i]].end.value) in MetadataExpressions(md, m)
    decreases |md|
  {
    var init := md[..|md| - 1];
    var id := md[i];
    var here := if md[|md| - 1] in m then ColumnExpressions(md[|md| - 1], m[md[|md| - 1]]) else [];
    assert MetadataExpressions(md, m) == MetadataExpressions(init, m) + here;
    if i < |md| - 1 {
      assert init[i] == id;
      MetadataExpressionsCover(init, m, i);
    } else {
      var r := m[id];
      assert here == ColumnExpressions(id, r);
      if r.IsEquality() {
        forall v <- r.eqValues.value
          ensures IndexExpression(id, EQ, v) in here
        {
          var j :| 0 <= j < |r.eqValues.value| && r.eqValues.value[j] == v;
          assert here[j] == IndexExpression(id, EQ, v);
        }
      }
    }
  }

  /** Unsigned lexicographic order of byte strings: -1, 0 or 1. */
  function CompareBytes(a: Bytes, b: Bytes): (c: int)
    ensures -1 <= c <= 1
    ensures c == 0 <==> a == b
  {
    if a == [] && b == [] then 0
    else if a == [] then -1
    else if b == [] then 1
    else if a[0] < b[0] then -1
    else if a[0] > b[0] then 1
    else
      var c := CompareBytes(a[1..], b[1..]);
      assert c == 0 ==> a == [a[0]] + a[1..] == [b[0]] + b[1..] == b;
      c
  }

  /** A value satisfies an index expression. */
  predicate Satisfies(x: Bytes, e: IndexExpression) {
    var c := CompareBytes(x, e.value);
    match e.op
    case EQ => c == 0
    case LT => c < 0
    case LTE => c <= 0
    case GT => c > 0
    case GTE => c >= 0
  }

  /** A value lies within the bounds of a range restriction. */
  predicate InBounds(x: Bytes, r: Restriction) {
    && (r.start.Some? ==> if r.startInclusive then CompareBytes(x, r.start.value) >= 0 else CompareBytes(x, r.start.value) > 0)
    && (r.end.Some? ==> if r.endInclusive then CompareBytes(x, r.end.value) <= 0 else CompareBytes(x, r.end.value) < 0)
  }

  /** The expressions of one range-restricted column as intended: the end bound uses LTE/LT. */
  function IntendedColumnExpressions(id: Id, r: Restriction): (es: seq<IndexExpression>)
    ensures forall e <- es :: e.column == id
  {
    if r.IsEquality() then EqExpressions(id, r.eqValues.value)
    else
      (if r.start.Some? then [IndexExpression(id, if r.startInclusive then GTE else GT, r.start.value)] else [])
      + (if r.end.Some? then [IndexExpression(id, if r.endInclusive then LTE else LT, r.end.value)] else [])
  }

  /** The intended expressions of a range restriction hold of a value exactly when it lies within its bounds. */
  lemma IntendedExpressionsExact(id: Id, r: Restriction, x: Bytes)
    requires !r.IsEquality()
    ensures (forall e <- IntendedColumnExpressions(id, r) :: Satisfies(x, e)) <==> InBounds(x, r)
  {
    var es := IntendedColumnExpressions(id, r);
    var s := if r.start.Some? then [IndexExpression(id, if r.startInclusive then GTE else GT, r.start.value)] else [];
    var t := if r.end.Some? then [IndexExpression(id, if r.endInclusive then LTE else LT, r.end.value)] else [];
    assert es == s + t;
    assert forall e <- es :: e in s || e in t;
    if r.start.Some? {
      assert s[0] in es;
    }
    if r.end.Some? {
      assert t[0] in es;
      assert Satisfies(x, t[0]) <==> (if r.endInclusive then CompareBytes(x, r.end.value) <= 0 else CompareBytes(x, r.end.value) < 0);
    }
  }

  /**
   * As written, an exclusive end bound `c < [5]` becomes the expression
   * `c > [5]`, which the empty value inside the bound does not satisfy.
   */
  lemma IndexEndBoundAsWritten(id: Id)
    ensures var r := Restriction(None, None, false, Some([5]), false);
      && ColumnExpressions(id, r) == [IndexExpression(id, GT, [5])]
      && InBounds([], r)
      && !Satisfies([], IndexExpression(id, GT, [5]))
  {
  }

  /** A static table with the metadata columns c and d. */
  const EXAMPLE_LAYOUT: Layout := Layout(Static, [0x6b], [], None, [[0x63], [0x64]])

  /** `d = [1] AND c < [5]`. */
  const EXAMPLE_WHERE: seq<Relation> := [Compare([0x64], EQ, [1]), Compare([0x63], LT, [5])]

  /** What the WHERE fold records for the example clause. */
  const EXAMPLE_MAP: map<Id, Restriction> :=
    map[[0x64] := Equality([[1]]), [0x63] := Restriction(None, None, false, Some([5]), false)]

  lemma ExampleBound()
    ensures BindFrom(map[], EXAMPLE_WHERE, EXAMPLE_LAYOUT) == Success(EXAMPLE_MAP)
  {
    var layout := EXAMPLE_LAYOUT;
    var c: Id := [0x63];
    var d: Id := [0x64];
    assert layout.Names() == [layout.KeyName(), Name(c, ColumnMetadata, 0), Name(d, ColumnMetadata, 0)];
    assert layout.Valid();
    ValidGet(layout, Name(d, ColumnMetadata, 0));
    ValidGet(layout, Name(c, ColumnMetadata, 0));
    var rels := EXAMPLE_WHERE;
    var m1 := map[d := Equality([[1]])];
    assert ApplyRelation(map[], rels[0], layout) == Success(m1);
    assert ApplyRelation(m1, rels[1], layout) == Success(EXAMPLE_MAP);
    assert BindFrom(EXAMPLE_MAP, rels[1..][1..], layout) == Success(EXAMPLE_MAP);
  }

  lemma ExampleCompiled()
    ensures var r := Compile(RawStatement(Parameters(10, false, false), [], EXAMPLE_WHERE), EXAMPLE_LAYOUT, {[0x64]});
      r.Success? && r.value.hasIndexedExpression && r.value.restrictions == EXAMPLE_MAP
  {
    ExampleBound();
    var layout := EXAMPLE_LAYOUT;
    var m := EXAMPLE_MAP;
    assert layout.metadata[0] in m;
    var indexed: set<Id> := {[0x64]};
    assert layout.metadata[1] in m && m[layout.metadata[1]].IsEquality() && layout.metadata[1] in indexed;
    assert IndexRules(layout, m, indexed) == Success(IndexOutcome(m, true));
  }

  /**
   * The same defect through the whole pipeline: on a static table with
   * metadata columns c and d, d indexed, `d = [1] AND c < [5]` compiles,
   * and the index expressions sent for it ask for `c > [5]`, which the
   * empty value of c, inside the range asked for, fails.
   */
  lemma IndexEndBoundThroughCompile()
    ensures var r := Compile(RawStatement(Parameters(10, false, false), [], EXAMPLE_WHERE), EXAMPLE_LAYOUT, {[0x64]});
      && r.Success? && r.value.hasIndexedExpression
      && MetadataExpressions(EXAMPLE_LAYOUT.metadata, r.value.restrictions)
         == [IndexExpression([0x63], GT, [5]), IndexExpression([0x64], EQ, [1])]
      && [0x63] in r.value.restrictions && InBounds([], r.value.restrictions[[0x63]])
      && !Satisfies([], IndexExpression([0x63], GT, [5]))
  {
    ExampleCompiled();
    var m := EXAMPLE_MAP;
    var md := EXAMPLE_LAYOUT.metadata;
    assert md[..1] == [[0x63]];
    assert md[..1][..0] == [];
    assert MetadataExpressions(md[..1], m) == [IndexExpression([0x63], GT, [5])];
  }

  /** Some EQ or IN relation of the clause names the column `e`. */
  predicate HasEqualityRelation(rels: seq<Relation>, e: Id) {
    exists j | 0 <= j < |rels| :: IsEqualityRelation(rels[j]) && rels[j].entity == e
  }

  lemma {:induction false} EqualityIff(rels: seq<Relation>, layout: Layout, e: Id)
    requires BindFrom(map[], rels, layout).Success?
    ensures var m := BindFrom(map[], rels, layout).value;
      (e in m && m[e].IsEquality()) <==> HasEqualityRelation(rels, e)
  {
    var m := BindFrom(map[], rels, layout).value;
    if HasEqualityRelation(rels, e) {
      var j :| 0 <= j < |rels| && IsEqualityRelation(rels[j]) && rels[j].entity == e;
      RelationRecorded(rels, layout, j);
    }
    if e in m {
      RestrictionProvenance(rels, layout, e);
    }
  }

  /**
   * A compiled statement scans a key range exactly when the table has
   * metadata columns or no EQ or IN relation names the partition key.
   */
  lemma KeyRangeIff(raw: RawStatement, layout: Layout, indexed: set<Id>)
    requires Compile(raw, layout, indexed).Success?
    ensures Compile(raw, layout, indexed).value.IsKeyRange() <==>
      layout.metadata != [] || !HasEqualityRelation(raw.whereClause, layout.key)
  {
    var m := BindFrom(map[], raw.whereClause, layout).value;
    IndexRulesFacts(layout, m, indexed);
    EqualityIff(raw.whereClause, layout, layout.key);
  }

  /**
   * A compiled statement reads a clustering slice exactly when the table
   * is not static and some clustering column has no EQ relation.
   */
  lemma ColumnRangeIff(raw: RawStatement, layout: Layout, indexed: set<Id>)
    requires layout.Valid() && Compile(raw, layout, indexed).Success?
    ensures Compile(raw, layout, indexed).value.IsColumnRange() <==>
      layout.kind != Static
      && exists i | 0 <= i < |layout.columns| :: !HasEqualityRelation(raw.whereClause, layout.columns[i])
  {
    var st := Compile(raw, layout, indexed).value;
    var cols := layout.columns;
    var m := BindFrom(map[], raw.whereClause, layout).value;
    IndexRulesFacts(layout, m, indexed);
    ValidKeyDistinct(layout);
    forall i | 0 <= i < |cols|
      ensures (cols[i] in st.restrictions && st.restrictions[cols[i]].IsEquality()) <==> HasEqualityRelation(raw.whereClause, cols[i])
    {
      EqualityIff(raw.whereClause, layout, cols[i]);
    }
  }

  /**
   * With `key = v` in the WHERE clause the key bounds are [v, v], both
   * inclusive, whether the key stayed an equality or was rewritten into a
   * range by the index rules.
   */
  lemma KeyEqualityBounds(raw: RawStatement, layout: Layout, indexed: set<Id>, j: nat, v: Term)
    requires Compile(raw, layout, indexed).Success?
    requires j < |raw.whereClause| && raw.whereClause[j] == Compare(layout.key, EQ, v)
    ensures var st := Compile(raw, layout, indexed).value;
      && st.GetKeyStart() == Success(Some(v)) && st.GetKeyFinish() == Success(Some(v))
      && st.IncludeStartKey() && st.IncludeFinishKey()
  {
    var m := BindFrom(map[], raw.whereClause, layout).value;
    RelationRecorded(raw.whereClause, layout, j);
    IndexRulesFacts(layout, m, indexed);
  }

  /** The start (lower) or finish key bound of a statement, and whether it is inclusive. */
  function KeyBound(st: Statement, lower: bool): Result<Option<Bytes>, Error> {
    if lower then st.GetKeyStart() else st.GetKeyFinish()
  }

  predicate IncludesKey(st: Statement, lower: bool) {
    if lower then st.IncludeStartKey() else st.IncludeFinishKey()
  }

  /** No relation on the partition key: no key bounds (the source's null), both inclusive, no multiget. */
  lemma KeyUnrestrictedBounds(raw: RawStatement, layout: Layout, indexed: set<Id>)
    requires Compile(raw, layout, indexed).Success?
    requires forall j | 0 <= j < |raw.whereClause| :: raw.whereClause[j].entity != layout.key
    ensures var st := Compile(raw, layout, indexed).value;
      && st.GetKeyStart() == Success(None) && st.GetKeyFinish() == Success(None)
      && st.IncludeStartKey() && st.IncludeFinishKey()
      && st.GetKeys().Failure?
  {
    CompileStages(raw, layout, indexed);
    var m := BindFrom(map[], raw.whereClause, layout).value;
    IndexRulesFacts(layout, m, indexed);
    if layout.key in m {
      RestrictionProvenance(raw.whereClause, layout, layout.key);
    }
  }

  /**
   * Without an EQ or IN on the partition key, a `key > w` (`>=`, `<`, `<=`)
   * relation gives the start (finish) key w, inclusive exactly for `>=` (`<=`).
   */
  lemma KeySideBound(raw: RawStatement, layout: Layout, indexed: set<Id>, j: nat, lower: bool)
    requires Compile(raw, layout, indexed).Success?
    requires j < |raw.whereClause| && raw.whereClause[j].entity == layout.key && SameSide(raw.whereClause[j], lower)
    requires !HasEqualityRelation(raw.whereClause, layout.key)
    ensures var st := Compile(raw, layout, indexed).value; var rel := raw.whereClause[j];
      && KeyBound(st, lower) == Success(Some(rel.value))
      && (IncludesKey(st, lower) <==> rel.op == GTE || rel.op == LTE)
  {
    CompileStages(raw, layout, indexed);
    var m := BindFrom(map[], raw.whereClause, layout).value;
    RelationRecorded(raw.whereClause, layout, j);
    if m[layout.key].IsEquality() {
      RestrictionProvenance(raw.whereClause, layout, layout.key);
    }
    IndexRulesFacts(layout, m, indexed);
  }

  /**
   * Without an EQ or IN on the partition key, a side of a restricted key
   * that no relation bounds gives the empty key, exclusive.
   */
  lemma KeyOpenSide(raw: RawStatement, layout: Layout, indexed: set<Id>, j: nat, lower: bool)
    requires Compile(raw, layout, indexed).Success?
    requires j < |raw.whereClause| && raw.whereClause[j].entity == layout.key
    requires !HasEqualityRelation(raw.whereClause, layout.key)
    requires forall i | 0 <= i < |raw.whereClause| :: !(SameSide(raw.whereClause[i], lower) && raw.whereClause[i].entity == layout.key)
    ensures var st := Compile(raw, layout, indexed).value;
      KeyBound(st, lower) == Success(Some([])) && !IncludesKey(st, lower)
  {
    CompileStages(raw, layout, indexed);
    var rels := raw.whereClause;
    var m := BindFrom(map[], rels, layout).value;
    RelationRecorded(rels, layout, j);
    if m[layout.key].IsEquality() {
      RestrictionProvenance(rels, layout, layout.key);
    }
    if Side(m[layout.key], lower).Some? {
      BoundProvenance(rels, layout, layout.key, lower);
    }
    BindPreserves(map[], rels, layout);
    assert Tidy(m);
    IndexRulesFacts(layout, m, indexed);
  }

  /** On a table without metadata columns, the keys of a multiget are the values of the key's EQ or IN. */
  lemma MultigetKeys(raw: RawStatement, layout: Layout, indexed: set<Id>, j: nat)
    requires Compile(raw, layout, indexed).Success? && layout.metadata == []
    requires j < |raw.whereClause| && IsEqualityRelation(raw.whereClause[j]) && raw.whereClause[j].entity == layout.key
    ensures Compile(raw, layout, indexed).value.GetKeys() == Success(EqValuesOf(raw.whereClause[j]))
  {
    RelationRecorded(raw.whereClause, layout, j);
  }

  /**
   * As written, a sparse table with two metadata columns and a limit of
   * 2^30 asks storage for -2^31 columns; the saturated limit asks for the
   * largest count instead.
   */
  lemma GetLimitOverflow()
    ensures var st := Statement(Layout(Sparse, [0x6b], [[0x63]], None, [[0x61], [0x62]]),
                                Parameters(0x4000_0000, false, false), [], map[], false);
      && st.GetLimit() == -0x8000_0000 as Int32
      && st.FetchLimit() == INT32_MAX as Int32
  {
  }

  /**
   * A table that is not compact and has no metadata columns asks storage for
   * no columns at all, both as written and with the saturated product.
   */
  lemma NoMetadataFetchesNothing(st: Statement)
    requires !st.layout.IsCompact() && st.layout.metadata == []
    ensures st.GetLimit() == 0 && st.FetchLimit() == 0
  {
  }
}
