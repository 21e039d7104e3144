/**
 * The compiled SELECT: per-column restrictions and the read-only queries
 * that derive the shape of the storage request from them.
 */
module Statements {
  import opened Wrappers
  import opened Schema

  /**
   * The restriction on one column: an equality list when `eqValues` is
   * present, otherwise a pair of optional bounds. Bounds can also be set
   * on an equality restriction (a range relation after an EQ is accepted).
   */
  datatype Restriction = Restriction(
    eqValues: Option<seq<Term>>,
    start: Option<Term>, startInclusive: bool,
    end: Option<Term>, endInclusive: bool)
  {
    predicate IsEquality() {
      eqValues.Some?
    }
  }

  /** The restriction created by the first range relation on a column. */
  const Unbounded: Restriction := Restriction(None, None, false, None, false)

  function Equality(values: seq<Term>): Restriction {
    Restriction(Some(values), None, false, None, false)
  }

  /** A selected name with the identifier it was requested under. */
  datatype Selected = Selected(name: Name, alias: Id)

  /** A composite-name component with the comparison it was added with. */
  datatype Part = Part(value: Bytes, op: Op)

  /** A column name handed to storage: a plain name or a composite one. */
  datatype ColumnName = Plain(bytes: Bytes) | Composite(parts: seq<Part>)

  /** Does some column of `cols` have no restriction, or a non-equality one? */
  predicate HasOpenColumn(cols: seq<Id>, m: map<Id, Restriction>)
    ensures HasOpenColumn(cols, m) <==> exists i | 0 <= i < |cols| :: cols[i] !in m || !m[cols[i]].IsEquality()
  {
    if cols == [] then false
    else if cols[0] !in m || !m[cols[0]].IsEquality() then true
    else
      assert forall i | 1 <= i < |cols| :: cols[i] == cols[1..][i - 1];
      HasOpenColumn(cols[1..], m)
  }

  datatype Statement = Statement(
    layout: Layout,
    parameters: Parameters,
    selected: seq<Selected>,
    restrictions: map<Id, Restriction>,
    hasIndexedExpression: bool)
  {
    /** The restriction on the partition key, if any. */
    function KeyRestriction(): Option<Restriction> {
      if layout.key in restrictions then Some(restrictions[layout.key]) else None
    }

    predicate KeyIsEquality() {
      KeyRestriction().Some? && KeyRestriction().value.IsEquality()
    }

    /** The statement scans a range of partition keys rather than a set of them. */
    predicate IsKeyRange()
      ensures IsKeyRange() <==> hasIndexedExpression || GetKeys().Failure?
    {
      hasIndexedExpression || !KeyIsEquality()
    }

    /** The partition keys of a multiget; only legal when the key is an equality. */
    function GetKeys(): (r: Result<seq<Bytes>, Error>)
      ensures r.Success? <==> KeyIsEquality()
      ensures r.Success? ==> r.value == restrictions[layout.key].eqValues.value
    {
      if KeyIsEquality() then Success(KeyRestriction().value.eqValues.value) else Failure(IllegalState)
    }

    /** The start key of a key range scan; None is the source's null. */
    function GetKeyStart(): (r: Result<Option<Bytes>, Error>)
      ensures r.Failure? <==> KeyIsEquality() && |KeyRestriction().value.eqValues.value| != 1
    {
      match KeyRestriction()
      case None => Success(None)
      case Some(k) =>
        if k.IsEquality() then
          if |k.eqValues.value| == 1 then Success(Some(k.eqValues.value[0])) else Failure(AssertionFailure)
        else Success(Some(if k.start.Some? then k.start.value else []))
    }

    /** The finish key of a key range scan; None is the source's null. */
    function GetKeyFinish(): (r: Result<Option<Bytes>, Error>)
      ensures r.Failure? <==> KeyIsEquality() && |KeyRestriction().value.eqValues.value| != 1
    {
      match KeyRestriction()
      case None => Success(None)
      case Some(k) =>
        if k.IsEquality() then
          if |k.eqValues.value| == 1 then Success(Some(k.eqValues.value[0])) else Failure(AssertionFailure)
        else Success(Some(if k.end.Some? then k.end.value else []))
    }

    /** An exclusive start is always an actual key bound, never the source's null. */
    predicate IncludeStartKey()
      ensures !IncludeStartKey() ==> GetKeyStart().Success? && GetKeyStart().value.Some?
    {
      match KeyRestriction()
      case None => true
      case Some(k) => k.IsEquality() || k.startInclusive
    }

    /** An exclusive finish is always an actual key bound, never the source's null. */
    predicate IncludeFinishKey()
      ensures !IncludeFinishKey() ==> GetKeyFinish().Success? && GetKeyFinish().value.Some?
    {
      match KeyRestriction()
      case None => true
      case Some(k) => k.IsEquality() || k.endInclusive
    }

    /** The statement reads a slice of columns rather than named columns. */
    predicate IsColumnRange()
      ensures IsColumnRange() <==>
        (layout.kind != Static &&
         exists i | 0 <= i < |layout.columns| :: layout.columns[i] !in restrictions || !restrictions[layout.columns[i]].IsEquality())
    {
      layout.kind != Static && HasOpenColumn(layout.columns, restrictions)
    }

    /** The selection, with a wildcard expanded to every name of the layout. */
    function ExpandedSelection(): (r: seq<Selected>)
      ensures selected == [] ==> |r| == |layout.Names()|
      ensures selected == [] ==> forall i | 0 <= i < |r| :: r[i] == Selected(layout.Names()[i], layout.Names()[i].id)
      ensures selected != [] ==> r == selected
    {
      if selected == [] then
        var ns := layout.Names();
        seq(|ns|, i requires 0 <= i < |ns| => Selected(ns[i], ns[i].id))
      else selected
    }

    /**
     * The number of columns to fetch, as written: for non-compact tables
     * the requested limit times the number of metadata columns, computed
     * in 32-bit arithmetic.
     */
    function GetLimit(): (r: Int32)
      ensures layout.IsCompact() ==> r == parameters.limit
      ensures !layout.IsCompact() ==> (r as int - |layout.metadata| * parameters.limit as int) % 0x1_0000_0000 == 0
    {
      if !layout.IsCompact() then Wrap32(|layout.metadata| * parameters.limit as int)
      else parameters.limit
    }

    /**
     * The number of columns to fetch as intended: the same product, never
     * wrapped, saturated at the largest count the request can carry.
     */
    function FetchLimit(): (r: Int32)
      ensures parameters.limit > 0 && (layout.IsCompact() || layout.metadata != []) ==> 0 < parameters.limit <= r
      ensures -0x8000_0000 <= |layout.metadata| * parameters.limit as int <= INT32_MAX ==> r == GetLimit()
    {
      if !layout.IsCompact() then
        var p := |layout.metadata| * parameters.limit as int;
        if p > INT32_MAX then INT32_MAX as Int32 else if p < -0x8000_0000 then (-0x8000_0000) as Int32 else p as Int32
      else parameters.limit
    }

    /** What every statement produced by compilation satisfies. */
    predicate WellFormed() {
      && layout.Valid()
      && parameters.limit > 0
      && (forall s <- selected :: s.name in layout.Names())
      && (forall i | 0 <= i < |layout.columns| ::
            layout.columns[i] in restrictions && restrictions[layout.columns[i]].IsEquality() ==>
              |restrictions[layout.columns[i]].eqValues.value| == 1)
    }
  }
}
