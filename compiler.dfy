/**
 * Compilation of a raw SELECT into a Statement: the select clause is
 * resolved, the WHERE relations are folded into per-column restrictions,
 * and the clustering-prefix, secondary-index and reversal rules are
 * checked. `Compile` is the specification; `Preprocess` and its stage
 * methods are the source's loops, proved to compute it.
 */
module Compiler {
  import opened Wrappers
  import opened Schema
  import opened Statements

  /** The identifiers `*` and `1` accepted inside COUNT(...). */
  const STAR: Id := [0x2a]
  const ONE: Id := [0x31]

  /** Resolves the remaining select identifiers, after those in `acc`. */
  function ResolveFrom(acc: seq<Selected>, clause: seq<Id>, layout: Layout): Result<seq<Selected>, Error>
    decreases |clause|
  {
    if clause == [] then Success(acc)
    else
      match layout.Get(clause[0])
      case None => Failure(UnknownField)
      case Some(n) => ResolveFrom(acc + [Selected(n, clause[0])], clause[1..], layout)
  }

  /** The select clause: COUNT(*) or COUNT(1) in count mode, resolved names otherwise. */
  function BindSelection(isCount: bool, clause: seq<Id>, layout: Layout): Result<seq<Selected>, Error> {
    if isCount then
      if |clause| == 1 && (clause[0] == STAR || clause[0] == ONE) then Success([]) else Failure(UnsupportedCount)
    else ResolveFrom([], clause, layout)
  }

  /** One WHERE relation folded into the restriction map. */
  function ApplyRelation(m: map<Id, Restriction>, rel: Relation, layout: Layout): Result<map<Id, Restriction>, Error> {
    match layout.Get(rel.entity)
    case None => Failure(UnknownField)
    case Some(name) =>
      if name.kind == ValueAlias then Failure(UnsupportedRestriction)
      else
        match rel
        case In(_, values) =>
          if name.id in m then Failure(ConflictingRestriction)
          else if name.kind != KeyAlias then Failure(InvalidIn)
          else Success(m[name.id := Equality(values)])
        case Compare(_, op, v) =>
          var r := if name.id in m then m[name.id] else Unbounded;
          if op == EQ then
            if name.id in m then Failure(ConflictingRestriction) else Success(m[name.id := Equality([v])])
          else if op == GT || op == GTE then
            if r.start.Some? then Failure(ConflictingRestriction)
            else Success(m[name.id := r.(start := Some(v), startInclusive := op == GTE || r.startInclusive)])
          else
            if r.end.Some? then Failure(ConflictingRestriction)
            else Success(m[name.id := r.(end := Some(v), endInclusive := op == LTE || r.endInclusive)])
  }

  /** The WHERE relations folded, in order, into the restriction map `m`. */
  function BindFrom(m: map<Id, Restriction>, rels: seq<Relation>, layout: Layout): Result<map<Id, Restriction>, Error>
    decreases |rels|
  {
    if rels == [] then Success(m)
    else
      var m' :- ApplyRelation(m, rels[0], layout);
      BindFrom(m', rels[1..], layout)
  }

  /**
   * A clustering column may be restricted only if every column before it
   * is restricted by an equality.
   */
  predicate ContiguousPrefix(columns: seq<Id>, m: map<Id, Restriction>) {
    forall i, j | 0 <= i < j < |columns| && columns[j] in m :: columns[i] in m && m[columns[i]].IsEquality()
  }

  /** Some metadata column is restricted. */
  predicate RestrictsMetadata(layout: Layout, m: map<Id, Restriction>) {
    exists i | 0 <= i < |layout.metadata| :: layout.metadata[i] in m
  }

  /** Some restricted metadata column has an equality and is indexed. */
  predicate HasIndexedEquality(layout: Layout, m: map<Id, Restriction>, indexed: set<Id>) {
    exists i | 0 <= i < |layout.metadata| ::
      layout.metadata[i] in m && m[layout.metadata[i]].IsEquality() && layout.metadata[i] in indexed
  }

  datatype IndexOutcome = IndexOutcome(restrictions: map<Id, Restriction>, hasIndexedExpression: bool)

  /**
   * The secondary-index rules of a table with metadata columns: a
   * restricted metadata column needs an indexed equality beside it, and a
   * key equality becomes the inclusive range [v, v].
   */
  function IndexRules(layout: Layout, m: map<Id, Restriction>, indexed: set<Id>): Result<IndexOutcome, Error> {
    if layout.metadata == [] then Success(IndexOutcome(m, false))
    else
      var has := RestrictsMetadata(layout, m);
      if has && !HasIndexedEquality(layout, m, indexed) then Failure(NoIndexedEquality)
      else if layout.key in m && m[layout.key].IsEquality() then
        var values := m[layout.key].eqValues.value;
        if |values| > 1 then Failure(IndexedInUnsupported)
        else if values == [] then Failure(AssertionFailure)
        else
          var k := m[layout.key].(start := Some(values[0]), startInclusive := true,
                                  end := Some(values[0]), endInclusive := true, eqValues := None);
          Success(IndexOutcome(m[layout.key := k], has))
      else Success(IndexOutcome(m, has))
  }

  /** The compiled statement, or the first rule the raw statement breaks. */
  function Compile(raw: RawStatement, layout: Layout, indexed: set<Id>): Result<Statement, Error> {
    if raw.parameters.limit <= 0 then Failure(InvalidLimit)
    else
      var selected :- BindSelection(raw.parameters.isCount, raw.selectClause, layout);
      var m :- BindFrom(map[], raw.whereClause, layout);
      if !ContiguousPrefix(layout.columns, m) then Failure(NonPrefixRestriction)
      else
        var ix :- IndexRules(layout, m, indexed);
        if raw.parameters.reversed && !(layout.key in ix.restrictions && ix.restrictions[layout.key].IsEquality())
        then Failure(UnsupportedReversal)
        else Success(Statement(layout, raw.parameters, selected, ix.restrictions, ix.hasIndexedExpression))
  }

  /** The select-clause loop: each identifier resolved in declared order. */
  method BindSelectClause(isCount: bool, clause: seq<Id>, layout: Layout) returns (r: Result<seq<Selected>, Error>)
    ensures r == BindSelection(isCount, clause, layout)
  {
    if isCount {
      if |clause| != 1 || (clause[0] != STAR && clause[0] != ONE) {
        return Failure(UnsupportedCount);
      }
      return Success([]);
    }
    var selected: seq<Selected> := [];
    var i := 0;
    while i < |clause|
      invariant 0 <= i <= |clause|
      invariant ResolveFrom(selected, clause[i..], layout) == ResolveFrom([], clause, layout)
    {
      assert clause[i..][1..] == clause[i + 1..];
      var name := layout.Get(clause[i]);
      if name.None? {
        return Failure(UnknownField);
      }
      selected := selected + [Selected(name.value, clause[i])];
      i := i + 1;
    }
    return Success(selected);
  }

  /** The WHERE-clause loop, updating the restriction of each relation's column in place. */
  method BindWhereClause(rels: seq<Relation>, layout: Layout) returns (r: Result<map<Id, Restriction>, Error>)
    ensures r == BindFrom(map[], rels, layout)
  {
    var restrictions: map<Id, Restriction> := map[];
    var i := 0;
    while i < |rels|
      invariant 0 <= i <= |rels|
      invariant BindFrom(restrictions, rels[i..], layout) == BindFrom(map[], rels, layout)
    {
      assert rels[i..][1..] == rels[i + 1..];
      var rel := rels[i];
      var found := layout.Get(rel.entity);
      if found.None? {
        return Failure(UnknownField);
      }
      var name := found.value;
      if name.kind == ValueAlias {
        return Failure(UnsupportedRestriction);
      }
      var existing := if name.id in restrictions then Some(restrictions[name.id]) else None;
      match rel {
        case In(_, values) =>
          if existing.Some? {
            return Failure(ConflictingRestriction);
          }
          if name.kind != KeyAlias {
            return Failure(InvalidIn);
          }
          restrictions := restrictions[name.id := Equality(values)];
        case Compare(_, op, v) =>
          if op == EQ {
            if existing.Some? {
              return Failure(ConflictingRestriction);
            }
            restrictions := restrictions[name.id := Equality([v])];
          } else {
            var restriction := if existing.Some? then existing.value else Unbounded;
            if op == GT || op == GTE {
              if restriction.start.Some? {
                return Failure(ConflictingRestriction);
              }
              restriction := restriction.(start := Some(v));
              if op == GTE {
                restriction := restriction.(startInclusive := true);
              }
            } else {
              if restriction.end.Some? {
                return Failure(ConflictingRestriction);
              }
              restriction := restriction.(end := Some(v));
              if op == LTE {
                restriction := restriction.(endInclusive := true);
              }
            }
            restrictions := restrictions[name.id := restriction];
          }
      }
      i := i + 1;
    }
    return Success(restrictions);
  }

  /** The clustering-prefix loop with its `shouldBeDone` flag. */
  method CheckPrefix(columns: seq<Id>, m: map<Id, Restriction>) returns (ok: bool)
    ensures ok == ContiguousPrefix(columns, m)
  {
    var shouldBeDone := false;
    var i := 0;
    while i < |columns|
      invariant 0 <= i <= |columns|
      invariant shouldBeDone <==> exists k | 0 <= k < i :: columns[k] !in m || !m[columns[k]].IsEquality()
      invariant forall a, b | 0 <= a < b < i && columns[b] in m :: columns[a] in m && m[columns[a]].IsEquality()
    {
      var c := columns[i];
      if c !in m {
        shouldBeDone := true;
      } else if shouldBeDone {
        return false;
      } else if !m[c].IsEquality() {
        shouldBeDone := true;
      }
      i := i + 1;
    }
    return true;
  }

  /** The index loop, which stops at the first indexed equality, then the key rewrite. */
  method ApplyIndexRules(layout: Layout, m: map<Id, Restriction>, indexed: set<Id>) returns (r: Result<IndexOutcome, Error>)
    ensures r == IndexRules(layout, m, indexed)
  {
    if layout.metadata == [] {
      return Success(IndexOutcome(m, false));
    }
    var md := layout.metadata;
    var hasIndexedExpression := false;
    var hasEq := false;
    var i := 0;
    while i < |md|
      invariant 0 <= i <= |md|
      invariant !hasEq
      invariant hasIndexedExpression <==> exists k | 0 <= k < i :: md[k] in m
      invariant forall k | 0 <= k < i :: !(md[k] in m && m[md[k]].IsEquality() && md[k] in indexed)
    {
      if md[i] in m {
        hasIndexedExpression := true;
        if m[md[i]].IsEquality() && md[i] in indexed {
          hasEq := true;
          break;
        }
      }
      i := i + 1;
    }
    if hasIndexedExpression && !hasEq {
      return Failure(NoIndexedEquality);
    }
    var restrictions := m;
    if layout.key in restrictions && restrictions[layout.key].IsEquality() {
      var k := restrictions[layout.key];
      var values := k.eqValues.value;
      if |values| > 1 {
        return Failure(IndexedInUnsupported);
      }
      if values == [] {
        return Failure(AssertionFailure);
      }
      k := k.(start := Some(values[0]));
      k := k.(startInclusive := true);
      k := k.(end := Some(values[0]));
      k := k.(endInclusive := true);
      k := k.(eqValues := None);
      restrictions := restrictions[layout.key := k];
    }
    return Success(IndexOutcome(restrictions, hasIndexedExpression));
  }

  /** RawStatement.preprocess: every stage in the source's order. */
  method Preprocess(raw: RawStatement, layout: Layout, indexed: set<Id>) returns (r: Result<Statement, Error>)
    ensures r == Compile(raw, layout, indexed)
  {
    if raw.parameters.limit <= 0 {
      return Failure(InvalidLimit);
    }
    var selected :- BindSelectClause(raw.parameters.isCount, raw.selectClause, layout);
    var restrictions :- BindWhereClause(raw.whereClause, layout);
    var ok := CheckPrefix(layout.columns, restrictions);
    if !ok {
      return Failure(NonPrefixRestriction);
    }
    var ix :- ApplyIndexRules(layout, restrictions, indexed);
    if raw.parameters.reversed {
      if !(layout.key in ix.restrictions && ix.restrictions[layout.key].IsEquality()) {
        return Failure(UnsupportedReversal);
      }
    }
    return Success(Statement(layout, raw.parameters, selected, ix.restrictions, ix.hasIndexedExpression));
  }
}
