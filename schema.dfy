/**
 * The inputs of a CQL3 SELECT: the table layout it runs against (the
 * column family definition), the relations of its WHERE clause, its
 * parameters, and the errors compilation and execution can raise.
 */
module Schema {
  import opened Wrappers

  /** An unsigned byte. */
  newtype Byte = x: int | 0 <= x < 256

  /** A byte buffer. */
  type Bytes = seq<Byte>

  /** A column identifier, by its byte key. */
  type Id = Bytes

  /** A term of the statement, already bound to its byte value. */
  type Term = Bytes

  /** Java's 32-bit `int`. */
  newtype Int32 = x: int | -0x8000_0000 <= x < 0x8000_0000

  const INT32_MAX: int := 0x7fff_ffff

  /** Wraps an unbounded integer into 32 bits, as Java's `int` arithmetic does. */
  function Wrap32(x: int): (r: Int32)
    ensures (r as int - x) % 0x1_0000_0000 == 0
    ensures -0x8000_0000 <= x <= INT32_MAX ==> r as int == x
  {
    var u := x % 0x1_0000_0000;
    if u <= INT32_MAX then u as Int32 else (u - 0x1_0000_0000) as Int32
  }

  /** The four physical layouts of a table. */
  datatype Kind = Static | Sparse | Dynamic | Dense

  /** The role a name plays in the layout. */
  datatype NameKind = KeyAlias | ColumnAlias | ValueAlias | ColumnMetadata

  /** A name of the layout; `position` is the composite position of a clustering column. */
  datatype Name = Name(id: Id, kind: NameKind, position: nat)

  /**
   * A table layout: the partition key, the ordered clustering columns
   * (column aliases), the optional value alias of compact tables and the
   * metadata columns.
   */
  datatype Layout = Layout(kind: Kind, key: Id, columns: seq<Id>, value: Option<Id>, metadata: seq<Id>)
  {
    function KeyName(): Name {
      Name(key, KeyAlias, 0)
    }

    function ColumnNames(): seq<Name> {
      seq(|columns|, i requires 0 <= i < |columns| => Name(columns[i], ColumnAlias, i))
    }

    function ValueNames(): seq<Name> {
      if value.Some? then [Name(value.value, ValueAlias, 0)] else []
    }

    function MetadataNames(): seq<Name> {
      seq(|metadata|, i requires 0 <= i < |metadata| => Name(metadata[i], ColumnMetadata, 0))
    }

    /** Every name of the layout, in the layout's iteration order. */
    function Names(): seq<Name> {
      [KeyName()] + ColumnNames() + ValueNames() + MetadataNames()
    }

    /** Resolves an identifier to the name it denotes, if any. */
    function Get(t: Id): (r: Option<Name>)
      ensures r.Some? ==> r.value in Names() && r.value.id == t
    {
      FindName(Names(), t)
    }

    /** An identifier is unknown exactly when no name of the layout carries it. */
    lemma GetNone(t: Id)
      ensures Get(t).None? <==> forall n <- Names() :: n.id != t
    {
      FindNameNone(Names(), t);
    }

    /** Sparse and dense tables have a composite comparator. */
    predicate IsComposite() {
      kind == Sparse || kind == Dense
    }

    /** Dynamic and dense tables are compact storage. */
    predicate IsCompact() {
      kind == Dynamic || kind == Dense
    }

    /** The shape a column family definition guarantees for its kind. */
    predicate Valid() {
      var ns := Names();
      && (forall i, j | 0 <= i < j < |ns| :: ns[i].id != ns[j].id)
      && match kind
         case Static => columns == [] && value.None?
         case Sparse => |columns| >= 1 && value.None?
         case Dynamic => |columns| == 1 && metadata == []
         case Dense => |columns| >= 1 && metadata == []
    }
  }

  /** The first name of `names` whose identifier is `t`. */
  function FindName(names: seq<Name>, t: Id): (r: Option<Name>)
    ensures r.Some? ==> r.value in names && r.value.id == t
  {
    if names == [] then None
    else if names[0].id == t then Some(names[0])
    else FindName(names[1..], t)
  }

  lemma {:induction false} FindNameNone(names: seq<Name>, t: Id)
    ensures FindName(names, t).None? <==> forall n <- names :: n.id != t
  {
    if names != [] {
      FindNameNone(names[1..], t);
      assert forall n <- names :: n == names[0] || n in names[1..];
    }
  }

  /** The comparison operators of relations, builders and index expressions. */
  datatype Op = EQ | LT | LTE | GTE | GT

  /** A relation of the WHERE clause. */
  datatype Relation =
    | Compare(entity: Id, op: Op, value: Term)
    | In(entity: Id, values: seq<Term>)

  /** The parameters of a SELECT (the consistency level is not modelled). */
  datatype Parameters = Parameters(limit: Int32, reversed: bool, isCount: bool)

  /** A SELECT as parsed: parameters, select clause and WHERE clause. */
  datatype RawStatement = RawStatement(parameters: Parameters, selectClause: seq<Id>, whereClause: seq<Relation>)

  datatype Error =
    | InvalidLimit
    | UnsupportedCount
    | UnknownField
    | UnsupportedRestriction
    | ConflictingRestriction
    | InvalidIn
    | NonPrefixRestriction
    | NoIndexedEquality
    | IndexedInUnsupported
    | UnsupportedReversal
    | IllegalState
    | AssertionFailure

  /** On a valid layout, every name is found by its own identifier. */
  lemma {:induction false} ValidGet(l: Layout, n: Name)
    requires l.Valid() && n in l.Names()
    ensures l.Get(n.id) == Some(n)
  {
    var ns := l.Names();
    var k :| 0 <= k < |ns| && ns[k] == n;
    FindFirst(ns, k);
  }

  lemma {:induction false} FindFirst(ns: seq<Name>, k: nat)
    requires k < |ns|
    requires forall i, j | 0 <= i < j < |ns| :: ns[i].id != ns[j].id
    ensures FindName(ns, ns[k].id) == Some(ns[k])
  {
    if k > 0 {
      assert ns[0].id != ns[k].id;
      FindFirst(ns[1..], k - 1);
    }
  }
}
