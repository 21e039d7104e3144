# CQL3 SELECT: restriction compiler, query shape and row reconstruction

This project models the read path of a CQL3 `SELECT` in Cassandra's
`SelectStatement` and proves properties of the model in Dafny. The model has
three parts, each in its own module.

- **The restriction compiler** (`Compiler`, proved in `CompilerLemmas`). A raw
  statement is a limit, a select clause and a list of WHERE relations. It is
  compiled against a table layout and the set of indexed columns.
  - The relations are folded one by one into a map from column to
    `Restriction`. A restriction is either an equality list or a start/end
    pair with inclusive flags.
  - Three checks then run: clustering-prefix contiguity, the secondary-index
    rules (which rewrite a key equality into a `[v, v]` range), and the
    reversal gate.
  - `Compile` is the specification. The `Preprocess` method and its stage
    loops are proved to compute exactly that function.
- **The query shape** (`Statements`, `Query`). A compiled `Statement`
  determines, among others:
  - whether the query is a key range, and its keys and key bounds;
  - whether it reads a clustering slice, and either the slice bounds or the
    named columns to fetch;
  - the secondary-index expressions and the fetch limit.
- **Row reconstruction** (`Rows`). The storage rows a query returns are turned
  into CQL rows, depending on the table kind:
  - static tables give one row per partition;
  - sparse tables give one row per run of cells that share a clustering prefix;
  - dynamic and dense tables give one row per cell.

  The list is then reversed if asked and cut to the limit. A count query
  instead answers a single row.

Table layouts (`Schema.Layout`) stand for the column family definition. The
model relies on the following properties of that definition:

- Names iterate in this order: the key, the clustering columns, the value
  alias, then the metadata columns.
- Sparse and dense tables are composite. Dynamic and dense tables are compact.
- A sparse comparator has one component per clustering column plus one for the
  column name. So the column-name component has index `|columns|`.
- The clustering column of a dynamic table is its only column.

`Layout.Valid` states these shapes.

Decisions the model takes:

- Java `assert`s of two kinds become `requires`. The first kind is about the
  caller's contract: `isColumnRange` on entry to the request builders, equal
  lengths in `isSameRow`. The second kind is an `AssertionError` on a name
  kind that a well-formed table cannot have.
- Asserts and index errors that depend on data become
  `Failure(AssertionFailure)`: an equality list without exactly one value,
  `get(0)` on an empty IN list, an ill-sized sparse cell name.
- Identifiers are compared as exact byte strings.
- A count answers the number of storage rows, `rows.size()`. On sparse and
  compact tables that is the number of partitions, not of CQL rows. The model
  keeps this.
- `Wrappers` holds the usual `Option` and `Result` types.

Where the code and the documented behaviour of the index rules differ, the
model follows the code. The key `EQ` → `[v, v]` rewrite and the rejection of
a multi-value key `IN` (SelectStatement.java lines 736-749) run whenever the
table has metadata columns. No indexed expression needs to be present. As a
result, a reversed query on a table with metadata columns is always rejected
(`CompilerLemmas.ReversedRejectedWithMetadata`).

## Model

| member | source | states |
|---|---|---|
| Schema.Layout.Get | src/java/org/apache/cassandra/cql3/statements/SelectStatement.java:622-625 | a resolved identifier denotes a name of the layout that carries that identifier |
| Schema.Layout.GetNone | src/java/org/apache/cassandra/cql3/statements/SelectStatement.java:622-625 | resolving fails exactly when no name of the layout carries the identifier |
| Schema.ValidGet | src/java/org/apache/cassandra/cql3/statements/SelectStatement.java:622-625 | on a valid layout, every name of the layout is found by its own identifier |
| Schema.Wrap32 | src/java/org/apache/cassandra/cql3/statements/SelectStatement.java:88 | Java int arithmetic: the result agrees with the exact product modulo 2^32 and equals it when it fits |
| Statements.HasOpenColumn | src/java/org/apache/cassandra/cql3/statements/SelectStatement.java:180-186 | the clustering walk finds an open column exactly when some clustering column is unrestricted or not an equality |
| Statements.Statement.GetKeys | src/java/org/apache/cassandra/cql3/statements/SelectStatement.java:106-116 | a key equality yields its value list; anything else is an illegal state |
| Statements.Statement.GetKeyStart | src/java/org/apache/cassandra/cql3/statements/SelectStatement.java:118-134 | no key restriction gives no bound (the source's null); an equality must hold exactly one value and gives it; a range gives its start or the empty bound; the values are stated by `Query.KeyEqualityBounds`, `Query.KeySideBound`, `Query.KeyOpenSide` and `Query.KeyUnrestrictedBounds` |
| Statements.Statement.GetKeyFinish | src/java/org/apache/cassandra/cql3/statements/SelectStatement.java:145-161 | the same for the finish bound and the end term: no key restriction gives no bound (null), a range without an end gives the empty bound |
| Statements.Statement.IncludeStartKey | src/java/org/apache/cassandra/cql3/statements/SelectStatement.java:136-143 | an exclusive start is always an actual key bound, never null; its value for `key = v` is tied down by `Query.KeyEqualityBounds` (inclusive), for `key > w` / `key >= w` by `Query.KeySideBound` (inclusive exactly for `>=`), for a missing side by `Query.KeyOpenSide` (exclusive) |
| Statements.Statement.IncludeFinishKey | src/java/org/apache/cassandra/cql3/statements/SelectStatement.java:163-170 | the same for the finish bound, tied to the same lemmas with `<` / `<=` |
| Statements.Statement.IsKeyRange | src/java/org/apache/cassandra/cql3/statements/SelectStatement.java:97-104 | the statement scans a key range exactly when it has an indexed expression or `getKeys` would be illegal (no key equality); `Query.KeyRangeIff` gives it in terms of the WHERE clause |
| Statements.Statement.IsColumnRange | src/java/org/apache/cassandra/cql3/statements/SelectStatement.java:172-187 | a column slice exactly when the table is not static and some clustering column is unrestricted or not an equality; `Query.ColumnRangeIff` gives it in terms of the WHERE clause |
| Statements.Statement.ExpandedSelection | src/java/org/apache/cassandra/cql3/statements/SelectStatement.java:342-355 | a wildcard expands to every name of the layout in order, each under its own identifier; an explicit selection is kept as is |
| Statements.Statement.GetLimit | src/java/org/apache/cassandra/cql3/statements/SelectStatement.java:82-90 | compact tables fetch the limit; other tables fetch the limit times the number of metadata columns, wrapped to 32 bits as written |
| Statements.Statement.FetchLimit | src/java/org/apache/cassandra/cql3/statements/SelectStatement.java:82-90 | the intended fetch limit: never below the asked limit on compact tables and on tables with metadata columns, and equal to the as-written one whenever the product fits in an int |
| Compiler.BindSelectClause | src/java/org/apache/cassandra/cql3/statements/SelectStatement.java:613-631 | the select-clause loop computes `BindSelection`: count takes only `*` or `1`, and otherwise every identifier is resolved in order |
| Compiler.BindWhereClause | src/java/org/apache/cassandra/cql3/statements/SelectStatement.java:639-689 | the WHERE loop, which updates restrictions in place, computes the fold `BindFrom` of `ApplyRelation` |
| Compiler.CheckPrefix | src/java/org/apache/cassandra/cql3/statements/SelectStatement.java:698-711 | the `shouldBeDone` loop accepts exactly when every restricted clustering column comes after only equality-restricted columns |
| Compiler.ApplyIndexRules | src/java/org/apache/cassandra/cql3/statements/SelectStatement.java:714-750 | the metadata loop and the key rewrite compute `IndexRules` |
| Compiler.Preprocess | src/java/org/apache/cassandra/cql3/statements/SelectStatement.java:602-761 | preprocess computes `Compile`: limit check, selection, WHERE fold, prefix rule, index rules, reversal gate, each with its error |
| CompilerLemmas.NamesKinds | src/java/org/apache/cassandra/cql3/statements/SelectStatement.java:685 | the first name of a layout is the key alias and no other name is |
| CompilerLemmas.ApplyKeys | src/java/org/apache/cassandra/cql3/statements/SelectStatement.java:647-688 | an accepted relation adds only its own column to the map and changes no other column |
| CompilerLemmas.ApplyInstalls | src/java/org/apache/cassandra/cql3/statements/SelectStatement.java:651-688 | EQ installs `[v]`, IN installs its list, GT/GTE set the start and LT/LTE the end, with the inclusive flag true for GTE/LTE |
| CompilerLemmas.ApplySingleton | src/java/org/apache/cassandra/cql3/statements/SelectStatement.java:651-688 | only an IN on the partition key can leave an equality list with other than one value |
| CompilerLemmas.ApplyStep | src/java/org/apache/cassandra/cql3/statements/SelectStatement.java:647-688 | an accepted relation adds only its own column, keeps what was already decided, keeps the flags tidy and the off-key equalities single, and installs what its operator denotes |
| CompilerLemmas.UnknownRejected | src/java/org/apache/cassandra/cql3/statements/SelectStatement.java:642-644 | a relation fails as an unknown field exactly when its identifier names no column of the table |
| CompilerLemmas.UnknownNameRejected | src/java/org/apache/cassandra/cql3/statements/SelectStatement.java:639-644 | a WHERE clause with a relation on an unknown identifier is rejected |
| CompilerLemmas.BoundProvenance | src/java/org/apache/cassandra/cql3/statements/SelectStatement.java:656-681 | a column carries a lower (upper) bound after the fold only if some GT/GTE (LT/LTE) relation names it |
| CompilerLemmas.BindPreserves | src/java/org/apache/cassandra/cql3/statements/SelectStatement.java:639-689 | whatever later relations are accepted, an equality or a bound already set stays as it is |
| CompilerLemmas.EqualityConflict | src/java/org/apache/cassandra/cql3/statements/SelectStatement.java:651-684 | an EQ or IN on a column that an earlier relation restricted is rejected |
| CompilerLemmas.BoundConflict | src/java/org/apache/cassandra/cql3/statements/SelectStatement.java:656-681 | a second lower bound, or a second upper bound, on one column is rejected |
| CompilerLemmas.InOnlyOnKey | src/java/org/apache/cassandra/cql3/statements/SelectStatement.java:645-686 | an IN on any column but the key, and any relation on the value alias, is rejected |
| CompilerLemmas.RelationRecorded | src/java/org/apache/cassandra/cql3/statements/SelectStatement.java:651-688 | every relation of an accepted clause is in the map: EQ/IN as its equality list, GT/GTE as its start, LT/LTE as its end, inclusive exactly for GTE/LTE |
| CompilerLemmas.RestrictionProvenance | src/java/org/apache/cassandra/cql3/statements/SelectStatement.java:639-689 | a column is restricted only if some relation names it, and holds an equality only if some EQ or IN names it |
| CompilerLemmas.RangeAfterEqualityAccepted | src/java/org/apache/cassandra/cql3/statements/SelectStatement.java:651-668 | `c = v` followed by `c > w` is accepted and leaves c an equality that also carries the start w |
| CompilerLemmas.ContiguousPrefixShape | src/java/org/apache/cassandra/cql3/statements/SelectStatement.java:698-711 | the prefix rule holds exactly when the restricted clustering columns are a leading run whose members, all but the last, are equalities |
| CompilerLemmas.PrefixGate | src/java/org/apache/cassandra/cql3/statements/SelectStatement.java:698-711 | once earlier stages accept, preprocess fails for the prefix exactly when the prefix rule fails |
| CompilerLemmas.SelectionResolved | src/java/org/apache/cassandra/cql3/statements/SelectStatement.java:619-630 | a non-count select clause binds exactly when every identifier names a column, keeping the clause's order and requested identifiers |
| CompilerLemmas.IndexRulesFacts | src/java/org/apache/cassandra/cql3/statements/SelectStatement.java:714-750 | indexed expression iff a metadata column is restricted; then some restricted metadata equality is indexed; single-value key equality becomes start = end = v inclusive; other columns untouched |
| CompilerLemmas.CompiledWellFormed | src/java/org/apache/cassandra/cql3/statements/SelectStatement.java:602-761 | a compiled statement has a positive limit, selects only names of its table, and holds one value per clustering equality |
| CompilerLemmas.ReversedRejectedWithMetadata | src/java/org/apache/cassandra/cql3/statements/SelectStatement.java:736-759 | on a table with metadata columns, every reversed query is rejected |
| CompilerLemmas.ReversalGate | src/java/org/apache/cassandra/cql3/statements/SelectStatement.java:754-759 | a reversed query compiles only without metadata columns and with an EQ or IN on the key; there, reversing an accepted query keeps it accepted and changes only the flag |
| CompilerLemmas.IndexedExpressionMeaning | src/java/org/apache/cassandra/cql3/statements/SelectStatement.java:714-735 | the statement has an indexed expression exactly when some relation names a metadata column, and then some EQ/IN names an indexed metadata column |
| Query.EqPrefixLength | src/java/org/apache/cassandra/cql3/statements/SelectStatement.java:255-276 | the length of the leading run of clustering equalities, and the column after it is not an equality |
| Query.GetRequestedBound | src/java/org/apache/cassandra/cql3/statements/SelectStatement.java:247-303 | composite kinds: the equality value of each leading equality column in order, then at the first range column that side's term if present (GTE/GT for start, LTE/LT for finish), stopping at an unrestricted column; dynamic: the side's term or the empty name; fails exactly on an equality without one value |
| Query.GetRequestedColumns | src/java/org/apache/cassandra/cql3/statements/SelectStatement.java:194-235 | static/sparse: the selected metadata columns in order, behind the clustering composite for sparse; dynamic: the one clustering value; dense: the full composite; fails exactly on an equality without one value |
| Query.SelectMetadataNames | src/java/org/apache/cassandra/cql3/statements/SelectStatement.java:216-224 | the selection loop keeps only metadata names, in selection order |
| Query.WellFormedRequestsSucceed | src/java/org/apache/cassandra/cql3/statements/SelectStatement.java:205-263 | for a compiled statement the request builders never fail their assertions |
| Query.GetIndexExpressions | src/java/org/apache/cassandra/cql3/statements/SelectStatement.java:305-340 | nothing without an indexed expression; otherwise, per metadata column in order, one EQ per equality value or the start and end bounds, as written |
| Query.MetadataExpressionsShape | src/java/org/apache/cassandra/cql3/statements/SelectStatement.java:311-338 | every expression names a restricted metadata column, and none compares with LT or LTE |
| Query.MetadataExpressionsCover | src/java/org/apache/cassandra/cql3/statements/SelectStatement.java:311-338 | conversely, every restricted metadata column sends an EQ for each of its values, or each bound it has, the end bound with GTE/GT as written |
| Query.CompareBytes | src/java/org/apache/cassandra/cql3/statements/SelectStatement.java:329-335 | an assumption, not code of this file: unsigned lexicographic byte order stands for the column type's comparator that gives the GT/GTE/LT/LTE of index expressions their meaning; three-way, zero exactly on equal values |
| Query.IntendedExpressionsExact | src/java/org/apache/cassandra/cql3/statements/SelectStatement.java:325-337 | with the end bound compared by LTE/LT, a value satisfies all expressions of a range restriction exactly when it lies within its bounds |
| Query.IndexEndBoundAsWritten | src/java/org/apache/cassandra/cql3/statements/SelectStatement.java:335 | as written, `c < [5]` becomes `c > [5]`, which the empty value, inside the range, fails |
| Query.IndexEndBoundThroughCompile | src/java/org/apache/cassandra/cql3/statements/SelectStatement.java:335 | on a static table with metadata columns c and d, d indexed, `d = [1] AND c < [5]` compiles and its index expressions ask for `c > [5]`, which the empty value, inside the range, fails |
| Query.KeyRangeIff | src/java/org/apache/cassandra/cql3/statements/SelectStatement.java:97-104 | a compiled statement scans a key range exactly when the table has metadata columns or no EQ/IN names the key |
| Query.ColumnRangeIff | src/java/org/apache/cassandra/cql3/statements/SelectStatement.java:172-187 | a compiled statement reads a slice exactly when the table is not static and some clustering column has no EQ/IN |
| Query.KeyEqualityBounds | src/java/org/apache/cassandra/cql3/statements/SelectStatement.java:118-170 | with `key = v`, the key bounds are v and v, both inclusive, whether or not the index rules rewrote the equality |
| Query.KeyUnrestrictedBounds | src/java/org/apache/cassandra/cql3/statements/SelectStatement.java:118-170 | with no relation on the partition key, both key bounds are null, both inclusive, and there are no multiget keys |
| Query.KeySideBound | src/java/org/apache/cassandra/cql3/statements/SelectStatement.java:118-170 | without an EQ or IN on the key, `key > w` (`>=`, `<`, `<=`) gives the start (finish) key w, inclusive exactly for `>=` (`<=`) |
| Query.KeyOpenSide | src/java/org/apache/cassandra/cql3/statements/SelectStatement.java:118-170 | without an EQ or IN on the key, a side that no relation bounds gives the empty key, exclusive |
| Query.MultigetKeys | src/java/org/apache/cassandra/cql3/statements/SelectStatement.java:106-116 | without metadata columns, the keys of a multiget are the values of the key's EQ or IN |
| Query.NoMetadataFetchesNothing | src/java/org/apache/cassandra/cql3/statements/SelectStatement.java:82-90 | a table that is neither compact nor has metadata columns fetches 0 columns, both as written and as intended |
| Query.GetLimitOverflow | src/java/org/apache/cassandra/cql3/statements/SelectStatement.java:88 | two metadata columns and a limit of 2^30 make the as-written fetch limit -2^31, while the intended one is the largest int |
| Rows.LongRoundTrip | src/java/org/apache/cassandra/cql3/statements/SelectStatement.java:360-379 | a long encoded as eight big-endian bytes decodes back to itself |
| Rows.CellValue | src/java/org/apache/cassandra/cql3/statements/SelectStatement.java:357-362 | a non-counter cell shows its stored bytes; a counter shows eight bytes that decode back to its total (see `Rows.LongRoundTrip`) |
| Rows.LiveMembers | src/java/org/apache/cassandra/cql3/statements/SelectStatement.java:444-472 | the cells kept are exactly the cells that are not tombstones |
| Rows.FindCell | src/java/org/apache/cassandra/cql3/statements/SelectStatement.java:423 | a cell lookup finds a cell of that name, and fails exactly when none has it |
| Rows.BuildStaticRow | src/java/org/apache/cassandra/cql3/statements/SelectStatement.java:403-431 | the static-row loop computes `StaticRow` |
| Rows.StaticRowShape | src/java/org/apache/cassandra/cql3/statements/SelectStatement.java:403-431 | a found partition gives one column per selected name in order; a data column is set exactly when a live cell of that name exists; a missing partition gives only key columns |
| Rows.StaticTombstonesInvisible | src/java/org/apache/cassandra/cql3/statements/SelectStatement.java:423-427 | dropping the tombstones of a static partition leaves its row unchanged |
| Rows.IsSameRow | src/java/org/apache/cassandra/cql3/statements/SelectStatement.java:537-551 | names of equal length share a row exactly when they agree on all but the last component |
| Rows.SameRowIff | src/java/org/apache/cassandra/cql3/statements/SelectStatement.java:537-551 | the componentwise predicate used by the grouping agrees with prefix equality |
| Rows.RunsCover | src/java/org/apache/cassandra/cql3/statements/SelectStatement.java:440-461 | the groups cover the live cells exactly, in order |
| Rows.RunsWithin | src/java/org/apache/cassandra/cql3/statements/SelectStatement.java:447-457 | consecutive cells of one group share a row |
| Rows.RunsBetween | src/java/org/apache/cassandra/cql3/statements/SelectStatement.java:447-452 | the last cell of a group and the first of the next do not share a row, so every boundary starts a new row |
| Rows.GroupMapLast | src/java/org/apache/cassandra/cql3/statements/SelectStatement.java:455-457 | a column name is in a group's map exactly when a cell of the run carries it, and maps to the last such cell |
| Rows.HandleGroup | src/java/org/apache/cassandra/cql3/statements/SelectStatement.java:553-586 | handleGroup computes `GroupRow`: key and clustering columns with timestamp -1, metadata columns from the group's live cells |
| Rows.BuildSparseRows | src/java/org/apache/cassandra/cql3/statements/SelectStatement.java:432-462 | the grouping loop yields one row per group of live cells, or fails exactly when some live cell name is too short or differs in length from the others |
| Rows.SparseClusteringShared | src/java/org/apache/cassandra/cql3/statements/SelectStatement.java:570-572 | each clustering column of a sparse row shows the component that every cell of its group shares |
| Rows.BuildCellRows | src/java/org/apache/cassandra/cql3/statements/SelectStatement.java:463-519 | the per-cell loop computes `CellRows`, one row per live cell in order |
| Rows.BuildCellRow | src/java/org/apache/cassandra/cql3/statements/SelectStatement.java:480-515 | the per-selection loop computes `CellRow`: one column per selected name, in selection order |
| Rows.DynamicRowMeaning | src/java/org/apache/cassandra/cql3/statements/SelectStatement.java:493-509 | a dynamic row shows its live cell's name as the clustering column and its value as the value column |
| Rows.DenseRowMeaning | src/java/org/apache/cassandra/cql3/statements/SelectStatement.java:480-509 | a dense row shows the key, each clustering column as the name component at its position or the empty value when the name is shorter, and the cell's value, with the cell's timestamp |
| Rows.WellFormedShows | src/java/org/apache/cassandra/cql3/statements/SelectStatement.java:510-576 | the selection of a compiled statement never reaches the assertion on an impossible name kind |
| Rows.ShapeAt | src/java/org/apache/cassandra/cql3/statements/SelectStatement.java:522-525 | the result has min(n, limit) rows: the first ones, or the last ones in reverse order |
| Rows.BuildPartitionRows | src/java/org/apache/cassandra/cql3/statements/SelectStatement.java:401-519 | the per-storage-row switch computes `PartitionRows`: one static row, the sparse groups, or one row per live cell, and nothing for a missing partition of a non-static table |
| Rows.Process | src/java/org/apache/cassandra/cql3/statements/SelectStatement.java:393-529 | process computes the rows of each storage row, concatenated, reversed if asked and cut to the limit, and fails on the first failing partition |
| Rows.StaticRowPerPartition | src/java/org/apache/cassandra/cql3/statements/SelectStatement.java:403-431 | a static table yields exactly one row per storage row, in order, found or not |
| Rows.TombstonesInvisible | src/java/org/apache/cassandra/cql3/statements/SelectStatement.java:423-472 | for every table kind, dropping tombstones first leaves a partition's rows unchanged |
| Rows.ProcessResult | src/java/org/apache/cassandra/cql3/statements/SelectStatement.java:371-391 | a count answers exactly one row holding the number of storage rows; otherwise the result of process |
| Rows.CountRowDecodes | src/java/org/apache/cassandra/cql3/statements/SelectStatement.java:379-381 | the count row has one column named `count` whose eight bytes decode to the number of storage rows |
| Rows.CompiledProcessable | src/java/org/apache/cassandra/cql3/statements/SelectStatement.java:393-529 | every statement that preprocess produces meets the preconditions of process |

## Left out

- The schema and consistency validation calls (lines 604-605) are foreign calls to the catalog. The table layout and the indexed set are parameters instead.
- The index manager lookup (line 717) is replaced by the `indexed` parameter.
- The CompositeType encoding is not modelled. Composite names are sequences of components, either `ColumnName.Composite` parts or the `split` function of `Rows.Codec`, and `split` is a parameter.
- Term binding (`getByteBuffer` with bind variables) is not modelled: terms are already-bound byte strings.
- `CounterContext.total` is the `total` parameter of `Rows.Codec`. Only its result's encoding as a long is modelled.
- `addToSchema`, `CqlMetadata` and the type-name strings of the result are metadata plumbing and are left out.
- `toString`, `keyspace`, `columnFamily`, `getConsistencyLevel` and `isWildcard`'s use in an assertion are left out; the consistency level is not part of `Parameters`.
- The model does not capture the in-place sharing of `Restriction` objects. Restrictions are values in a map, and each update is a map update.
- Per-partition results are concatenated as sequences. `Collections.reverse` on the result list is the `Reverse` function, not an in-place loop.
- Rows.BuildSparseRows: an ill-sized name fails as `AssertionFailure`, whether Java raises an `AssertionError` (lengths differ) or an index exception (too few components). Either way the whole query fails.
- Query.GetRequestedBound: if no clustering column is open, Java hits `assert isColumnRange()` (static tables land here). That case is a `requires`, so its unreachable static branch is not modelled.
- Case handling of identifiers is done by the parser, which is not part of this model.
- The column comparator of each type is not part of this model. The meaning of index operators (`Query.Satisfies`, `Query.InBounds`) rests on unsigned lexicographic byte order (`Query.CompareBytes`), which stands for the column type's comparator. `Query.IntendedExpressionsExact` and the empty-value witness of the line-335 finding are proved against that order only.
- `ColumnIdentifier.equals` is not part of this model. Line 616 compares a select identifier with the strings `"*"` and `"1"`; `Compiler.BindSelection` reads that as a byte comparison of the identifier with `STAR` and `ONE`.

## Findings

| source | as written | input that shows it | evidently intended | confidence | as-written member | corrected member |
|---|---|---|---|---|---|---|
| src/java/org/apache/cassandra/cql3/statements/SelectStatement.java:335 | the end bound of a range on an indexed column is sent with `GTE`/`GT` | `d = [1] AND c < [5]` on metadata columns c and d with d indexed: the statement compiles and the bound is sent as `c > [5]`, and the empty value, which satisfies `c < [5]`, fails it | the end bound uses `LTE`/`LT`, so the expressions hold exactly of the values within the bounds | high, not executed | Query.IndexEndBoundThroughCompile | Query.IntendedColumnExpressions |
| src/java/org/apache/cassandra/cql3/statements/SelectStatement.java:88 | `metadata.size() * limit` in 32-bit int arithmetic | a sparse table with two metadata columns and `LIMIT 1073741824`: the product wraps to -2147483648 | a product that saturates at the largest int, so it cannot go below the asked limit on a table with metadata columns (a non-compact table without them fetches 0 columns either way) | medium, not executed | Query.GetLimitOverflow | Statements.Statement.FetchLimit |
