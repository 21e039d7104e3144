/**
 * What the WHERE-clause fold and the later compilation rules guarantee:
 * which relation sequences are rejected, what an accepted relation leaves
 * in the restriction map, and the shape of every compiled statement.
 */
module CompilerLemmas {
  import opened Wrappers
  import opened Schema
  import opened Statements
  import opened Compiler

  predicate IsEqualityRelation(rel: Relation) {
    rel.In? || rel.op == EQ
  }

  predicate IsLowerBound(rel: Relation) {
    rel.Compare? && (rel.op == GT || rel.op == GTE)
  }

  predicate IsUpperBound(rel: Relation) {
    rel.Compare? && (rel.op == LT || rel.op == LTE)
  }

  /** The equality list an EQ or IN relation installs. */
  function EqValuesOf(rel: Relation): seq<Term>
    requires IsEqualityRelation(rel)
  {
    if rel.In? then rel.values else [rel.value]
  }

  /** An inclusive flag is only ever set together with its bound. */
  predicate Tidy(m: map<Id, Restriction>) {
    forall e | e in m :: (m[e].start.None? ==> !m[e].startInclusive) && (m[e].end.None? ==> !m[e].endInclusive)
  }

  /** Only the partition key can carry an equality list of other than one value. */
  predicate SingletonOffKey(layout: Layout, m: map<Id, Restriction>) {
    forall e | e in m && e != layout.key && m[e].IsEquality() :: |m[e].eqValues.value| == 1
  }

  /** `b` keeps what `a` had decided: its equality list and every bound already set. */
  predicate Kept(a: Restriction, b: Restriction) {
    && b.eqValues == a.eqValues
    && (a.start.Some? ==> b.start == a.start && b.startInclusive == a.startInclusive)
    && (a.end.Some? ==> b.end == a.end && b.endInclusive == a.endInclusive)
  }

  /** Only the first name of a layout, its partition key, is a key alias. */
  lemma NamesKinds(layout: Layout)
    ensures layout.Names()[0] == layout.KeyName()
    ensures forall i | 1 <= i < |layout.Names()| :: layout.Names()[i].kind != KeyAlias
  {
    var ns := layout.Names();
    var c := |layout.ColumnNames()|;
    var v := |layout.ValueNames()|;
    forall i | 1 <= i < |ns| ensures ns[i].kind != KeyAlias {
      if i <= c {
        assert ns[i] == layout.ColumnNames()[i - 1];
      } else if i <= c + v {
        assert ns[i] == layout.ValueNames()[i - 1 - c];
      } else {
        assert ns[i] == layout.MetadataNames()[i - 1 - c - v];
      }
    }
  }

  lemma KeyAliasIsKey(layout: Layout, n: Name)
    requires n in layout.Names() && n.kind == KeyAlias
    ensures n.id == layout.key
  {
    NamesKinds(layout);
  }

  /** What one accepted relation does to the columns of the map. */
  lemma ApplyKeys(m: map<Id, Restriction>, rel: Relation, layout: Layout)
    requires ApplyRelation(m, rel, layout).Success?
    ensures var m' := ApplyRelation(m, rel, layout).value;
      && m'.Keys == m.Keys + {rel.entity}
      && (forall e | e in m && e != rel.entity :: m'[e] == m[e])
      && (rel.entity in m ==> Kept(m[rel.entity], m'[rel.entity]))
      && (IsLowerBound(rel) ==> m'[rel.entity].start == Some(rel.value))
      && (IsUpperBound(rel) ==> m'[rel.entity].end == Some(rel.value))
  {
    var name := layout.Get(rel.entity).value;
    assert name.id == rel.entity;
    var r := if name.id in m then m[name.id] else Unbounded;
    var m' := ApplyRelation(m, rel, layout).value;
    if rel.In? || rel.op == EQ {
      assert m' == m[name.id := Equality(EqValuesOf(rel))];
    } else if rel.op == GT || rel.op == GTE {
      assert m' == m[name.id := r.(start := Some(rel.value), startInclusive := rel.op == GTE || r.startInclusive)];
    } else {
      assert m' == m[name.id := r.(end := Some(rel.value), endInclusive := rel.op == LTE || r.endInclusive)];
    }
  }

  /** An accepted relation keeps the flags tidy and installs what it denotes. */
  lemma ApplyInstalls(m: map<Id, Restriction>, rel: Relation, layout: Layout)
    requires ApplyRelation(m, rel, layout).Success?
    ensures var m' := ApplyRelation(m, rel, layout).value;
      && (Tidy(m) ==> Tidy(m'))
      && (IsEqualityRelation(rel) ==> rel.entity !in m && m'[rel.entity] == Equality(EqValuesOf(rel)))
      && (IsLowerBound(rel) && Tidy(m) ==>
            m'[rel.entity].start == Some(rel.value) && m'[rel.entity].startInclusive == (rel.op == GTE))
      && (IsUpperBound(rel) && Tidy(m) ==>
            m'[rel.entity].end == Some(rel.value) && m'[rel.entity].endInclusive == (rel.op == LTE))
  {
    var m' := ApplyRelation(m, rel, layout).value;
    ApplyKeys(m, rel, layout);
    if Tidy(m) {
      forall e | e in m'
        ensures (m'[e].start.None? ==> !m'[e].startInclusive) && (m'[e].end.None? ==> !m'[e].endInclusive)
      {
        if e != rel.entity {
          assert m'[e] == m[e];
        }
      }
    }
  }

  /** Only an IN on the partition key installs an equality list of other than one value. */
  lemma ApplySingleton(m: map<Id, Restriction>, rel: Relation, layout: Layout)
    requires ApplyRelation(m, rel, layout).Success?
    ensures SingletonOffKey(layout, m) ==> SingletonOffKey(layout, ApplyRelation(m, rel, layout).value)
  {
    var m' := ApplyRelation(m, rel, layout).value;
    ApplyKeys(m, rel, layout);
    if SingletonOffKey(layout, m) {
      forall e | e in m' && e != layout.key && m'[e].IsEquality()
        ensures |m'[e].eqValues.value| == 1
      {
        if e == rel.entity {
          var n := layout.Get(rel.entity).value;
          if rel.In? {
            assert n.kind == KeyAlias;
            KeyAliasIsKey(layout, n);
          } else if rel.op != EQ {
            assert e in m && m'[e].eqValues == m[e].eqValues;
          }
        } else {
          assert m'[e] == m[e];
        }
      }
    }
  }

  lemma ApplyStep(m: map<Id, Restriction>, rel: Relation, layout: Layout)
    requires ApplyRelation(m, rel, layout).Success?
    ensures var m' := ApplyRelation(m, rel, layout).value;
      && m'.Keys == m.Keys + {rel.entity}
      && (forall e | e in m && e != rel.entity :: m'[e] == m[e])
      && (rel.entity in m ==> Kept(m[rel.entity], m'[rel.entity]))
      && (Tidy(m) ==> Tidy(m'))
      && (SingletonOffKey(layout, m) ==> SingletonOffKey(layout, m'))
      && (IsEqualityRelation(rel) ==> rel.entity !in m && m'[rel.entity] == Equality(EqValuesOf(rel)))
      && (IsLowerBound(rel) && Tidy(m) ==>
            m'[rel.entity].start == Some(rel.value) && m'[rel.entity].startInclusive == (rel.op == GTE))
      && (IsUpperBound(rel) && Tidy(m) ==>
            m'[rel.entity].end == Some(rel.value) && m'[rel.entity].endInclusive == (rel.op == LTE))
  {
    ApplyKeys(m, rel, layout);
    ApplyInstalls(m, rel, layout);
    ApplySingleton(m, rel, layout);
  }

  /** A relation is rejected as an unknown field exactly when its identifier names no column. */
  lemma UnknownRejected(m: map<Id, Restriction>, rel: Relation, layout: Layout)
    ensures ApplyRelation(m, rel, layout) == Failure(UnknownField) <==> layout.Get(rel.entity).None?
  {
  }

  lemma {:induction false} UnknownFailsFrom(m: map<Id, Restriction>, rels: seq<Relation>, layout: Layout, j: nat)
    requires j < |rels| && layout.Get(rels[j].entity).None?
    ensures BindFrom(m, rels, layout).Failure?
    decreases |rels|
  {
    BindFromCons(m, rels, layout);
    if j == 0 {
      UnknownRejected(m, rels[0], layout);
    } else if ApplyRelation(m, rels[0], layout).Success? {
      var rest := rels[1..];
      assert rest[j - 1] == rels[j];
      UnknownFailsFrom(ApplyRelation(m, rels[0], layout).value, rest, layout, j - 1);
    }
  }

  /** A WHERE clause with a relation on an unknown identifier is rejected. */
  lemma UnknownNameRejected(rels: seq<Relation>, layout: Layout, j: nat)
    requires j < |rels| && layout.Get(rels[j].entity).None?
    ensures BindFrom(map[], rels, layout).Failure?
  {
    UnknownFailsFrom(map[], rels, layout, j);
  }

  /** A bound of a column after one relation was already there, or that relation set it. */
  lemma ApplySide(m: map<Id, Restriction>, rel: Relation, layout: Layout, lower: bool, e: Id)
    requires ApplyRelation(m, rel, layout).Success? && e in ApplyRelation(m, rel, layout).value
    ensures Side(ApplyRelation(m, rel, layout).value[e], lower).Some? ==>
      (e in m && Side(m[e], lower).Some?) || (SameSide(rel, lower) && rel.entity == e)
  {
    ApplyKeys(m, rel, layout);
    var m' := ApplyRelation(m, rel, layout).value;
    if e == rel.entity {
      var name := layout.Get(rel.entity).value;
      var r := if name.id in m then m[name.id] else Unbounded;
      if rel.In? || rel.op == EQ {
        assert m'[e] == Equality(EqValuesOf(rel));
      } else if rel.op == GT || rel.op == GTE {
        assert m'[e] == r.(start := Some(rel.value), startInclusive := rel.op == GTE || r.startInclusive);
      } else {
        assert m'[e] == r.(end := Some(rel.value), endInclusive := rel.op == LTE || r.endInclusive);
      }
    }
  }

  lemma {:induction false} BoundProvenanceFrom(m: map<Id, Restriction>, rels: seq<Relation>, layout: Layout, lower: bool)
    requires BindFrom(m, rels, layout).Success?
    ensures var m2 := BindFrom(m, rels, layout).value;
      forall e | e in m2 && Side(m2[e], lower).Some? ::
        (e in m && Side(m[e], lower).Some?) || exists j | 0 <= j < |rels| :: SameSide(rels[j], lower) && rels[j].entity == e
    decreases |rels|
  {
    if rels != [] {
      BindFromCons(m, rels, layout);
      var m' := ApplyRelation(m, rels[0], layout).value;
      var rest := rels[1..];
      BoundProvenanceFrom(m', rest, layout, lower);
      var m2 := BindFrom(m, rels, layout).value;
      forall e | e in m2 && Side(m2[e], lower).Some?
        ensures (e in m && Side(m[e], lower).Some?) || exists j | 0 <= j < |rels| :: SameSide(rels[j], lower) && rels[j].entity == e
      {
        if e in m' && Side(m'[e], lower).Some? {
          ApplySide(m, rels[0], layout, lower, e);
          if !(e in m && Side(m[e], lower).Some?) {
            assert SameSide(rels[0], lower) && rels[0].entity == e;
          }
        } else {
          var j :| 0 <= j < |rest| && SameSide(rest[j], lower) && rest[j].entity == e;
          assert rels[j + 1] == rest[j];
        }
      }
    }
  }

  /** A column carries a lower (upper) bound only if some GT/GTE (LT/LTE) relation names it. */
  lemma BoundProvenance(rels: seq<Relation>, layout: Layout, e: Id, lower: bool)
    requires BindFrom(map[], rels, layout).Success?
    requires e in BindFrom(map[], rels, layout).value && Side(BindFrom(map[], rels, layout).value[e], lower).Some?
    ensures exists j | 0 <= j < |rels| :: SameSide(rels[j], lower) && rels[j].entity == e
  {
    BoundProvenanceFrom(map[], rels, layout, lower);
  }

  /** Whatever later relations are accepted, what the map already decided stays decided. */
  lemma {:induction false} BindPreserves(m: map<Id, Restriction>, rels: seq<Relation>, layout: Layout)
    requires BindFrom(m, rels, layout).Success?
    ensures var m2 := BindFrom(m, rels, layout).value;
      && m.Keys <= m2.Keys
      && (forall e | e in m :: Kept(m[e], m2[e]))
      && (Tidy(m) ==> Tidy(m2))
      && (SingletonOffKey(layout, m) ==> SingletonOffKey(layout, m2))
    decreases |rels|
  {
    if rels != [] {
      var m' := ApplyRelation(m, rels[0], layout).value;
      ApplyStep(m, rels[0], layout);
      BindPreserves(m', rels[1..], layout);
    }
  }

  /** An accepted relation leaves its column restricted, on the side it bounds. */
  lemma ApplyMarks(m: map<Id, Restriction>, rel: Relation, layout: Layout, lower: bool)
    requires ApplyRelation(m, rel, layout).Success?
    ensures rel.entity in ApplyRelation(m, rel, layout).value
    ensures SameSide(rel, lower) ==> Side(ApplyRelation(m, rel, layout).value[rel.entity], lower).Some?
  {
    ApplyKeys(m, rel, layout);
  }

  /** The fold after its first relation: a rejection stops it, an acceptance continues it. */
  lemma BindFromCons(m: map<Id, Restriction>, rels: seq<Relation>, layout: Layout)
    requires rels != []
    ensures ApplyRelation(m, rels[0], layout).Failure? ==> BindFrom(m, rels, layout).Failure?
    ensures ApplyRelation(m, rels[0], layout).Success? ==>
      BindFrom(m, rels, layout) == BindFrom(ApplyRelation(m, rels[0], layout).value, rels[1..], layout)
  {
  }

  /** An EQ or IN on a column the map already restricts is rejected. */
  lemma EqualityRejected(m: map<Id, Restriction>, rel: Relation, layout: Layout)
    requires IsEqualityRelation(rel) && rel.entity in m
    ensures ApplyRelation(m, rel, layout).Failure?
  {
    var g := layout.Get(rel.entity);
    if g.Some? {
      assert g.value.id == rel.entity;
    }
  }

  lemma {:induction false} EqualityConflictIn(m: map<Id, Restriction>, rels: seq<Relation>, layout: Layout, j: nat)
    requires j < |rels| && IsEqualityRelation(rels[j]) && rels[j].entity in m
    ensures BindFrom(m, rels, layout).Failure?
    decreases |rels|
  {
    BindFromCons(m, rels, layout);
    if j == 0 {
      EqualityRejected(m, rels[0], layout);
    } else if ApplyRelation(m, rels[0], layout).Success? {
      var m' := ApplyRelation(m, rels[0], layout).value;
      ApplyKeys(m, rels[0], layout);
      var rest := rels[1..];
      assert rest[j - 1] == rels[j];
      EqualityConflictIn(m', rest, layout, j - 1);
    }
  }

  lemma {:induction false} EqualityConflictFrom(m: map<Id, Restriction>, rels: seq<Relation>, layout: Layout, i: nat, j: nat)
    requires i < j < |rels| && rels[i].entity == rels[j].entity && IsEqualityRelation(rels[j])
    ensures BindFrom(m, rels, layout).Failure?
    decreases |rels|
  {
    BindFromCons(m, rels, layout);
    if ApplyRelation(m, rels[0], layout).Success? {
      var m' := ApplyRelation(m, rels[0], layout).value;
      ApplyMarks(m, rels[0], layout, true);
      var rest := rels[1..];
      assert rest[j - 1] == rels[j];
      if i == 0 {
        EqualityConflictIn(m', rest, layout, j - 1);
      } else {
        assert rest[i - 1] == rels[i];
        EqualityConflictFrom(m', rest, layout, i - 1, j - 1);
      }
    }
  }

  /** An EQ or IN relation on a column that an earlier relation restricted is rejected. */
  lemma EqualityConflict(rels: seq<Relation>, layout: Layout, i: nat, j: nat)
    requires i < j < |rels| && rels[i].entity == rels[j].entity && IsEqualityRelation(rels[j])
    ensures BindFrom(map[], rels, layout).Failure?
  {
    EqualityConflictFrom(map[], rels, layout, i, j);
  }

  predicate SameSide(rel: Relation, lower: bool) {
    if lower then IsLowerBound(rel) else IsUpperBound(rel)
  }

  function Side(r: Restriction, lower: bool): Option<Term> {
    if lower then r.start else r.end
  }

  /** A bound on a side of a column the map already bounds is rejected. */
  lemma BoundRejected(m: map<Id, Restriction>, rel: Relation, layout: Layout, lower: bool)
    requires SameSide(rel, lower) && rel.entity in m && Side(m[rel.entity], lower).Some?
    ensures ApplyRelation(m, rel, layout).Failure?
  {
    var g := layout.Get(rel.entity);
    if g.Some? && g.value.kind != ValueAlias {
      var r := m[g.value.id];
      if lower {
        assert r.start.Some? && (rel.op == GT || rel.op == GTE);
      } else {
        assert r.end.Some? && (rel.op == LT || rel.op == LTE);
      }
    }
  }

  lemma {:induction false} BoundConflictIn(m: map<Id, Restriction>, rels: seq<Relation>, layout: Layout, j: nat, lower: bool)
    requires j < |rels| && SameSide(rels[j], lower)
    requires rels[j].entity in m && Side(m[rels[j].entity], lower).Some?
    ensures BindFrom(m, rels, layout).Failure?
    decreases |rels|
  {
    BindFromCons(m, rels, layout);
    if j == 0 {
      BoundRejected(m, rels[0], layout, lower);
    } else if ApplyRelation(m, rels[0], layout).Success? {
      var m' := ApplyRelation(m, rels[0], layout).value;
      ApplyKeys(m, rels[0], layout);
      var rest := rels[1..];
      assert rest[j - 1] == rels[j];
      BoundConflictIn(m', rest, layout, j - 1, lower);
    }
  }

  lemma {:induction false} BoundConflictFrom(m: map<Id, Restriction>, rels: seq<Relation>, layout: Layout, i: nat, j: nat, lower: bool)
    requires i < j < |rels| && rels[i].entity == rels[j].entity
    requires SameSide(rels[i], lower) && SameSide(rels[j], lower)
    ensures BindFrom(m, rels, layout).Failure?
    decreases |rels|
  {
    BindFromCons(m, rels, layout);
    if ApplyRelation(m, rels[0], layout).Success? {
      var m' := ApplyRelation(m, rels[0], layout).value;
      ApplyMarks(m, rels[0], layout, lower);
      var rest := rels[1..];
      assert rest[j - 1] == rels[j];
      if i == 0 {
        BoundConflictIn(m', rest, layout, j - 1, lower);
      } else {
        assert rest[i - 1] == rels[i];
        BoundConflictFrom(m', rest, layout, i - 1, j - 1, lower);
      }
    }
  }

  /** A second lower (resp. upper) bound on the same column is rejected. */
  lemma BoundConflict(rels: seq<Relation>, layout: Layout, i: nat, j: nat, lower: bool)
    requires i < j < |rels| && rels[i].entity == rels[j].entity
    requires SameSide(rels[i], lower) && SameSide(rels[j], lower)
    ensures BindFrom(map[], rels, layout).Failure?
  {
    BoundConflictFrom(map[], rels, layout, i, j, lower);
  }

  lemma {:induction false} RejectedRelationFrom(m: map<Id, Restriction>, rels: seq<Relation>, layout: Layout, j: nat)
    requires j < |rels|
    requires forall m0: map<Id, Restriction> :: ApplyRelation(m0, rels[j], layout).Failure?
    ensures BindFrom(m, rels, layout).Failure?
    decreases |rels|
  {
    if j == 0 {
      assert ApplyRelation(m, rels[0], layout).Failure?;
    } else if ApplyRelation(m, rels[0], layout).Success? {
      assert rels[1..][j - 1] == rels[j];
      RejectedRelationFrom(ApplyRelation(m, rels[0], layout).value, rels[1..], layout, j - 1);
    }
  }

  /** IN is rejected on every column but the partition key, and nothing may restrict the value alias. */
  lemma InOnlyOnKey(rels: seq<Relation>, layout: Layout, j: nat)
    requires j < |rels| && layout.Get(rels[j].entity).Some?
    requires (rels[j].In? && layout.Get(rels[j].entity).value.kind != KeyAlias)
          || layout.Get(rels[j].entity).value.kind == ValueAlias
    ensures BindFrom(map[], rels, layout).Failure?
  {
    RejectedRelationFrom(map[], rels, layout, j);
  }

  lemma {:induction false} RecordedFrom(m: map<Id, Restriction>, rels: seq<Relation>, layout: Layout, j: nat)
    requires Tidy(m) && j < |rels| && BindFrom(m, rels, layout).Success?
    ensures var m2 := BindFrom(m, rels, layout).value; var e := rels[j].entity;
      && e in m2
      && (IsEqualityRelation(rels[j]) ==> m2[e].eqValues == Some(EqValuesOf(rels[j])))
      && (IsLowerBound(rels[j]) ==> m2[e].start == Some(rels[j].value) && m2[e].startInclusive == (rels[j].op == GTE))
      && (IsUpperBound(rels[j]) ==> m2[e].end == Some(rels[j].value) && m2[e].endInclusive == (rels[j].op == LTE))
    decreases |rels|
  {
    var m' := ApplyRelation(m, rels[0], layout).value;
    ApplyStep(m, rels[0], layout);
    if j == 0 {
      BindPreserves(m', rels[1..], layout);
    } else {
      assert rels[1..][j - 1] == rels[j];
      RecordedFrom(m', rels[1..], layout, j - 1);
    }
  }

  /**
   * Every accepted relation is recorded: an EQ or IN as the column's
   * equality list, a GT/GTE as its start and a LT/LTE as its end, the
   * inclusive flag set exactly for GTE and LTE.
   */
  lemma RelationRecorded(rels: seq<Relation>, layout: Layout, j: nat)
    requires j < |rels| && BindFrom(map[], rels, layout).Success?
    ensures var m := BindFrom(map[], rels, layout).value; var e := rels[j].entity;
      && e in m
      && (IsEqualityRelation(rels[j]) ==> m[e].eqValues == Some(EqValuesOf(rels[j])))
      && (IsLowerBound(rels[j]) ==> m[e].start == Some(rels[j].value) && m[e].startInclusive == (rels[j].op == GTE))
      && (IsUpperBound(rels[j]) ==> m[e].end == Some(rels[j].value) && m[e].endInclusive == (rels[j].op == LTE))
  {
    RecordedFrom(map[], rels, layout, j);
  }

  lemma {:induction false} ProvenanceFrom(m: map<Id, Restriction>, rels: seq<Relation>, layout: Layout)
    requires BindFrom(m, rels, layout).Success?
    ensures var m2 := BindFrom(m, rels, layout).value;
      forall e | e in m2 ::
        && (e in m || exists j | 0 <= j < |rels| :: rels[j].entity == e)
        && (m2[e].IsEquality() ==>
              (e in m && m[e].IsEquality()) || exists j | 0 <= j < |rels| :: IsEqualityRelation(rels[j]) && rels[j].entity == e)
    decreases |rels|
  {
    if rels != [] {
      var m' := ApplyRelation(m, rels[0], layout).value;
      ApplyStep(m, rels[0], layout);
      var rest := rels[1..];
      ProvenanceFrom(m', rest, layout);
      var m2 := BindFrom(m, rels, layout).value;
      forall e | e in m2
        ensures e in m || exists j | 0 <= j < |rels| :: rels[j].entity == e
        ensures m2[e].IsEquality() ==>
              (e in m && m[e].IsEquality()) || exists j | 0 <= j < |rels| :: IsEqualityRelation(rels[j]) && rels[j].entity == e
      {
        if e !in m {
          if e == rels[0].entity {
            assert rels[0].entity == e;
          } else {
            var j :| 0 <= j < |rest| && rest[j].entity == e;
            assert rels[j + 1] == rest[j];
          }
        }
        if m2[e].IsEquality() && !(e in m && m[e].IsEquality()) {
          if e in m' && m'[e].IsEquality() {
            assert e == rels[0].entity && IsEqualityRelation(rels[0]);
          } else {
            var j :| 0 <= j < |rest| && IsEqualityRelation(rest[j]) && rest[j].entity == e;
            assert rels[j + 1] == rest[j];
          }
        }
      }
    }
  }

  /**
   * A column is restricted only if some relation names it, and it holds
   * an equality only if some EQ or IN relation names it.
   */
  lemma RestrictionProvenance(rels: seq<Relation>, layout: Layout, e: Id)
    requires BindFrom(map[], rels, layout).Success?
    requires e in BindFrom(map[], rels, layout).value
    ensures exists j | 0 <= j < |rels| :: rels[j].entity == e
    ensures BindFrom(map[], rels, layout).value[e].IsEquality() ==>
              exists j | 0 <= j < |rels| :: IsEqualityRelation(rels[j]) && rels[j].entity == e
  {
    ProvenanceFrom(map[], rels, layout);
  }

  /** A range relation after an EQ on the same column is accepted and adds its bound to the equality. */
  lemma RangeAfterEqualityAccepted(layout: Layout, c: Id, v: Term, w: Term)
    requires layout.Get(c).Some? && layout.Get(c).value.kind != ValueAlias
    ensures BindFrom(map[], [Compare(c, EQ, v), Compare(c, GT, w)], layout)
         == Success(map[c := Restriction(Some([v]), Some(w), false, None, false)])
  {
    var rels := [Compare(c, EQ, v), Compare(c, GT, w)];
    var m1 := map[c := Equality([v])];
    assert ApplyRelation(map[], rels[0], layout) == Success(m1);
    assert m1[c := Restriction(Some([v]), Some(w), false, None, false)] == map[c := Restriction(Some([v]), Some(w), false, None, false)];
    assert rels[1..] == [rels[1]] && [rels[1]][1..] == [];
    assert ApplyRelation(m1, rels[1], layout) == Success(map[c := Restriction(Some([v]), Some(w), false, None, false)]);
    assert BindFrom(m1, [rels[1]], layout) == Success(map[c := Restriction(Some([v]), Some(w), false, None, false)]);
  }

  /** The first `k` clustering columns are the restricted ones, all but the last of them by an equality. */
  predicate PrefixSplitAt(columns: seq<Id>, m: map<Id, Restriction>, k: nat) {
    && k <= |columns|
    && (forall i | 0 <= i < k :: columns[i] in m)
    && (forall i | k <= i < |columns| :: columns[i] !in m)
    && (forall i | 0 <= i < k - 1 :: m[columns[i]].IsEquality())
  }

  /**
   * The clustering-prefix rule in closed form: the restricted columns are
   * a leading run and every one of them but the last is an equality.
   */
  lemma ContiguousPrefixShape(columns: seq<Id>, m: map<Id, Restriction>)
    ensures ContiguousPrefix(columns, m) <==> exists k: nat :: PrefixSplitAt(columns, m, k)
  {
    if ContiguousPrefix(columns, m) {
      var k := 0;
      while k < |columns| && columns[k] in m
        invariant 0 <= k <= |columns|
        invariant forall i | 0 <= i < k :: columns[i] in m
      {
        k := k + 1;
      }
      forall i | k <= i < |columns| ensures columns[i] !in m {
      }
      forall i | 0 <= i < k - 1 ensures m[columns[i]].IsEquality() {
        assert columns[k - 1] in m;
      }
      assert PrefixSplitAt(columns, m, k);
    }
    if exists k: nat :: PrefixSplitAt(columns, m, k) {
      var k: nat :| PrefixSplitAt(columns, m, k);
      forall i, j | 0 <= i < j < |columns| && columns[j] in m
        ensures columns[i] in m && m[columns[i]].IsEquality()
      {
        assert j < k;
      }
    }
  }

  /**
   * Once the limit, the selection and the relations are accepted, the
   * statement is rejected for its clustering prefix exactly when the
   * prefix rule fails.
   */
  lemma PrefixGate(raw: RawStatement, layout: Layout, indexed: set<Id>)
    ensures raw.parameters.limit > 0
         && BindSelection(raw.parameters.isCount, raw.selectClause, layout).Success?
         && BindFrom(map[], raw.whereClause, layout).Success?
         ==> (Compile(raw, layout, indexed) == Failure(NonPrefixRestriction)
              <==> !ContiguousPrefix(layout.columns, BindFrom(map[], raw.whereClause, layout).value))
  {
    if raw.parameters.limit > 0
       && BindSelection(raw.parameters.isCount, raw.selectClause, layout).Success?
       && BindFrom(map[], raw.whereClause, layout).Success?
    {
      var m := BindFrom(map[], raw.whereClause, layout).value;
      var r := IndexRules(layout, m, indexed);
      assert r.Failure? ==> r.error != NonPrefixRestriction;
    }
  }

  /** The selection a clause of known identifiers resolves to. */
  function Resolved(clause: seq<Id>, layout: Layout): (s: seq<Selected>)
    requires AllKnown(clause, layout)
  {
    seq(|clause|, i requires 0 <= i < |clause| => Selected(layout.Get(clause[i]).value, clause[i]))
  }

  /** All identifiers of `clause` name columns of the layout. */
  predicate AllKnown(clause: seq<Id>, layout: Layout) {
    forall i | 0 <= i < |clause| :: layout.Get(clause[i]).Some?
  }

  lemma AllKnownTail(clause: seq<Id>, layout: Layout)
    requires clause != []
    ensures AllKnown(clause, layout) <==> layout.Get(clause[0]).Some? && AllKnown(clause[1..], layout)
  {
    assert forall i | 0 <= i < |clause| - 1 :: clause[1..][i] == clause[i + 1];
  }

  lemma {:induction false} ResolveFromSpec(acc: seq<Selected>, clause: seq<Id>, layout: Layout)
    decreases |clause|
    ensures ResolveFrom(acc, clause, layout).Success? <==> AllKnown(clause, layout)
    ensures ResolveFrom(acc, clause, layout).Success? ==> ResolveFrom(acc, clause, layout).value == acc + Resolved(clause, layout)
  {
    if clause == [] {
      assert acc + [] == acc;
    } else {
      AllKnownTail(clause, layout);
      if layout.Get(clause[0]).Some? {
        var rest := clause[1..];
        var first := Selected(layout.Get(clause[0]).value, clause[0]);
        ResolveFromSpec(acc + [first], rest, layout);
        if AllKnown(clause, layout) {
          ResolvedCons(clause, layout);
          assert acc + [first] + Resolved(rest, layout) == acc + Resolved(clause, layout);
        }
      }
    }
  }

  lemma ResolvedCons(clause: seq<Id>, layout: Layout)
    requires clause != [] && AllKnown(clause, layout)
    ensures AllKnown(clause[1..], layout)
    ensures Resolved(clause, layout) == [Selected(layout.Get(clause[0]).value, clause[0])] + Resolved(clause[1..], layout)
  {
    AllKnownTail(clause, layout);
    var r := Resolved(clause, layout);
    var t := Resolved(clause[1..], layout);
    var f := Selected(layout.Get(clause[0]).value, clause[0]);
    forall i | 0 <= i < |r| ensures r[i] == ([f] + t)[i] {
      if i > 0 {
        assert clause[1..][i - 1] == clause[i];
      }
    }
  }

  /**
   * A non-count select clause binds exactly when every identifier names a
   * column, and then keeps the clause's order and the requested identifiers.
   */
  lemma SelectionResolved(clause: seq<Id>, layout: Layout)
    ensures BindSelection(false, clause, layout).Success? <==> forall i | 0 <= i < |clause| :: layout.Get(clause[i]).Some?
    ensures BindSelection(false, clause, layout).Success? ==>
      var s := BindSelection(false, clause, layout).value;
      && |s| == |clause|
      && forall i | 0 <= i < |clause| :: s[i] == Selected(layout.Get(clause[i]).value, clause[i])
  {
    ResolveFromSpec([], clause, layout);
  }

  lemma ValidKeyDistinct(layout: Layout)
    requires layout.Valid()
    ensures forall i | 0 <= i < |layout.columns| :: layout.columns[i] != layout.key
    ensures forall i | 0 <= i < |layout.metadata| :: layout.metadata[i] != layout.key
  {
    var ns := layout.Names();
    assert ns[0] == layout.KeyName();
    forall i | 0 <= i < |layout.columns| ensures layout.columns[i] != layout.key {
      assert ns[1 + i] == layout.ColumnNames()[i];
    }
    var v := |layout.ValueNames()|;
    forall i | 0 <= i < |layout.metadata| ensures layout.metadata[i] != layout.key {
      assert ns[1 + |layout.columns| + v + i] == layout.MetadataNames()[i];
    }
  }

  /** What the index rules leave in the map and report. */
  lemma IndexRulesFacts(layout: Layout, m: map<Id, Restriction>, indexed: set<Id>)
    requires IndexRules(layout, m, indexed).Success?
    ensures var ix := IndexRules(layout, m, indexed).value;
      && (ix.hasIndexedExpression <==> layout.metadata != [] && RestrictsMetadata(layout, m))
      && (ix.hasIndexedExpression ==> HasIndexedEquality(layout, m, indexed))
      && ix.restrictions.Keys == m.Keys
      && (forall e | e in m && e != layout.key :: ix.restrictions[e] == m[e])
      && (layout.metadata == [] ==> ix.restrictions == m)
      && (layout.metadata != [] && layout.key in m ==> !ix.restrictions[layout.key].IsEquality())
      && (layout.key in m && !m[layout.key].IsEquality() ==> ix.restrictions[layout.key] == m[layout.key])
      && (layout.metadata != [] && layout.key in m && m[layout.key].IsEquality() ==>
            var v := m[layout.key].eqValues.value;
            |v| == 1 && ix.restrictions[layout.key] == Restriction(None, Some(v[0]), true, Some(v[0]), true))
  {
  }

  /** An accepted statement passed every stage, and is assembled from what the stages produced. */
  lemma CompileStages(raw: RawStatement, layout: Layout, indexed: set<Id>)
    requires Compile(raw, layout, indexed).Success?
    ensures raw.parameters.limit > 0
    ensures BindSelection(raw.parameters.isCount, raw.selectClause, layout).Success?
    ensures BindFrom(map[], raw.whereClause, layout).Success?
    ensures var m := BindFrom(map[], raw.whereClause, layout).value;
      && ContiguousPrefix(layout.columns, m)
      && IndexRules(layout, m, indexed).Success?
      && var ix := IndexRules(layout, m, indexed).value;
         Compile(raw, layout, indexed).value
           == Statement(layout, raw.parameters, BindSelection(raw.parameters.isCount, raw.selectClause, layout).value,
                        ix.restrictions, ix.hasIndexedExpression)
  {
  }

  /** After the index rules, every clustering equality still holds one value. */
  lemma IndexSingletons(layout: Layout, m: map<Id, Restriction>, indexed: set<Id>)
    requires layout.Valid() && SingletonOffKey(layout, m) && IndexRules(layout, m, indexed).Success?
    ensures var r := IndexRules(layout, m, indexed).value.restrictions;
      forall i | 0 <= i < |layout.columns| ::
        layout.columns[i] in r && r[layout.columns[i]].IsEquality() ==> |r[layout.columns[i]].eqValues.value| == 1
  {
    IndexRulesFacts(layout, m, indexed);
    ValidKeyDistinct(layout);
  }

  /** A resolved select clause names only columns of its table. */
  lemma SelectedNames(clause: seq<Id>, layout: Layout)
    requires AllKnown(clause, layout)
    ensures forall s <- Resolved(clause, layout) :: s.name in layout.Names()
  {
    var sel := Resolved(clause, layout);
    forall s <- sel ensures s.name in layout.Names() {
      var i :| 0 <= i < |sel| && sel[i] == s;
      assert s.name == layout.Get(clause[i]).value;
    }
  }

  /** Every compiled statement is well formed, over the layout and parameters it was compiled with. */
  lemma CompiledWellFormed(raw: RawStatement, layout: Layout, indexed: set<Id>)
    requires layout.Valid() && Compile(raw, layout, indexed).Success?
    ensures var st := Compile(raw, layout, indexed).value;
      st.WellFormed() && st.layout == layout && st.parameters == raw.parameters
  {
    var st := Compile(raw, layout, indexed).value;
    var sel := BindSelection(raw.parameters.isCount, raw.selectClause, layout).value;
    var m := BindFrom(map[], raw.whereClause, layout).value;
    var ix := IndexRules(layout, m, indexed).value;
    CompileStages(raw, layout, indexed);
    if !raw.parameters.isCount {
      ResolveFromSpec([], raw.selectClause, layout);
      SelectedNames(raw.selectClause, layout);
    }
    BindPreserves(map[], raw.whereClause, layout);
    IndexSingletons(layout, m, indexed);
  }

  /** A table with metadata columns never accepts a reversed query: its key equality became a range. */
  lemma ReversedRejectedWithMetadata(raw: RawStatement, layout: Layout, indexed: set<Id>)
    requires layout.metadata != [] && raw.parameters.reversed
    ensures Compile(raw, layout, indexed).Failure?
  {
    if raw.parameters.limit > 0 && BindSelection(raw.parameters.isCount, raw.selectClause, layout).Success?
       && BindFrom(map[], raw.whereClause, layout).Success?
    {
      var m := BindFrom(map[], raw.whereClause, layout).value;
      if ContiguousPrefix(layout.columns, m) && IndexRules(layout, m, indexed).Success? {
        IndexRulesFacts(layout, m, indexed);
      }
    }
  }

  /**
   * A reversed query compiles only on a table without metadata columns
   * whose WHERE clause has an EQ or IN on the partition key; on such a
   * table, reversing an accepted query keeps it accepted.
   */
  lemma ReversalGate(raw: RawStatement, layout: Layout, indexed: set<Id>)
    ensures raw.parameters.reversed && Compile(raw, layout, indexed).Success? ==>
      && layout.metadata == []
      && exists j | 0 <= j < |raw.whereClause| :: IsEqualityRelation(raw.whereClause[j]) && raw.whereClause[j].entity == layout.key
    ensures var forward := raw.(parameters := raw.parameters.(reversed := false));
            var backward := raw.(parameters := raw.parameters.(reversed := true));
      layout.metadata == [] && Compile(forward, layout, indexed).Success?
      && (exists j | 0 <= j < |raw.whereClause| :: IsEqualityRelation(raw.whereClause[j]) && raw.whereClause[j].entity == layout.key)
      ==> Compile(backward, layout, indexed) == Success(Compile(forward, layout, indexed).value.(parameters := backward.parameters))
  {
    var rels := raw.whereClause;
    if raw.parameters.reversed && Compile(raw, layout, indexed).Success? {
      if layout.metadata != [] {
        ReversedRejectedWithMetadata(raw, layout, indexed);
      }
      var m := BindFrom(map[], rels, layout).value;
      RestrictionProvenance(rels, layout, layout.key);
    }
    var forward := raw.(parameters := raw.parameters.(reversed := false));
    if layout.metadata == [] && Compile(forward, layout, indexed).Success?
      && (exists j | 0 <= j < |rels| :: IsEqualityRelation(rels[j]) && rels[j].entity == layout.key)
    {
      var j :| 0 <= j < |rels| && IsEqualityRelation(rels[j]) && rels[j].entity == layout.key;
      RelationRecorded(rels, layout, j);
    }
  }

  /** The fold restricts a metadata column exactly when some relation names one. */
  lemma MetadataNamed(rels: seq<Relation>, layout: Layout)
    requires BindFrom(map[], rels, layout).Success?
    ensures RestrictsMetadata(layout, BindFrom(map[], rels, layout).value)
        <==> exists j | 0 <= j < |rels| :: rels[j].entity in layout.metadata
  {
    var m := BindFrom(map[], rels, layout).value;
    if exists j | 0 <= j < |rels| :: rels[j].entity in layout.metadata {
      var j :| 0 <= j < |rels| && rels[j].entity in layout.metadata;
      RelationRecorded(rels, layout, j);
      var i :| 0 <= i < |layout.metadata| && layout.metadata[i] == rels[j].entity;
      assert layout.metadata[i] in m;
    }
    if RestrictsMetadata(layout, m) {
      var i :| 0 <= i < |layout.metadata| && layout.metadata[i] in m;
      RestrictionProvenance(rels, layout, layout.metadata[i]);
    }
  }

  /** An indexed metadata equality in the fold comes from an EQ or IN relation on that column. */
  lemma IndexedEqualityNamed(rels: seq<Relation>, layout: Layout, indexed: set<Id>)
    requires BindFrom(map[], rels, layout).Success?
    requires HasIndexedEquality(layout, BindFrom(map[], rels, layout).value, indexed)
    ensures exists j | 0 <= j < |rels| ::
              IsEqualityRelation(rels[j]) && rels[j].entity in layout.metadata && rels[j].entity in indexed
  {
    var m := BindFrom(map[], rels, layout).value;
    var k :| 0 <= k < |layout.metadata| && layout.metadata[k] in m && m[layout.metadata[k]].IsEquality() && layout.metadata[k] in indexed;
    RestrictionProvenance(rels, layout, layout.metadata[k]);
  }

  /**
   * The statement carries an indexed expression exactly when the WHERE
   * clause restricts a metadata column, and then the clause has an EQ on
   * an indexed metadata column.
   */
  lemma IndexedExpressionMeaning(raw: RawStatement, layout: Layout, indexed: set<Id>)
    requires Compile(raw, layout, indexed).Success?
    ensures var st := Compile(raw, layout, indexed).value; var rels := raw.whereClause;
      && (st.hasIndexedExpression <==> exists j | 0 <= j < |rels| :: rels[j].entity in layout.metadata)
      && (st.hasIndexedExpression ==>
            exists j | 0 <= j < |rels| ::
              IsEqualityRelation(rels[j]) && rels[j].entity in layout.metadata && rels[j].entity in indexed)
  {
    CompileStages(raw, layout, indexed);
    var m := BindFrom(map[], raw.whereClause, layout).value;
    IndexRulesFacts(layout, m, indexed);
    MetadataNamed(raw.whereClause, layout);
    if IndexRules(layout, m, indexed).value.hasIndexedExpression {
      IndexedEqualityNamed(raw.whereClause, layout, indexed);
    }
  }
}
