/** When the three-valued reading of a host filter is a two-valued one in which comparisons with NULL are false. */
module HostFilterTwoValued {
  import opened Prelude
  import opened HostFilter
  import opened HostFilterSql
  import opened HostFilterMeaning
  import opened HostFilterLeaves
  import opened HostFilterNulls

  /** Two-valued evaluation, in which a comparison with NULL is false. */
  predicate Holds(c: Clause, r: Record, row: Row) {
    match c
    case ColumnIs(col, op, v) => col in r.cols && Compare(op, r.cols[col], v)
    case CoalescedIs(col, op, s) => Compare(op, Txt(TextOrEmpty(r, col)), Txt(s))
    case NotNull(col) => col in r.cols
    case RowIs(name, op, v) => name in row && Compare(op, row[name], v)
    case Any(coll, each) => exists i :: 0 <= i < |RowsOf(r, coll)| && Holds(each, r, RowsOf(r, coll)[i])
    case DiskSpaceIs(op, n) =>
      AnyHas(RowsOf(r, Disks), "size") && Compare(op, Num(SumOf(RowsOf(r, Disks), "size")), Num(n))
    case DiskCountIs(op, n) => Compare(op, Num(|RowsOf(r, Disks)|), Num(n))
    case AllOf(parts) => forall i :: 0 <= i < |parts| ==> Holds(parts[i], r, row)
    case AnyOf(parts) => exists i :: 0 <= i < |parts| && Holds(parts[i], r, row)
    case Negation(part) => !Holds(part, r, row)
  }

  /** The columns of a system that are never NULL. */
  const OWN_REQUIRED: set<Column> := {
    OwnColumn("fqdn"), OwnColumn("type"), OwnColumn("status"), OwnColumn("date_added")
  }

  const POWER_TYPE_NAME := Of(PowerTypeRel, "name")

  /** Columns that are never NULL, where the system has their relation. */
  ghost predicate RequiredGiven(r: Record) {
    OWN_REQUIRED <= r.cols.Keys && (PowerTypeRel in r.rels ==> POWER_TYPE_NAME in r.cols)
  }

  /** The two readings agree about when the condition is true of a row. */
  ghost predicate EachAgrees(each: Clause) {
    forall r, row :: Eval(each, r, row) == Yes <==> Holds(each, r, row)
  }

  /** Under an odd number of negations, only conditions that are never unknown, given the required columns. */
  ghost predicate TwoValued(c: Clause, yes: bool, required: set<Column>) {
    match c
    case ColumnIs(col, _, _) => yes || col in required
    case RowIs(_, _, _) => yes
    case DiskSpaceIs(_, _) => yes
    case Any(_, each) => EachAgrees(each)
    case AllOf(parts) => forall i :: 0 <= i < |parts| ==> TwoValued(parts[i], yes, required)
    case AnyOf(parts) => forall i :: 0 <= i < |parts| ==> TwoValued(parts[i], yes, required)
    case Negation(part) => TwoValued(part, !yes, required)
    case _ => true
  }

  /** The three-valued outcome is the asked one exactly when the two-valued one is. */
  predicate AgreesAt(yes: bool, t: Truth, holds: bool) {
    t == Truly(yes) <==> holds == yes
  }

  lemma {:induction false} TwoValuedAgrees(c: Clause, yes: bool, required: set<Column>, r: Record, row: Row)
    requires TwoValued(c, yes, required) && required <= r.cols.Keys
    ensures AgreesAt(yes, Eval(c, r, row), Holds(c, r, row))
    decreases c, 0
  {
    match c
    case Any(coll, each) => AnyAgrees(coll, each, r, row);
    case Negation(part) => TwoValuedAgrees(part, !yes, required, r, row);
    case AllOf(parts) => AllAgree(c, |parts|, yes, required, r, row);
    case AnyOf(parts) => SomeAgrees(c, |parts|, yes, required, r, row);
    case _ =>
  }

  lemma AnyAgrees(coll: Collection, each: Clause, r: Record, row: Row)
    requires EachAgrees(each)
    ensures Eval(Any(coll, each), r, row) == Truly(Holds(Any(coll, each), r, row))
  {
    assert forall i :: 0 <= i < |RowsOf(r, coll)| ==>
      (Eval(each, r, RowsOf(r, coll)[i]) == Yes <==> Holds(each, r, RowsOf(r, coll)[i]));
  }

  lemma {:induction false} AllAgree(c: Clause, n: nat, yes: bool, required: set<Column>, r: Record, row: Row)
    requires c.AllOf? && TwoValued(c, yes, required) && required <= r.cols.Keys && n <= |c.parts|
    ensures AgreesAt(yes, EvalAll(c, n, r, row), forall i :: 0 <= i < n ==> Holds(c.parts[i], r, row))
    decreases c, 0, n
  {
    if n > 0 {
      AllAgree(c, n - 1, yes, required, r, row);
      TwoValuedAgrees(c.parts[n - 1], yes, required, r, row);
    }
  }

  lemma {:induction false} SomeAgrees(c: Clause, n: nat, yes: bool, required: set<Column>, r: Record, row: Row)
    requires c.AnyOf? && TwoValued(c, yes, required) && required <= r.cols.Keys && n <= |c.parts|
    ensures AgreesAt(yes, EvalAny(c, n, r, row), exists i :: 0 <= i < n && Holds(c.parts[i], r, row))
    decreases c, 0, n
  {
    if n > 0 {
      SomeAgrees(c, n - 1, yes, required, r, row);
      TwoValuedAgrees(c.parts[n - 1], yes, required, r, row);
    }
  }

  lemma PositiveEachAgrees(each: Clause)
    requires TwoValued(each, true, {})
    ensures EachAgrees(each)
  {
    forall r, row
      ensures Eval(each, r, row) == Yes <==> Holds(each, r, row)
    {
      TwoValuedAgrees(each, true, {}, r, row);
    }
  }

  /** The leaves that ask for the existence of something, or about a column that is never NULL. */
  predicate IsDefinite(c: Class, a: Attr) {
    || c in {Pool, Arch, KeyValue, CpuFlag, Device, Hypervisor, AutoProv, CompatibleWithDistro, DiskCount}
    || c in {Added, SystemType, SystemStatus, PowerType} || (c.SystemText? && OwnColumn(c.name) in OWN_REQUIRED)
    || (c == LastInventoried && a.number.None?)
  }

  /** The other leaves, asked to be true; but a date that is to differ is itself a negation. */
  predicate LeafTwoValued(c: Class, a: Attr, yes: bool) {
    IsDefinite(c, a) || (if c == LastInventoried && a.op == Ne then !yes else yes)
  }

  lemma EachLeafTwoValued(c: Class, a: Attr, catalog: Catalog, some: Clause, negated: bool)
    requires c in {Pool, Arch, KeyValue, CpuFlag, Device} && some.Any?
    requires LeafClause(c, a, catalog) == Some(Unless(negated, some))
    ensures EachAgrees(some.each)
  {
    if c == Device {
      DevicePartsTwoValued(a, |DEVICE_FIELDS|);
    }
    assert TwoValued(some.each, true, {});
    PositiveEachAgrees(some.each);
  }

  lemma {:induction false} DevicePartsTwoValued(a: Attr, k: nat)
    requires k <= |DEVICE_FIELDS|
    ensures forall i :: 0 <= i < |DeviceParts(a, k)| ==> TwoValued(DeviceParts(a, k)[i], true, {})
  {
    if k > 0 {
      DevicePartsTwoValued(a, k - 1);
    }
  }

  lemma CompatibleTwoValued(a: Attr, catalog: Catalog, yes: bool, required: set<Column>)
    ensures TwoValued(CompatibleClause(a, catalog), yes, required)
  {
    var clause := CompatibleClause(a, catalog);
    if clause != FALSE_CLAUSE {
      forall i | 0 <= i < 3
        ensures TwoValued(clause.parts[i], yes, required)
      {
        var any := if i == 0 then clause.parts[i] else clause.parts[i].part;
        assert TwoValued(any.each, true, {});
        PositiveEachAgrees(any.each);
      }
    }
  }

  lemma TwoValuedLeafClause(c: Class, a: Attr, catalog: Catalog, yes: bool, required: set<Column>)
    requires IsLeaf(c) && LeafClause(c, a, catalog).Some? && LeafTwoValued(c, a, yes)
    requires OWN_REQUIRED <= required && (c == PowerType ==> POWER_TYPE_NAME in required)
    ensures TwoValued(LeafClause(c, a, catalog).value, yes, required)
  {
    var clause := LeafClause(c, a, catalog).value;
    if c in {Pool, Arch, KeyValue, CpuFlag, Device} {
      EachLeafTwoValued(c, a, catalog, if clause.Negation? then clause.part else clause, clause.Negation?);
    } else if c == CompatibleWithDistro {
      CompatibleTwoValued(a, catalog, yes, required);
    } else if c in {Added, LastInventoried} && a.number.Some? {
      DateTwoValued(a.op, if c == Added then OwnColumn("date_added") else OwnColumn("date_lastcheckin"),
        a.number.value, yes, required);
    }
  }

  lemma DateTwoValued(op: Op, col: Column, day: int, yes: bool, required: set<Column>)
    requires col in required || (if op == Ne then !yes else yes)
    ensures TwoValued(DateClause(op, col, day), yes, required)
  {
  }

  /** The relations that the leaf joins exist. */
  ghost predicate HasJoined(c: Class, a: Attr, catalog: Catalog, r: Record) {
    forall rel :: Inner(rel) in LeafJoins(c, a, catalog) ==> rel in r.rels
  }

  ghost predicate LeafAgrees(c: Class, a: Attr, catalog: Catalog, yes: bool, r: Record)
    requires LeafClause(c, a, catalog).Some?
  {
    var clause := LeafClause(c, a, catalog).value;
    AgreesAt(yes, Eval(clause, r, map[]), Holds(clause, r, map[]))
  }

  /**
   Exactly which leaves can be read in two values, when they are asked to be true and when to be false, of the systems
   that have the relations joined.
   */
  lemma TwoValuedLeaves(c: Class, a: Attr, catalog: Catalog, yes: bool)
    requires IsLeaf(c) && LeafClause(c, a, catalog).Some?
    ensures
      LeafTwoValued(c, a, yes) <==>
      forall r :: RequiredGiven(r) && Coherent(r) && HasJoined(c, a, catalog, r) ==> LeafAgrees(c, a, catalog, yes, r)
  {
    var clause := LeafClause(c, a, catalog).value;
    if LeafTwoValued(c, a, yes) {
      forall r | RequiredGiven(r) && HasJoined(c, a, catalog, r)
        ensures LeafAgrees(c, a, catalog, yes, r)
      {
        var required := OWN_REQUIRED + if c == PowerType then {POWER_TYPE_NAME} else {};
        assert c == PowerType ==> Inner(PowerTypeRel) in LeafJoins(c, a, catalog);
        TwoValuedLeafClause(c, a, catalog, yes, required);
        TwoValuedAgrees(clause, yes, required, r, map[]);
      }
    } else {
      var r := BareSystem();
      BareSystemIsWhole();
      if c == LastInventoried {
        DateIsUnknown(a.op, OwnColumn("date_lastcheckin"), a.number.value, r);
      }
      assert !LeafAgrees(c, a, catalog, yes, r);
    }
  }

  /** A system with every relation, of which nothing is known but the required columns. */
  function BareSystem(): Record {
    Record(map col | col in OWN_REQUIRED + {POWER_TYPE_NAME} :: Num(0),
      {CpuRel, NumaRel, LabControllerRel, PowerRel, PowerTypeRel, OwnerRel, UserRel, LoanedRel, HypervisorRel}, map[])
  }

  lemma BareSystemIsWhole()
    ensures RequiredGiven(BareSystem()) && Coherent(BareSystem()) && forall rel: Rel :: rel in BareSystem().rels
  {
    forall rel: Rel
      ensures rel in BareSystem().rels
    {
      match rel
      case CpuRel =>
      case _ =>
    }
  }

  lemma DateIsUnknown(op: Op, col: Column, day: int, r: Record)
    requires col !in r.cols
    ensures Eval(DateClause(op, col, day), r, map[]) == Unknown
    ensures Holds(DateClause(op, col, day), r, map[]) <==> op == Ne
  {
    DateMeans(op, col, day, r, 0);
    if op == Eq || op == Ne {
      var from := ColumnIs(col, Ge, Num(day * SECONDS_A_DAY));
      var c := AllOf([from, ColumnIs(col, Le, Num(day * SECONDS_A_DAY + SECONDS_A_DAY - 1))]);
      assert !Holds(c.parts[0], r, map[]);
    }
  }

  /* Disk elements */

  /** The two readings agree about every single disk. */
  ghost predicate DiskReadsAlike(n: Node) {
    forall row :: DiskReading(n, row) == Yes <==> Holds(EachDisk(n), BareSystem(), row)
  }

  lemma {:induction false} RowOnlyHolds(c: Clause, r: Record, r': Record, row: Row)
    requires RowOnly(c)
    ensures Holds(c, r, row) == Holds(c, r', row)
  {
    match c
    case AllOf(parts) =>
      forall i | 0 <= i < |parts|
        ensures Holds(parts[i], r, row) == Holds(parts[i], r', row)
      {
        RowOnlyHolds(parts[i], r, r', row);
      }
    case AnyOf(parts) =>
      forall i | 0 <= i < |parts|
        ensures Holds(parts[i], r, row) == Holds(parts[i], r', row)
      {
        RowOnlyHolds(parts[i], r, r', row);
      }
    case Negation(part) => RowOnlyHolds(part, r, r', row);
    case _ =>
  }

  lemma DiskReadsAlikeAgrees(n: Node)
    requires n.cls == Disk
    ensures DiskReadsAlike(n) <==> EachAgrees(EachDisk(n))
  {
    forall r, row
      ensures Eval(EachDisk(n), r, row) == DiskReading(n, row)
      ensures Holds(EachDisk(n), r, row) == Holds(EachDisk(n), BareSystem(), row)
    {
      EachDiskMeans(n, r, row);
      RowOnlyHolds(EachDisk(n), r, BareSystem(), row);
    }
  }

  lemma AnyOfOneDisk(each: Clause, row: Row, r: Record)
    requires RowsOf(r, Disks) == [row]
    ensures Eval(Any(Disks, each), r, map[]) == Truly(Eval(each, r, row) == Yes)
    ensures Holds(Any(Disks, each), r, map[]) <==> Holds(each, r, row)
  {
    assert RowsOf(r, Disks)[0] == row;
  }

  lemma AlikeDisksAgree(n: Node, yes: bool, r: Record)
    requires n.cls == Disk && DiskReadsAlike(n)
    ensures
      var clause := Any(Disks, EachDisk(n));
      AgreesAt(yes, Eval(clause, r, map[]), Holds(clause, r, map[]))
  {
    DiskReadsAlikeAgrees(n);
    AnyAgrees(Disks, EachDisk(n), r, map[]);
  }

  /** Exactly which disk elements can be read in two values, asked to be true or asked to be false. */
  lemma TwoValuedDisks(n: Node, catalog: Catalog, yes: bool)
    requires n.cls == Disk
    ensures Compiled(n, catalog).Some?
    ensures
      var clause := Compiled(n, catalog).value;
      DiskReadsAlike(n) <==>
      forall r :: RequiredGiven(r) ==> AgreesAt(yes, Eval(clause, r, map[]), Holds(clause, r, map[]))
  {
    var clause := Any(Disks, EachDisk(n));
    if DiskReadsAlike(n) {
      forall r | RequiredGiven(r)
        ensures AgreesAt(yes, Eval(clause, r, map[]), Holds(clause, r, map[]))
      {
        AlikeDisksAgree(n, yes, r);
      }
    } else {
      var row :| !(DiskReading(n, row) == Yes <==> Holds(EachDisk(n), BareSystem(), row));
      var r := BareSystem().(rows := map[Disks := [row]]);
      BareSystemIsWhole();
      EachDiskMeans(n, r, row);
      RowOnlyHolds(EachDisk(n), r, BareSystem(), row);
      AnyOfOneDisk(EachDisk(n), row, r);
      assert !AgreesAt(yes, Eval(clause, r, map[]), Holds(clause, r, map[]));
    }
  }

  /** Inside a disk element, every leaf is under an even number of negations. */
  predicate DiskTwoValued(n: Node, yes: bool) {
    if IsDiskLeaf(n) then yes || !DiskContributes(n)
    else forall i :: 0 <= i < |n.kids| ==> DiskTwoValued(n.kids[i], if n.cls == Not then !yes else yes)
  }

  ghost predicate TwoValuedTree(n: Node, catalog: Catalog, yes: bool) {
    if IsLeaf(n.cls) then LeafClause(n.cls, n.attr, catalog).None? || LeafTwoValued(n.cls, n.attr, yes)
    else if n.cls == Disk then DiskReadsAlike(n)
    else forall i :: 0 <= i < |n.kids| ==> TwoValuedTree(n.kids[i], catalog, if n.cls == Not then !yes else yes)
  }

  lemma {:induction false} DiskClauseTwoValued(n: Node, yes: bool)
    requires DiskTwoValued(n, yes)
    ensures DiskClause(n).Some? ==> TwoValued(DiskClause(n).value, yes, {})
    ensures !IsDiskLeaf(n) ==> forall i :: 0 <= i < |DiskClauses(n, |n.kids|)| ==>
      TwoValued(DiskClauses(n, |n.kids|)[i], if n.cls == Not then !yes else yes, {})
    decreases n
  {
    if !IsDiskLeaf(n) {
      var asked := if n.cls == Not then !yes else yes;
      forall c | c in DiskClauses(n, |n.kids|)
        ensures TwoValued(c, asked, {})
      {
        DiskClausesAre(n, |n.kids|, c);
        var i :| 0 <= i < |n.kids| && DiskClause(n.kids[i]) == Some(c);
        DiskClauseTwoValued(n.kids[i], asked);
      }
    }
  }

  /** In particular, disk elements in which every leaf is under an even number of negations. */
  lemma PositiveDiskReadsAlike(n: Node)
    requires n.cls == Disk && DiskTwoValued(n, true)
    ensures DiskReadsAlike(n)
  {
    DiskClauseTwoValued(n, true);
    assert TwoValued(EachDisk(n), true, {});
    PositiveEachAgrees(EachDisk(n));
    DiskReadsAlikeAgrees(n);
  }

  lemma {:induction false} TwoValuedTreeClause(n: Node, catalog: Catalog, yes: bool, required: set<Column>)
    requires TwoValuedTree(n, catalog, yes)
    requires OWN_REQUIRED <= required && (NeedsRel(n, catalog, PowerTypeRel) ==> POWER_TYPE_NAME in required)
    ensures Compiled(n, catalog).Some? ==> TwoValued(Compiled(n, catalog).value, yes, required)
    decreases n
  {
    if IsLeaf(n.cls) {
      if LeafClause(n.cls, n.attr, catalog).Some? {
        assert n.cls == PowerType ==> Inner(PowerTypeRel) in LeafJoins(n.cls, n.attr, catalog);
        TwoValuedLeafClause(n.cls, n.attr, catalog, yes, required);
      }
    } else if n.cls == Disk {
      DiskReadsAlikeAgrees(n);
    } else {
      var asked := if n.cls == Not then !yes else yes;
      forall c | c in KidClauses(n, |n.kids|, catalog)
        ensures TwoValued(c, asked, required)
      {
        KidClausesAre(n, |n.kids|, catalog, c);
        var i :| 0 <= i < |n.kids| && Compiled(n.kids[i], catalog) == Some(c);
        TwoValuedTreeClause(n.kids[i], catalog, asked, required);
      }
    }
  }

  /**
   A filter can be read in two values, with comparisons against NULL taken as false, if every leaf and disk element can
   where it stands: to be true, or, under an odd number of nots, to be false. Which those are is settled by
   `TwoValuedLeaves` and `TwoValuedDisks`.
   */
  lemma TwoValuedSelection(n: Node, catalog: Catalog, r: Record)
    requires TwoValuedTree(n, catalog, true) && RequiredGiven(r)
    ensures
      Selected(n, catalog, r) <==>
      && (forall rel :: NeedsRel(n, catalog, rel) ==> rel in r.rels)
      && (Compiled(n, catalog).Some? ==> Holds(Compiled(n, catalog).value, r, map[]))
  {
    CompilationPreservesMeaning(n, catalog, r);
    CompiledMeans(n, catalog, r);
    if Compiled(n, catalog).Some? && forall rel :: NeedsRel(n, catalog, rel) ==> rel in r.rels {
      var required := OWN_REQUIRED + if PowerTypeRel in r.rels then {POWER_TYPE_NAME} else {};
      TwoValuedTreeClause(n, catalog, true, required);
      TwoValuedAgrees(Compiled(n, catalog).value, true, required, r, map[]);
    }
  }

  /** No not element, and no date of an inventory that is to differ. */
  predicate WithoutNot(n: Node) {
    && n.cls != Not && !(n.cls == LastInventoried && n.attr.number.Some? && n.attr.op == Ne)
    && forall i :: 0 <= i < |n.kids| ==> WithoutNot(n.kids[i])
  }

  lemma {:induction false} WithoutNotDisk(n: Node)
    requires WithoutNot(n)
    ensures DiskTwoValued(n, true)
    decreases n
  {
    forall i | 0 <= i < |n.kids|
      ensures DiskTwoValued(n.kids[i], true)
    {
      WithoutNotDisk(n.kids[i]);
    }
  }

  /** In particular, every filter without negations, of elements or of dates, can be read in two values. */
  lemma {:induction false} WithoutNotTwoValued(n: Node, catalog: Catalog)
    requires WithoutNot(n)
    ensures TwoValuedTree(n, catalog, true)
    decreases n
  {
    if n.cls == Disk {
      WithoutNotDisk(n);
      PositiveDiskReadsAlike(n);
    } else if !IsLeaf(n.cls) {
      forall i | 0 <= i < |n.kids|
        ensures TwoValuedTree(n.kids[i], catalog, true)
      {
        WithoutNotTwoValued(n.kids[i], catalog);
      }
    }
  }

  /** A date that is to differ cannot: a system that was never inventoried was not inventoried on that day, and yet. */
  lemma NeverInventoriedEscapesDate(a: Attr, catalog: Catalog, r: Record)
    requires a.op == Ne && a.number.Some? && OwnColumn("date_lastcheckin") !in r.cols
    ensures
      var n := Node(LastInventoried, a, []);
      && !Selected(n, catalog, r)
      && Compiled(n, catalog).Some? && Holds(Compiled(n, catalog).value, r, map[])
  {
    DateIsUnknown(Ne, OwnColumn("date_lastcheckin"), a.number.value, r);
  }

  /** Nor can a negated comparison: a system of unknown memory is selected neither by a filter nor by its negation. */
  lemma NullEscapesNegation(catalog: Catalog, a: Attr, r: Record)
    requires HasNumber(a) && OwnColumn("memory") !in r.cols
    ensures
      var memory := Node(Memory, a, []);
      var negated := Node(Not, a, [memory]);
      && !Selected(memory, catalog, r) && !Selected(negated, catalog, r)
      && Compiled(negated, catalog).Some? && Holds(Compiled(negated, catalog).value, r, map[])
  {
    var memory := Node(Memory, a, []);
    var negated := Node(Not, a, [memory]);
    var clause := Compiled(memory, catalog).value;
    assert KidClauses(negated, 1, catalog) == [clause] by {
      assert KidClauses(negated, 0, catalog) == [];
    }
    assert Compiled(negated, catalog) == Some(Negation(AllOf([clause])));
    assert EvalAll(AllOf([clause]), 0, r, map[]) == Yes;
    assert EvalAll(AllOf([clause]), 1, r, map[]) == Both(Yes, Unknown);
    assert Eval(AllOf([clause]), r, map[]) == Unknown;
    assert Eval(Compiled(negated, catalog).value, r, map[]) == Unknown;
    assert !Holds(AllOf([clause]).parts[0], r, map[]);
    assert !Holds(AllOf([clause]), r, map[]);
  }
}
