/** Missing data in host filters: what happens to a selection when NULL columns are filled in. */
module HostFilterNulls {
  import opened Prelude
  import opened HostFilter
  import opened HostFilterSql
  import opened HostFilterMeaning
  import opened HostFilterLeaves

  /* Filling in NULL columns */

  /** The columns of a collection that may be NULL. Architectures are looked up beforehand and compared by identity. */
  predicate Nullable(coll: Collection, name: string) {
    match coll
    case CpuFlags => true
    case Disks => true
    case Devices => name != "type"
    case ExcludedMajors => name == "osmajor"
    case ExcludedVersions => name == "osmajor" || name == "osminor"
    case _ => false
  }

  ghost predicate Extends(row: Row, row': Row) {
    forall name :: name in row ==> name in row' && row'[name] == row[name]
  }

  /** The size of a disk is a number of bytes. */
  predicate HasSize(row: Row) {
    "size" in row ==> row["size"].Num? && row["size"].n >= 0
  }

  /** `row'` is `row` with some of its NULL columns filled in. */
  ghost predicate RowFills(coll: Collection, row: Row, row': Row) {
    && Extends(row, row')
    && (forall name :: name in row' && name !in row ==> Nullable(coll, name))
    && (coll == Disks ==> HasSize(row'))
  }

  /**
   `r'` is `r` with some NULL columns filled in: its own, those of its relations, or those of its rows. A relation comes
   into being when the column that refers to it is filled in.
   */
  ghost predicate Fills(r: Record, r': Record) {
    && r.rels <= r'.rels
    && (forall col :: col in r.cols ==> col in r'.cols && r'.cols[col] == r.cols[col])
    && (forall coll :: |RowsOf(r', coll)| == |RowsOf(r, coll)|)
    && (forall coll, i :: 0 <= i < |RowsOf(r, coll)| ==> RowFills(coll, RowsOf(r, coll)[i], RowsOf(r', coll)[i]))
  }

  /** The outcome, if it was the given definite one, is still the same. */
  predicate Settles(yes: bool, t: Truth, t': Truth) {
    t == Truly(yes) ==> t' == t
  }

  /** A condition on the columns of one row alone. */
  predicate RowOnly(c: Clause) {
    match c
    case RowIs(_, _, _) => true
    case AllOf(parts) => forall i :: 0 <= i < |parts| ==> RowOnly(parts[i])
    case AnyOf(parts) => forall i :: 0 <= i < |parts| ==> RowOnly(parts[i])
    case Negation(part) => RowOnly(part)
    case _ => false
  }

  /** Filling in NULL columns never makes the condition true of a row of which it was not. */
  ghost predicate NeverGained(coll: Collection, each: Clause) {
    forall r, r', row, row' ::
      RowFills(coll, row, row') && Eval(each, r', row') == Yes ==> Eval(each, r, row) == Yes
  }

  /** COALESCE to the empty text forgets that a column was NULL, unless the comparison is the same for every text. */
  predicate SameForEveryText(op: Op, s: string) {
    s == "" && (op == Lt || op == Ge)
  }

  /** The comparison with NULL comes out differently anyway, or comes out the same for every text. */
  predicate KeepsCoalesced(op: Op, s: string, yes: bool) {
    SameForEveryText(op, s) || Compare(op, Txt(""), Txt(s)) != yes
  }

  /** A sum of sizes is never negative, and can only grow. */
  predicate KeepsSum(op: Op, n: int, yes: bool) {
    n < 0 || (if yes then op == Gt || op == Ge else op == Lt || op == Le)
  }

  /** Once the condition has the given outcome, filling in NULL columns does not change it; by its structure. */
  ghost predicate Keeps(c: Clause, yes: bool) {
    match c
    case CoalescedIs(_, op, s) => KeepsCoalesced(op, s, yes)
    case NotNull(_) => yes
    case DiskSpaceIs(op, n) => KeepsSum(op, n, yes)
    case Any(coll, each) => RowOnly(each) && (yes || NeverGained(coll, each))
    case AllOf(parts) => forall i :: 0 <= i < |parts| ==> Keeps(parts[i], yes)
    case AnyOf(parts) => forall i :: 0 <= i < |parts| ==> Keeps(parts[i], yes)
    case Negation(part) => Keeps(part, !yes)
    case _ => true
  }

  /** What is known of a row stays known. */
  lemma {:induction false} RowOnlySettles(c: Clause, r: Record, r': Record, row: Row, row': Row)
    requires RowOnly(c) && Extends(row, row')
    ensures Eval(c, r, row) == Unknown || Eval(c, r', row') == Eval(c, r, row)
    decreases c, 0
  {
    match c
    case AllOf(parts) => RowOnlyParts(c, |parts|, r, r', row, row');
    case AnyOf(parts) => RowOnlyParts(c, |parts|, r, r', row, row');
    case Negation(part) => RowOnlySettles(part, r, r', row, row');
    case _ =>
  }

  lemma {:induction false} RowOnlyParts(c: Clause, n: nat, r: Record, r': Record, row: Row, row': Row)
    requires (c.AllOf? || c.AnyOf?) && RowOnly(c) && Extends(row, row') && n <= |c.parts|
    ensures c.AllOf? ==> EvalAll(c, n, r, row) == Unknown || EvalAll(c, n, r', row') == EvalAll(c, n, r, row)
    ensures c.AnyOf? ==> EvalAny(c, n, r, row) == Unknown || EvalAny(c, n, r', row') == EvalAny(c, n, r, row)
    decreases c, 0, n
  {
    if n > 0 {
      RowOnlyParts(c, n - 1, r, r', row, row');
      RowOnlySettles(c.parts[n - 1], r, r', row, row');
    }
  }

  /* Sums of disk sizes */

  ghost predicate RowsFill(rows: seq<Row>, rows': seq<Row>) {
    |rows'| == |rows| && forall i :: 0 <= i < |rows| ==> RowFills(Disks, rows[i], rows'[i])
  }

  lemma {:induction false} SumGrows(rows: seq<Row>, rows': seq<Row>)
    requires RowsFill(rows, rows')
    ensures 0 <= SumOf(rows, "size") <= SumOf(rows', "size")
    decreases |rows|
  {
    if rows != [] {
      var n := |rows| - 1;
      assert RowFills(Disks, rows[n], rows'[n]);
      SumGrows(rows[..n], rows'[..n]);
    }
  }

  lemma SumKeeps(op: Op, n: int, yes: bool, r: Record, r': Record)
    requires KeepsSum(op, n, yes) && Fills(r, r')
    ensures Settles(yes, Eval(DiskSpaceIs(op, n), r, map[]), Eval(DiskSpaceIs(op, n), r', map[]))
  {
    var (rows, rows') := (RowsOf(r, Disks), RowsOf(r', Disks));
    SumGrows(rows, rows');
    if AnyHas(rows, "size") {
      var i :| 0 <= i < |rows| && "size" in rows[i];
      assert RowFills(Disks, rows[i], rows'[i]) && "size" in rows'[i];
    }
  }

  lemma {:induction false} KeepsSettles(c: Clause, yes: bool, r: Record, r': Record, row: Row, row': Row)
    requires Keeps(c, yes) && Fills(r, r') && Extends(row, row')
    ensures Settles(yes, Eval(c, r, row), Eval(c, r', row'))
    decreases c, 0
  {
    match c
    case Any(coll, each) => AnyKeeps(coll, each, yes, r, r', row, row');
    case DiskSpaceIs(op, n) => SumKeeps(op, n, yes, r, r');
    case AllOf(parts) => KeepsParts(c, |parts|, yes, r, r', row, row');
    case AnyOf(parts) => KeepsParts(c, |parts|, yes, r, r', row, row');
    case Negation(part) => KeepsSettles(part, !yes, r, r', row, row');
    case _ =>
  }

  lemma AnyKeeps(coll: Collection, each: Clause, yes: bool, r: Record, r': Record, row: Row, row': Row)
    requires RowOnly(each) && (yes || NeverGained(coll, each)) && Fills(r, r')
    ensures Settles(yes, Eval(Any(coll, each), r, row), Eval(Any(coll, each), r', row'))
  {
    var (rows, rows') := (RowsOf(r, coll), RowsOf(r', coll));
    forall i | 0 <= i < |rows|
      ensures Eval(each, r, rows[i]) == Yes ==> Eval(each, r', rows'[i]) == Yes
      ensures !yes ==> Eval(each, r', rows'[i]) == Yes ==> Eval(each, r, rows[i]) == Yes
    {
      assert RowFills(coll, rows[i], rows'[i]);
      RowOnlySettles(each, r, r', rows[i], rows'[i]);
    }
  }

  lemma {:induction false} KeepsParts(c: Clause, n: nat, yes: bool, r: Record, r': Record, row: Row, row': Row)
    requires (c.AllOf? || c.AnyOf?) && Keeps(c, yes) && Fills(r, r') && Extends(row, row') && n <= |c.parts|
    ensures c.AllOf? ==> Settles(yes, EvalAll(c, n, r, row), EvalAll(c, n, r', row'))
    ensures c.AnyOf? ==> Settles(yes, EvalAny(c, n, r, row), EvalAny(c, n, r', row'))
    decreases c, 0, n
  {
    if n > 0 {
      KeepsParts(c, n - 1, yes, r, r', row, row');
      KeepsSettles(c.parts[n - 1], yes, r, r', row, row');
    }
  }

  /* Leaves */

  /** The device element asks for nothing but the class of the device, which is never NULL. */
  predicate AsksTypeOnly(a: Attr) {
    forall name :: name in DEVICE_FIELDS && Asked(a, name) ==> name == "type"
  }

  /** The leaves whose outcome, once it is the given one, survives filling in NULL columns. */
  predicate KeepsLeaf(c: Class, a: Attr, catalog: Catalog, yes: bool) {
    match c
    case Hypervisor => KeepsCoalesced(a.op, if a.text.Some? then a.text.value else "", yes)
    case AutoProv => yes
    case CpuFlag => yes <==> a.op != Ne
    case Device => (yes <==> a.op != Ne) || AsksTypeOnly(a)
    case LastInventoried => a.number.Some? || (yes <==> a.op != Eq)
    case CompatibleWithDistro => !yes || !NamesDistro(a, catalog)
    case DiskSpace => a.number.Some? ==> KeepsSum(a.op, a.number.value, yes)
    case _ => true
  }

  lemma NeverNull(coll: Collection, name: string, op: Op, v: Val)
    requires !Nullable(coll, name)
    ensures NeverGained(coll, RowIs(name, op, v))
  {
  }

  lemma PairNeverNull(coll: Collection, p: Clause, q: Clause)
    requires p.RowIs? && q.RowIs? && !Nullable(coll, p.name) && !Nullable(coll, q.name)
    ensures NeverGained(coll, AllOf([p, q]))
  {
    forall r, r', row, row' | RowFills(coll, row, row') && Eval(AllOf([p, q]), r', row') == Yes
      ensures Eval(AllOf([p, q]), r, row) == Yes
    {
      PairIsYes(p, q, r, row);
      PairIsYes(p, q, r', row');
    }
  }

  lemma {:induction false} DevicePartsRowOnly(a: Attr, k: nat)
    requires k <= |DEVICE_FIELDS|
    ensures forall i :: 0 <= i < |DeviceParts(a, k)| ==> RowOnly(DeviceParts(a, k)[i])
  {
    if k > 0 {
      DevicePartsRowOnly(a, k - 1);
    }
  }

  lemma DeviceTypeNeverNull(a: Attr)
    requires AsksTypeOnly(a)
    ensures NeverGained(Devices, AllOf(DeviceParts(a, |DEVICE_FIELDS|)))
  {
    var each := AllOf(DeviceParts(a, |DEVICE_FIELDS|));
    forall r, r', row, row' | RowFills(Devices, row, row') && Eval(each, r', row') == Yes
      ensures Eval(each, r, row) == Yes
    {
      DevicePartsMean(a, r, row);
      DevicePartsMean(a, r', row');
      forall name | name in DEVICE_FIELDS && Asked(a, name)
        ensures name in row && row[name] == Txt(a.fields[name])
      {
        assert name in row' && !Nullable(Devices, name);
      }
    }
  }

  lemma CompatibleKeepsNo(a: Attr, catalog: Catalog)
    ensures Keeps(CompatibleClause(a, catalog), false)
  {
    if CompatibleClause(a, catalog) != FALSE_CLAUSE {
      var parts := CompatibleClause(a, catalog).parts;
      NeverNull(Arches, "name", Eq, parts[0].each.v);
      forall i | 0 <= i < 3
        ensures Keeps(parts[i], false)
      {
        if i > 0 {
          assert RowOnly(parts[i].part.each);
        }
      }
    }
  }

  lemma AnyLeafKeeps(c: Class, a: Attr, catalog: Catalog, yes: bool, some: Clause, negated: bool)
    requires c in {Pool, Arch, KeyValue, CpuFlag, Device} && KeepsLeaf(c, a, catalog, yes) && some.Any?
    requires LeafClause(c, a, catalog) == Some(Unless(negated, some))
    ensures RowOnly(some.each) && (yes != negated || NeverGained(some.coll, some.each))
  {
    match c
    case Pool =>
      if HasText(a) { NeverNull(Pools, "name", Eq, some.each.v); }
    case Arch => NeverNull(Arches, "name", Eq, some.each.v);
    case KeyValue =>
      if a.text.None? {
        NeverNull(some.coll, "key", Eq, some.each.v);
      } else {
        PairNeverNull(some.coll, some.each.parts[0], some.each.parts[1]);
      }
    case CpuFlag =>
    case Device =>
      DevicePartsRowOnly(a, |DEVICE_FIELDS|);
      if AsksTypeOnly(a) {
        DeviceTypeNeverNull(a);
      }
    case _ =>
  }

  lemma DateKeeps(op: Op, col: Column, day: int, yes: bool)
    ensures Keeps(DateClause(op, col, day), yes)
  {
  }

  lemma KeepsLeafClause(c: Class, a: Attr, catalog: Catalog, yes: bool)
    requires IsLeaf(c) && LeafClause(c, a, catalog).Some? && KeepsLeaf(c, a, catalog, yes)
    ensures Keeps(LeafClause(c, a, catalog).value, yes)
  {
    var clause := LeafClause(c, a, catalog).value;
    if c in {Pool, Arch, KeyValue, CpuFlag, Device} {
      var negated := clause.Negation?;
      AnyLeafKeeps(c, a, catalog, yes, if negated then clause.part else clause, negated);
    } else if c in {Added, LastInventoried} && a.number.Some? {
      DateKeeps(a.op, OwnColumn(if c == Added then "date_added" else "date_lastcheckin"), a.number.value, yes);
    } else if c == CompatibleWithDistro && !yes {
      CompatibleKeepsNo(a, catalog);
    }
  }

  /* Disk elements */

  /** Whether the disk element is false does not depend on what is not known of the disks. */
  ghost predicate DiskKeepsNo(n: Node) {
    DiskReading(n, map[]) == Yes || forall row :: HasSize(row) ==> DiskReading(n, row) != Yes
  }

  lemma {:induction false} DiskIsRowOnly(n: Node)
    ensures DiskClause(n).Some? ==> RowOnly(DiskClause(n).value)
    ensures forall i :: 0 <= i < |DiskClauses(n, |n.kids|)| ==> RowOnly(DiskClauses(n, |n.kids|)[i])
    decreases n
  {
    forall c | c in DiskClauses(n, |n.kids|)
      ensures RowOnly(c)
    {
      DiskClausesAre(n, |n.kids|, c);
      var i :| 0 <= i < |n.kids| && DiskClause(n.kids[i]) == Some(c);
      DiskIsRowOnly(n.kids[i]);
    }
  }

  /** The conditions of a disk element, as one condition on a disk. */
  function EachDisk(n: Node): Clause {
    AllOf(DiskClauses(n, |n.kids|))
  }

  lemma EachDiskMeans(n: Node, r: Record, row: Row)
    requires n.cls == Disk
    ensures RowOnly(EachDisk(n)) && Eval(EachDisk(n), r, row) == DiskReading(n, row)
  {
    DiskIsRowOnly(n);
    DiskKidsOccur(n, r, row);
    ConnectedClauseMeans(Disk, DiskClauses(n, |n.kids|), r, row);
  }

  lemma DiskNeverGained(n: Node)
    requires n.cls == Disk && DiskKeepsNo(n)
    ensures NeverGained(Disks, EachDisk(n))
  {
    forall r, r', row, row' | RowFills(Disks, row, row') && Eval(EachDisk(n), r', row') == Yes
      ensures Eval(EachDisk(n), r, row) == Yes
    {
      EachDiskMeans(n, r', row');
      EachDiskMeans(n, r, map[]);
      RowOnlySettles(EachDisk(n), r, r, map[], row);
    }
  }

  /* Trees */

  /** Every leaf keeps the outcome that it is asked for: true, or, under an odd number of negations, false. */
  ghost predicate KeepsTree(n: Node, catalog: Catalog, yes: bool) {
    if IsLeaf(n.cls) then LeafClause(n.cls, n.attr, catalog).None? || KeepsLeaf(n.cls, n.attr, catalog, yes)
    else if n.cls == Disk then yes || DiskKeepsNo(n)
    else forall i :: 0 <= i < |n.kids| ==> KeepsTree(n.kids[i], catalog, if n.cls == Not then !yes else yes)
  }

  lemma {:induction false} KeepsTreeClause(n: Node, catalog: Catalog, yes: bool)
    requires KeepsTree(n, catalog, yes)
    ensures Compiled(n, catalog).Some? ==> Keeps(Compiled(n, catalog).value, yes)
    decreases n
  {
    if IsLeaf(n.cls) {
      if LeafClause(n.cls, n.attr, catalog).Some? {
        KeepsLeafClause(n.cls, n.attr, catalog, yes);
      }
    } else if n.cls == Disk {
      DiskIsRowOnly(n);
      if !yes {
        DiskNeverGained(n);
      }
    } else {
      var asked := if n.cls == Not then !yes else yes;
      forall c | c in KidClauses(n, |n.kids|, catalog)
        ensures Keeps(c, asked)
      {
        KidClausesAre(n, |n.kids|, catalog, c);
        var i :| 0 <= i < |n.kids| && Compiled(n.kids[i], catalog) == Some(c);
        KeepsTreeClause(n.kids[i], catalog, asked);
      }
    }
  }

  /**
   A system that is selected stays selected, however its NULL columns are filled in, by every filter whose leaves keep
   the outcome asked of them; which leaves those are is settled by `LeafStability` and `DiskStability`.
   */
  lemma SelectedStaysSelected(n: Node, catalog: Catalog, r: Record, r': Record)
    requires KeepsTree(n, catalog, true) && Fills(r, r') && Selected(n, catalog, r)
    ensures Selected(n, catalog, r')
  {
    KeepsTreeClause(n, catalog, true);
    if Compiled(n, catalog).Some? {
      KeepsSettles(Compiled(n, catalog).value, true, r, r', map[], map[]);
    }
  }

  /** The outcome of the condition, if it is the given one, survives every way of filling in NULL columns. */
  ghost predicate AlwaysSettles(c: Clause, yes: bool) {
    forall r, r' :: Fills(r, r') ==> Settles(yes, Eval(c, r, map[]), Eval(c, r', map[]))
  }

  lemma KeepsAlwaysSettles(c: Clause, yes: bool)
    requires Keeps(c, yes)
    ensures AlwaysSettles(c, yes)
  {
    forall r, r' | Fills(r, r')
      ensures Settles(yes, Eval(c, r, map[]), Eval(c, r', map[]))
    {
      KeepsSettles(c, yes, r, r', map[], map[]);
    }
  }

  /* Losing an outcome */

  /**
   Columns, and cpu flags, exist only where their relation does; a power type belongs to a power supply; and sizes are
   numbers of bytes.
   */
  ghost predicate Coherent(r: Record) {
    && (forall col :: col in r.cols && col.rel.Some? ==> col.rel.value in r.rels)
    && (RowsOf(r, CpuFlags) != [] ==> CpuRel in r.rels)
    && (PowerTypeRel in r.rels ==> PowerRel in r.rels)
    && (forall i :: 0 <= i < |RowsOf(r, Disks)| ==> HasSize(RowsOf(r, Disks)[i]))
  }

  /** Some system, and a filling of it, between which the outcome of the condition is lost. */
  ghost predicate Loses(c: Clause, yes: bool, r: Record, r': Record) {
    Coherent(r) && Coherent(r') && Fills(r, r') && !Settles(yes, Eval(c, r, map[]), Eval(c, r', map[]))
  }

  lemma {:induction false} LongerIsGreater(s: string)
    ensures TextLess(s, s + "a") && !TextLess(s + "a", s) && !TextLess(s, s)
  {
    if s != "" {
      assert (s + "a")[1..] == s[1..] + "a";
      LongerIsGreater(s[1..]);
    }
  }

  /** A text for which the comparison comes out differently from the empty text. */
  lemma OtherText(op: Op, s: string) returns (t: string)
    requires !SameForEveryText(op, s)
    ensures Compare(op, Txt(t), Txt(s)) != Compare(op, Txt(""), Txt(s))
  {
    LongerIsGreater(s);
    match op
    case Eq => t := if s == "" then "a" else s;
    case Ne => t := if s == "" then "a" else s;
    case Lt => t := s;
    case Ge => t := s;
    case Le => t := s + "a";
    case Gt => t := s + "a";
  }

  /** A text for which the comparison with a non-empty text holds. */
  lemma FittingText(op: Op, s: string) returns (t: string)
    requires s != ""
    ensures Compare(op, Txt(t), Txt(s))
  {
    LongerIsGreater(s);
    t := if op == Lt || op == Ne then "" else if op == Gt then s + "a" else s;
  }

  /** A system of which only some rows of one collection are known. */
  function WithRows(coll: Collection, rows: seq<Row>): Record {
    Record(map[], if coll == CpuFlags then {CpuRel} else {}, map[coll := rows])
  }

  lemma WithRowsFills(coll: Collection, row: Row, row': Row)
    requires RowFills(coll, row, row')
    ensures Fills(WithRows(coll, [row]), WithRows(coll, [row']))
    ensures Coherent(WithRows(coll, [row])) && Coherent(WithRows(coll, [row']))
  {
    assert coll == Disks ==> HasSize(row);
  }

  lemma AnyOfOne(coll: Collection, each: Clause, row: Row)
    ensures
      var r := WithRows(coll, [row]);
      Eval(Any(coll, each), r, map[]) == Truly(Eval(each, r, row) == Yes)
  {
    var r := WithRows(coll, [row]);
    assert RowsOf(r, coll)[0] == row;
  }

  /** If filling in one row makes a condition true of it, the outcome that no row satisfies the condition is lost. */
  lemma GainLosesNo(coll: Collection, each: Clause, row: Row, row': Row)
    requires RowFills(coll, row, row')
    requires Eval(each, WithRows(coll, [row]), row) != Yes && Eval(each, WithRows(coll, [row']), row') == Yes
    ensures Loses(Any(coll, each), false, WithRows(coll, [row]), WithRows(coll, [row']))
    ensures Loses(Negation(Any(coll, each)), true, WithRows(coll, [row]), WithRows(coll, [row']))
  {
    WithRowsFills(coll, row, row');
    AnyOfOne(coll, each, row);
    AnyOfOne(coll, each, row');
  }

  lemma LosesFlag(a: Attr, yes: bool) returns (r: Record, r': Record)
    requires HasText(a) && (yes <==> a.op == Ne)
    ensures Loses(FlagClause(a).value, yes, r, r')
  {
    var op := if a.op == Ne then Eq else a.op;
    var t := FittingText(op, a.text.value);
    var row: Row := map["flag" := Txt(t)];
    GainLosesNo(CpuFlags, RowIs("flag", op, Txt(a.text.value)), map[], row);
    r, r' := WithRows(CpuFlags, [map[]]), WithRows(CpuFlags, [row]);
  }

  lemma LosesDevice(a: Attr, yes: bool) returns (r: Record, r': Record)
    requires DeviceClause(a).Some? && (yes <==> a.op == Ne) && !AsksTypeOnly(a)
    ensures Loses(DeviceClause(a).value, yes, r, r')
  {
    var row': Row := map name | name in a.fields && name in DEVICE_FIELDS && Asked(a, name) :: Txt(a.fields[name]);
    var row: Row := map name | name in row' && name == "type" :: row'[name];
    r, r' := WithRows(Devices, [row]), WithRows(Devices, [row']);
    DevicePartsMean(a, r, row);
    DevicePartsMean(a, r', row');
    GainLosesNo(Devices, AllOf(DeviceParts(a, |DEVICE_FIELDS|)), row, row');
  }

  /** The systems that support the architecture, and exclude on it a family that is not known, or the one asked for. */
  lemma LosesCompatible(a: Attr, catalog: Catalog) returns (r: Record, r': Record)
    requires NamesDistro(a, catalog)
    ensures Loses(CompatibleClause(a, catalog), true, r, r')
  {
    var (arch, major) := (a.fields["arch"], a.fields["osmajor"]);
    var own: Row := map["name" := Txt(arch)];
    var row: Row := map["arch" := Txt(arch)];
    var row': Row := row["osmajor" := Txt(major)];
    r := Record(map[], {}, map[Arches := [own], ExcludedMajors := [row]]);
    r' := Record(map[], {}, map[Arches := [own], ExcludedMajors := [row']]);
    assert RowsOf(r, Arches)[0] == RowsOf(r', Arches)[0] == own;
    assert RowsOf(r, ExcludedMajors)[0] == row && RowsOf(r', ExcludedMajors)[0] == row';
    assert Excludes(r', ExcludedMajors, arch, major, None);
    CompatibleMeans(a, catalog, r);
    CompatibleMeans(a, catalog, r');
  }

  /** Two disks, one of a size that is not known at first. */
  lemma LosesSum(op: Op, n: int, yes: bool, known: nat, filled: nat) returns (r: Record, r': Record)
    requires Truly(Compare(op, Num(known), Num(n))) == Truly(yes)
    requires Truly(Compare(op, Num(known + filled), Num(n))) != Truly(yes)
    ensures Loses(DiskSpaceIs(op, n), yes, r, r')
  {
    var one: Row := map["size" := Num(known)];
    var rows, rows' := [one, map[]], [one, map["size" := Num(filled)]];
    r, r' := WithRows(Disks, rows), WithRows(Disks, rows');
    assert rows[..1] == rows'[..1] == [one] && [one][..0] == [];
    assert SumOf([one], "size") == known;
    assert SumOf(rows, "size") == known && SumOf(rows', "size") == known + filled;
    assert "size" in rows[0] && "size" in rows'[0];
    assert RowFills(Disks, rows[0], rows'[0]) && RowFills(Disks, rows[1], rows'[1]);
  }

  lemma LosesDiskSpace(op: Op, n: int, yes: bool) returns (r: Record, r': Record)
    requires n != 0 && !KeepsSum(op, n, yes)
    ensures Loses(DiskSpaceIs(op, n), yes, r, r')
  {
    if op == (if yes then Eq else Ne) {
      r, r' := LosesSum(op, n, yes, n, 1);
    } else {
      r, r' := LosesSum(op, n, yes, 0, if op == Le || op == Gt then n + 1 else n);
    }
  }

  lemma LosesColumn(c: Class, a: Attr, catalog: Catalog, yes: bool) returns (r: Record, r': Record)
    requires c in {Hypervisor, AutoProv, LastInventoried}
    requires LeafClause(c, a, catalog).Some? && !KeepsLeaf(c, a, catalog, yes)
    ensures Loses(LeafClause(c, a, catalog).value, yes, r, r')
  {
    var clause := LeafClause(c, a, catalog).value;
    r := Record(map[], {}, map[]);
    if c == Hypervisor {
      var t := OtherText(a.op, clause.s);
      r' := Record(map[clause.col := Txt(t)], {HypervisorRel}, map[]);
    } else {
      var notNull := if clause.Negation? then clause.part else clause;
      r' := r.(cols := map[notNull.col := Num(0)]);
    }
  }

  lemma LosesOutcome(c: Class, a: Attr, catalog: Catalog, yes: bool) returns (r: Record, r': Record)
    requires IsLeaf(c) && LeafClause(c, a, catalog).Some? && !KeepsLeaf(c, a, catalog, yes)
    ensures Loses(LeafClause(c, a, catalog).value, yes, r, r')
  {
    if c == CpuFlag {
      r, r' := LosesFlag(a, yes);
    } else if c == Device {
      r, r' := LosesDevice(a, yes);
    } else if c == CompatibleWithDistro {
      r, r' := LosesCompatible(a, catalog);
    } else if c == DiskSpace {
      r, r' := LosesDiskSpace(a.op, a.number.value, yes);
    } else {
      r, r' := LosesColumn(c, a, catalog, yes);
    }
  }

  /**
   Exactly which leaves keep which outcome. The others, which lose it even between coherent systems, are the hypervisor
   comparisons that depend on the text; automatic provisioning when denied; whether there was an inventory, the one way
   or the other; the lack of a cpu flag, or of a device by more than its class; compatibility with a distro; and the
   comparisons of disk space that growth can change.
   */
  lemma LeafStability(c: Class, a: Attr, catalog: Catalog, yes: bool)
    requires IsLeaf(c)
    ensures
      (LeafClause(c, a, catalog).Some? ==> AlwaysSettles(LeafClause(c, a, catalog).value, yes)) <==>
      LeafClause(c, a, catalog).None? || KeepsLeaf(c, a, catalog, yes)
    ensures
      (LeafClause(c, a, catalog).Some? ==> !exists r, r' :: Loses(LeafClause(c, a, catalog).value, yes, r, r')) <==>
      LeafClause(c, a, catalog).None? || KeepsLeaf(c, a, catalog, yes)
  {
    if LeafClause(c, a, catalog).Some? {
      if KeepsLeaf(c, a, catalog, yes) {
        KeepsLeafClause(c, a, catalog, yes);
        KeepsAlwaysSettles(LeafClause(c, a, catalog).value, yes);
      } else {
        var r, r' := LosesOutcome(c, a, catalog, yes);
      }
    }
  }

  /**
   And exactly which disk elements: one that is true keeps so; one that is false keeps so if and only if it is true of a
   disk of which nothing is known, or of no disk whatsoever.
   */
  lemma DiskStability(n: Node, catalog: Catalog, yes: bool)
    requires n.cls == Disk
    ensures Compiled(n, catalog).Some?
    ensures AlwaysSettles(Compiled(n, catalog).value, yes) <==> yes || DiskKeepsNo(n)
    ensures !(exists r, r' :: Loses(Compiled(n, catalog).value, yes, r, r')) <==> yes || DiskKeepsNo(n)
  {
    if yes || DiskKeepsNo(n) {
      KeepsTreeClause(n, catalog, yes);
      KeepsAlwaysSettles(Compiled(n, catalog).value, yes);
    } else {
      var row :| HasSize(row) && DiskReading(n, row) == Yes;
      EachDiskMeans(n, WithRows(Disks, [map[]]), map[]);
      EachDiskMeans(n, WithRows(Disks, [row]), row);
      GainLosesNo(Disks, EachDisk(n), map[], row);
    }
  }

  /** So asking for systems without a hypervisor selects one whose hypervisor is NULL, and drops it once it is known. */
  lemma UnknownHypervisorIsNone(catalog: Catalog, key: string, r: Record, name: string)
    requires Of(HypervisorRel, "hypervisor") !in r.cols && name != ""
    requires forall i :: 0 <= i < |RowsOf(r, Disks)| ==> HasSize(RowsOf(r, Disks)[i])
    ensures
      var n := Node(Hypervisor, Attr(Eq, Some(""), None, key, map[]), []);
      var r' := r.(
        cols := r.cols[Of(HypervisorRel, "hypervisor") := Txt(name)], rels := r.rels + {HypervisorRel});
      Selected(n, catalog, r) && Fills(r, r') && !Selected(n, catalog, r')
  {
  }

  /** Asking for systems that were never inventoried selects one, and drops it once it is. */
  lemma NeverInventoriedIsDropped(catalog: Catalog, a: Attr, r: Record, seconds: int)
    requires OwnColumn("date_lastcheckin") !in r.cols && a.op == Eq && a.number.None?
    requires forall i :: 0 <= i < |RowsOf(r, Disks)| ==> HasSize(RowsOf(r, Disks)[i])
    ensures
      var n := Node(LastInventoried, a, []);
      var r' := r.(cols := r.cols[OwnColumn("date_lastcheckin") := Num(seconds)]);
      Selected(n, catalog, r) && Fills(r, r') && !Selected(n, catalog, r')
  {
  }

  /* Negated disks */

  /** A disk element with one condition on the model, negated. */
  function NotThisDiskModel(a: Attr): Node {
    Node(Not, a, [Node(Disk, a, [Node(DiskText("model"), a, [])])])
  }

  lemma ReadsOneDisk(a: Attr, catalog: Catalog, r: Record, row: Row)
    requires HasText(a) && RowsOf(r, Disks) == [row]
    ensures
      Reading(NotThisDiskModel(a).kids[0], catalog, r) == Truly(DiskLeafReading(DiskText("model"), a, row) == Yes)
  {
    var disk := NotThisDiskModel(a).kids[0];
    assert DiskReading(disk.kids[0], row) == DiskLeafReading(DiskText("model"), a, row);
    assert DiskContributes(disk.kids[0]);
    assert DiskReading(disk, row) == DiskReading(disk.kids[0], row);
    assert RowsOf(r, Disks)[0] == row;
  }

  lemma NegatesOneDisk(a: Attr, catalog: Catalog, r: Record, row: Row)
    requires HasText(a) && RowsOf(r, Disks) == [row]
    ensures Selected(NotThisDiskModel(a), catalog, r) <==> DiskLeafReading(DiskText("model"), a, row) != Yes
  {
    var n := NotThisDiskModel(a);
    ReadsOneDisk(a, catalog, r, row);
    assert Contributes(n.kids[0], catalog);
    CompilationPreservesMeaning(n, catalog, r);
    forall rel
      ensures !NeedsRel(n, catalog, rel)
    {
      assert !NeedsRel(n.kids[0], catalog, rel);
    }
  }

  /** Negating a condition on disks does not settle it: a disk of unknown model passes, until its model is known. */
  lemma UnknownDiskModelPasses(a: Attr, catalog: Catalog, r: Record)
    requires a.op == Eq && HasText(a) && RowsOf(r, Disks) == [map[]]
    ensures
      var known := r.(rows := r.rows[Disks := [map["model" := Txt(a.text.value)]]]);
      Fills(r, known) && Selected(NotThisDiskModel(a), catalog, r) && !Selected(NotThisDiskModel(a), catalog, known)
  {
    var row: Row := map["model" := Txt(a.text.value)];
    NegatesOneDisk(a, catalog, r, map[]);
    NegatesOneDisk(a, catalog, r.(rows := r.rows[Disks := [row]]), row);
  }
}
