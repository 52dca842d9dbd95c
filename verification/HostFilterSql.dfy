/**
 Reading a host filter as an SQL query over systems: a list of joins and a search condition, evaluated in the
 three-valued logic of section 8.12 of ISO/IEC 9075:1992.
 */
module HostFilterSql {
  import opened Prelude
  import opened HostFilter

  datatype Truth = Yes | No | Unknown

  /** A row of a to-many collection: its columns, without those that are NULL. */
  type Row = map<string, Val>

  /** The collections that a filter may ask about. */
  datatype Collection =
    | Pools | KeyValuesInt | KeyValuesString | Arches | CpuFlags | Disks | Devices | ExcludedMajors | ExcludedVersions

  datatype Clause =
    | ColumnIs(col: Column, op: Op, v: Val)
    | CoalescedIs(col: Column, op: Op, s: string)
    | NotNull(col: Column)
    | RowIs(name: string, op: Op, v: Val)
    | Any(coll: Collection, each: Clause)
    | DiskSpaceIs(op: Op, n: int)
    | DiskCountIs(op: Op, n: int)
    | AllOf(parts: seq<Clause>)
    | AnyOf(parts: seq<Clause>)
    | Negation(part: Clause)

  /** A system as the query sees it: its columns that are not NULL, the to-one relations that exist, its collections. */
  datatype Record = Record(cols: map<Column, Val>, rels: set<Rel>, rows: map<Collection, seq<Row>>)

  function RowsOf(r: Record, coll: Collection): seq<Row> {
    if coll in r.rows then r.rows[coll] else []
  }

  /* Three-valued logic */

  function Truly(b: bool): Truth {
    if b then Yes else No
  }

  function Negate(t: Truth): Truth {
    match t
    case Yes => No
    case No => Yes
    case Unknown => Unknown
  }

  function Both(a: Truth, b: Truth): Truth {
    if a == No || b == No then No else if a == Unknown || b == Unknown then Unknown else Yes
  }

  function Either(a: Truth, b: Truth): Truth {
    Negate(Both(Negate(a), Negate(b)))
  }

  function TextOrEmpty(r: Record, col: Column): string {
    if col in r.cols && r.cols[col].Txt? then r.cols[col].s else ""
  }

  /** SUM over a column of a collection: NULL does not count. */
  function SumOf(rows: seq<Row>, name: string): int {
    if rows == [] then 0
    else
      var last := rows[|rows| - 1];
      SumOf(rows[..|rows| - 1], name) + if name in last && last[name].Num? then last[name].n else 0
  }

  /** Some row has the column; if none has, SUM is NULL. */
  predicate AnyHas(rows: seq<Row>, name: string) {
    exists i :: 0 <= i < |rows| && name in rows[i]
  }

  /** A condition on a record, or, inside `Any`, on one row of a collection. */
  function Eval(c: Clause, r: Record, row: Row): Truth
    decreases c, 0
  {
    match c
    case ColumnIs(col, op, v) => if col in r.cols then Truly(Compare(op, r.cols[col], v)) else Unknown
    case CoalescedIs(col, op, s) => Truly(Compare(op, Txt(TextOrEmpty(r, col)), Txt(s)))
    case NotNull(col) => Truly(col in r.cols)
    case RowIs(name, op, v) => if name in row then Truly(Compare(op, row[name], v)) else Unknown
    case Any(coll, each) => Truly(exists i :: 0 <= i < |RowsOf(r, coll)| && Eval(each, r, RowsOf(r, coll)[i]) == Yes)
    case DiskSpaceIs(op, n) =>
      if AnyHas(RowsOf(r, Disks), "size") then Truly(Compare(op, Num(SumOf(RowsOf(r, Disks), "size")), Num(n)))
      else Unknown
    case DiskCountIs(op, n) => Truly(Compare(op, Num(|RowsOf(r, Disks)|), Num(n)))
    case AllOf(parts) => EvalAll(c, |parts|, r, row)
    case AnyOf(parts) => EvalAny(c, |parts|, r, row)
    case Negation(part) => Negate(Eval(part, r, row))
  }

  /** The conjunction of the first `n` parts. */
  function EvalAll(c: Clause, n: nat, r: Record, row: Row): Truth
    requires c.AllOf? && n <= |c.parts|
    decreases c, 0, n
  {
    if n == 0 then Yes else Both(EvalAll(c, n - 1, r, row), Eval(c.parts[n - 1], r, row))
  }

  /** The disjunction of the first `n` parts. */
  function EvalAny(c: Clause, n: nat, r: Record, row: Row): Truth
    requires c.AnyOf? && n <= |c.parts|
    decreases c, 0, n
  {
    if n == 0 then No else Either(EvalAny(c, n - 1, r, row), Eval(c.parts[n - 1], r, row))
  }

  /** A join; an outer join selects the system whether or not the relation exists. */
  datatype Join = Inner(rel: Rel) | Outer(rel: Rel)

  /** The names that can be looked up when a filter is compiled; a key is numeric or not. */
  datatype Catalog = Catalog(pools: set<string>, arches: set<string>, keys: map<string, bool>)

  /* Leaves */

  function OwnColumn(name: string): Column {
    Column(None, name)
  }

  function Of(rel: Rel, name: string): Column {
    Column(Some(rel), name)
  }

  function OnNumber(a: Attr, col: Column): Option<Clause> {
    if HasNumber(a) then Some(ColumnIs(col, a.op, Num(a.number.value))) else None
  }

  function OnText(a: Attr, col: Column): Option<Clause> {
    if HasText(a) then Some(ColumnIs(col, a.op, Txt(a.text.value))) else None
  }

  /** A leaf that gives no clause joins nothing either, unless its join comes first. */
  function JoinIf(c: Option<Clause>, joins: seq<Join>): seq<Join> {
    if c.Some? then joins else []
  }

  function Unless(negate: bool, c: Clause): Clause {
    if negate then Negation(c) else c
  }

  function PoolClause(a: Attr, catalog: Catalog): Option<Clause> {
    if HasText(a) then
      if a.text.value !in catalog.pools then None
      else Some(Unless(a.op != Eq, Any(Pools, RowIs("name", Eq, Txt(a.text.value)))))
    else Some(Unless(a.op == Eq, Any(Pools, AllOf([]))))
  }

  function ArchClause(a: Attr, catalog: Catalog): Option<Clause> {
    if !HasText(a) || a.text.value !in catalog.arches then None
    else Some(Unless(a.op != Eq, Any(Arches, RowIs("name", Eq, Txt(a.text.value)))))
  }

  function KeyValueClause(a: Attr, catalog: Catalog): Option<Clause> {
    if a.key !in catalog.keys then None
    else if a.op != Eq && a.op != Ne && !HasText(a) then None
    else
      var coll := if catalog.keys[a.key] then KeyValuesInt else KeyValuesString;
      var hasKey := RowIs("key", Eq, Txt(a.key));
      if a.text.None? then Some(Unless(a.op == Ne, Any(coll, hasKey)))
      else
        var v := if catalog.keys[a.key] && a.number.Some? then Num(a.number.value) else Txt(a.text.value);
        Some(Unless(a.op == Ne, Any(coll, AllOf([hasKey, RowIs("key_value", if a.op == Ne then Eq else a.op, v)]))))
  }

  function FlagClause(a: Attr): Option<Clause> {
    if !HasText(a) then None
    else Some(Unless(a.op == Ne, Any(CpuFlags, RowIs("flag", if a.op == Ne then Eq else a.op, Txt(a.text.value)))))
  }

  const SECONDS_A_DAY := 86400

  /** A date is compared by days, a column by seconds. */
  function DateClause(op: Op, col: Column, day: int): Clause {
    var start := day * SECONDS_A_DAY;
    var end := start + SECONDS_A_DAY - 1;
    match op
    case Eq => AllOf([ColumnIs(col, Ge, Num(start)), ColumnIs(col, Le, Num(end))])
    case Ne => Negation(AllOf([ColumnIs(col, Ge, Num(start)), ColumnIs(col, Le, Num(end))]))
    case Gt => ColumnIs(col, Gt, Num(end))
    case _ => ColumnIs(col, op, Num(start))
  }

  function OnDate(a: Attr, col: Column): Option<Clause> {
    if a.number.Some? then Some(DateClause(a.op, col, a.number.value)) else None
  }

  /** Without a date, whether the system was ever inventoried. */
  function InventoriedClause(a: Attr): Clause {
    var col := OwnColumn("date_lastcheckin");
    if a.number.Some? then DateClause(a.op, col, a.number.value) else Unless(a.op == Eq, NotNull(col))
  }

  const DEVICE_FIELDS := [
    "bus", "driver", "vendor_id", "device_id", "subsys_vendor_id", "subsys_device_id", "description", "type"]

  predicate Asked(a: Attr, name: string) {
    name in a.fields && a.fields[name] != ""
  }

  /** The conditions on one device that the first `k` attributes give. */
  function DeviceParts(a: Attr, k: nat): seq<Clause>
    requires k <= |DEVICE_FIELDS|
  {
    if k == 0 then []
    else
      var name := DEVICE_FIELDS[k - 1];
      DeviceParts(a, k - 1) + if Asked(a, name) then [RowIs(name, Eq, Txt(a.fields[name]))] else []
  }

  function DeviceClause(a: Attr): Option<Clause> {
    var parts := DeviceParts(a, |DEVICE_FIELDS|);
    if parts == [] then None else Some(Unless(a.op == Ne, Any(Devices, AllOf(parts))))
  }

  const FALSE_CLAUSE := AnyOf([])

  /** The architecture is supported, and neither the family nor the version is excluded for it. */
  function CompatibleClause(a: Attr, catalog: Catalog): Clause {
    if "arch" !in a.fields || a.fields["arch"] !in catalog.arches || !Asked(a, "osmajor") then FALSE_CLAUSE
    else
      var onArch := RowIs("arch", Eq, Txt(a.fields["arch"]));
      var onMajor := RowIs("osmajor", Eq, Txt(a.fields["osmajor"]));
      var onVersion := if Asked(a, "osminor")
        then [onMajor, RowIs("osminor", Eq, Txt(a.fields["osminor"])), onArch] else [onMajor, onArch];
      AllOf([
        Any(Arches, RowIs("name", Eq, Txt(a.fields["arch"]))),
        Negation(Any(ExcludedMajors, AllOf([onMajor, onArch]))),
        Negation(Any(ExcludedVersions, AllOf(onVersion)))])
  }

  function LeafClause(c: Class, a: Attr, catalog: Catalog): Option<Clause> {
    match c
    case Memory => OnNumber(a, OwnColumn("memory"))
    case DiskSpace => if HasNumber(a) then Some(DiskSpaceIs(a.op, a.number.value)) else None
    case DiskCount => if HasNumber(a) then Some(DiskCountIs(a.op, a.number.value)) else None
    case Processors => OnNumber(a, Of(CpuRel, "processors"))
    case Cores => OnNumber(a, Of(CpuRel, "cores"))
    case CpuNumber(name) => OnNumber(a, Of(CpuRel, name))
    case CpuText(name) => OnText(a, Of(CpuRel, name))
    case CpuFlag => FlagClause(a)
    case CpuHyper => if HasNumber(a) then Some(ColumnIs(Of(CpuRel, "hyper"), Eq, Num(1))) else None
    case SystemText(name) => OnText(a, OwnColumn(name))
    case SystemType => OnText(a.(op := Eq), OwnColumn("type"))
    case SystemStatus => OnText(a.(op := Eq), OwnColumn("status"))
    case UserName(role) => OnText(a, Of(role, "user_name"))
    case PowerType => OnText(a, Of(PowerTypeRel, "name"))
    case NumaNodes => OnNumber(a, Of(NumaRel, "nodes"))
    case LabController => OnText(a, Of(LabControllerRel, "fqdn"))
    case Hypervisor =>
      Some(CoalescedIs(Of(HypervisorRel, "hypervisor"), a.op, if a.text.Some? then a.text.value else ""))
    case AutoProv => if HasText(a) then Some(NotNull(OwnColumn("lab_controller"))) else None
    case Pool => PoolClause(a, catalog)
    case Arch => ArchClause(a, catalog)
    case KeyValue => KeyValueClause(a, catalog)
    case Device => DeviceClause(a)
    case Added => OnDate(a, OwnColumn("date_added"))
    case LastInventoried => Some(InventoriedClause(a))
    case CompatibleWithDistro => Some(CompatibleClause(a, catalog))
    case _ => None
  }

  function LeafJoins(c: Class, a: Attr, catalog: Catalog): seq<Join> {
    var clause := LeafClause(c, a, catalog);
    match c
    case Processors => JoinIf(clause, [Inner(CpuRel)])
    case Cores => JoinIf(clause, [Inner(CpuRel)])
    case CpuNumber(_) => JoinIf(clause, [Inner(CpuRel)])
    case CpuText(_) => JoinIf(clause, [Inner(CpuRel)])
    case CpuFlag => JoinIf(clause, [Inner(CpuRel)])
    case CpuHyper => JoinIf(clause, [Inner(CpuRel)])
    case UserName(role) => JoinIf(clause, [Inner(role)])
    case PowerType => JoinIf(clause, [Inner(PowerRel), Inner(PowerTypeRel)])
    case NumaNodes => JoinIf(clause, [Inner(NumaRel)])
    case LabController => JoinIf(clause, [Inner(LabControllerRel)])
    case Hypervisor => [Outer(HypervisorRel)]
    case AutoProv => JoinIf(clause, [Inner(PowerRel)])
    case _ => []
  }

  /* Inside a disk element: conditions on one disk */

  function DiskClause(n: Node): Option<Clause>
    decreases n, 1
  {
    match n.cls
    case DiskText(name) => if HasText(n.attr) then Some(RowIs(name, n.attr.op, Txt(n.attr.text.value))) else None
    case DiskNumber(name) => if HasNumber(n.attr) then Some(RowIs(name, n.attr.op, Num(n.attr.number.value))) else None
    case Or => Some(AnyOf(DiskClauses(n, |n.kids|)))
    case Not => Some(Negation(AllOf(DiskClauses(n, |n.kids|))))
    case _ => Some(AllOf(DiskClauses(n, |n.kids|)))
  }

  /** The conditions given by the first `k` children. */
  function DiskClauses(n: Node, k: nat): seq<Clause>
    requires k <= |n.kids|
    decreases n, 0, k
  {
    if k == 0 then []
    else
      var last := DiskClause(n.kids[k - 1]);
      DiskClauses(n, k - 1) + if last.Some? then [last.value] else []
  }

  /* Compilation */

  function Compiled(n: Node, catalog: Catalog): Option<Clause>
    decreases n, 1
  {
    if IsLeaf(n.cls) then LeafClause(n.cls, n.attr, catalog)
    else if n.cls == Disk then Some(Any(Disks, AllOf(DiskClauses(n, |n.kids|))))
    else
      var queries := KidClauses(n, |n.kids|, catalog);
      if queries == [] then None
      else if n.cls == Or then Some(AnyOf(queries))
      else if n.cls == Not then Some(Negation(AllOf(queries)))
      else Some(AllOf(queries))
  }

  /** The clauses of the first `k` children, without those that have none. */
  function KidClauses(n: Node, k: nat, catalog: Catalog): seq<Clause>
    requires k <= |n.kids|
    decreases n, 0, k
  {
    if k == 0 then []
    else
      var last := Compiled(n.kids[k - 1], catalog);
      KidClauses(n, k - 1, catalog) + if last.Some? then [last.value] else []
  }

  function JoinsOf(n: Node, catalog: Catalog): seq<Join>
    decreases n, 1
  {
    if IsLeaf(n.cls) then LeafJoins(n.cls, n.attr, catalog)
    else if n.cls == Disk then []
    else KidJoins(n, |n.kids|, catalog)
  }

  function KidJoins(n: Node, k: nat, catalog: Catalog): seq<Join>
    requires k <= |n.kids|
    decreases n, 0, k
  {
    if k == 0 then [] else KidJoins(n, k - 1, catalog) + JoinsOf(n.kids[k - 1], catalog)
  }

  method FilterDisk(n: Node) returns (clauses: seq<Clause>)
    requires n.cls == Disk
    ensures clauses == DiskClauses(n, |n.kids|)
  {
    clauses := [];
    for i := 0 to |n.kids|
      invariant clauses == DiskClauses(n, i)
    {
      var clause := DiskClause(n.kids[i]);
      if clause.Some? {
        clauses := clauses + [clause.value];
      }
    }
  }

  /** Compiles a wrapper: threads the joins through the children and collects their clauses. */
  method Filter(n: Node, catalog: Catalog, joins: seq<Join>) returns (joins': seq<Join>, clause: Option<Clause>)
    ensures joins' == joins + JoinsOf(n, catalog)
    ensures clause == Compiled(n, catalog)
    decreases n
  {
    joins' := joins;
    if IsLeaf(n.cls) {
      joins' := joins + LeafJoins(n.cls, n.attr, catalog);
      clause := LeafClause(n.cls, n.attr, catalog);
    } else if n.cls == Disk {
      var clauses := FilterDisk(n);
      clause := Some(Any(Disks, AllOf(clauses)));
    } else {
      var queries: seq<Clause> := [];
      for i := 0 to |n.kids|
        invariant queries == KidClauses(n, i, catalog)
        invariant joins' == joins + KidJoins(n, i, catalog)
      {
        var query;
        joins', query := Filter(n.kids[i], catalog, joins');
        if query.Some? {
          queries := queries + [query.value];
        }
      }
      if queries == [] {
        clause := None;
      } else if n.cls == Or {
        clause := Some(AnyOf(queries));
      } else if n.cls == Not {
        clause := Some(Negation(AllOf(queries)));
      } else {
        clause := Some(AllOf(queries));
      }
    }
  }

  /** The record is selected: every inner join finds its relation, and the condition, if there is one, is true. */
  ghost predicate Selects(joins: seq<Join>, clause: Option<Clause>, r: Record) {
    && (forall rel :: Inner(rel) in joins ==> rel in r.rels)
    && (clause.Some? ==> Eval(clause.value, r, map[]) == Yes)
  }

  ghost predicate Selected(n: Node, catalog: Catalog, r: Record) {
    Selects(JoinsOf(n, catalog), Compiled(n, catalog), r)
  }
}
