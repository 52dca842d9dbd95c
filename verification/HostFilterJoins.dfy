/** What the inner joins of a host filter lose: nothing if every relation joined is guaranteed by what is asked for. */
module HostFilterJoins {
  import opened Prelude
  import opened HostFilter
  import opened HostFilterSql
  import opened HostFilterMeaning
  import opened HostFilterLeaves
  import opened HostFilterNulls

  /* Leaves */

  /** If the condition of the leaf has the given outcome, the relations that it joins exist anyway. */
  predicate EvidentLeaf(c: Class, a: Attr, yes: bool) {
    match c
    case CpuFlag => yes <==> a.op != Ne
    case AutoProv => false
    case _ => true
  }

  ghost predicate LeafImpliesRels(c: Class, a: Attr, catalog: Catalog, yes: bool) {
    LeafClause(c, a, catalog).Some? ==>
      forall r, rel | Coherent(r) && Inner(rel) in LeafJoins(c, a, catalog) ::
        Eval(LeafClause(c, a, catalog).value, r, map[]) == Truly(yes) ==> rel in r.rels
  }

  lemma EvidentHasRelation(c: Class, a: Attr, catalog: Catalog, yes: bool, r: Record, rel: Rel)
    requires IsLeaf(c) && LeafClause(c, a, catalog).Some? && EvidentLeaf(c, a, yes) && Coherent(r)
    requires Inner(rel) in LeafJoins(c, a, catalog) && Eval(LeafClause(c, a, catalog).value, r, map[]) == Truly(yes)
    ensures rel in r.rels
  {
    if c == CpuFlag {
      var clause := LeafClause(c, a, catalog).value;
      var any := if clause.Negation? then clause.part else clause;
      assert Eval(any, r, map[]) == Yes;
    }
  }

  lemma WithoutRelation(c: Class, a: Attr, catalog: Catalog, yes: bool) returns (r: Record, rel: Rel)
    requires IsLeaf(c) && LeafClause(c, a, catalog).Some? && !EvidentLeaf(c, a, yes)
    ensures Coherent(r) && Eval(LeafClause(c, a, catalog).value, r, map[]) == Truly(yes)
    ensures Inner(rel) in LeafJoins(c, a, catalog) && rel !in r.rels
  {
    r := Record(if yes then map[OwnColumn("lab_controller") := Num(1)] else map[], {}, map[]);
    rel := if c == AutoProv then PowerRel else CpuRel;
  }

  /**
   Which leaves those are, when they are true and when they are false: all but automatic provisioning, the lack of a cpu
   flag when true, and the presence of one when false.
   */
  lemma EvidentLeaves(c: Class, a: Attr, catalog: Catalog, yes: bool)
    requires IsLeaf(c)
    ensures LeafImpliesRels(c, a, catalog, yes) <==> EvidentLeaf(c, a, yes) || LeafClause(c, a, catalog).None?
  {
    if LeafClause(c, a, catalog).None? {
    } else if EvidentLeaf(c, a, yes) {
      forall r, rel | Coherent(r) && Inner(rel) in LeafJoins(c, a, catalog) &&
        Eval(LeafClause(c, a, catalog).value, r, map[]) == Truly(yes)
        ensures rel in r.rels
      {
        EvidentHasRelation(c, a, catalog, yes, r, rel);
      }
    } else {
      var r, rel := WithoutRelation(c, a, catalog, yes);
      assert rel !in r.rels;
    }
  }

  /* Which outcomes a leaf can have */

  /** A number that is never negative, such as a count or a sum of sizes, never compares like this. */
  predicate NeverCounts(op: Op, n: int, yes: bool) {
    n < 0 && (yes <==> op in {Lt, Le, Eq})
  }

  /** The leaf, going by its attributes alone, never has the outcome. */
  predicate NeverReads(c: Class, a: Attr, catalog: Catalog, yes: bool) {
    match c
    case Hypervisor => SameForEveryText(a.op, if a.text.Some? then a.text.value else "") && (yes <==> a.op == Lt)
    case CompatibleWithDistro => yes && !NamesDistro(a, catalog)
    case DiskSpace => HasNumber(a) && NeverCounts(a.op, a.number.value, yes)
    case DiskCount => HasNumber(a) && NeverCounts(a.op, a.number.value, yes)
    case _ => false
  }

  lemma PickNumber(op: Op, n: int, yes: bool) returns (k: int)
    ensures Compare(op, Num(k), Num(n)) == yes && (n != 0 && !NeverCounts(op, n, yes) ==> k >= 0)
  {
    if yes {
      k := if op == Lt then n - 1 else if op == Gt || op == Ne then n + 1 else n;
    } else {
      k := if op == Le || op == Eq then n + 1 else if op == Ge then n - 1 else n;
    }
    if n != 0 && !NeverCounts(op, n, yes) && k < 0 {
      k := 0;
    }
  }

  lemma PickValue(op: Op, v: Val, yes: bool) returns (w: Val)
    requires v == Txt("") ==> yes && op == Eq
    ensures Compare(op, w, v) == yes
  {
    match v
    case Num(n) =>
      var k := PickNumber(op, n, yes);
      w := Num(k);
    case Txt(s) =>
      LongerIsGreater(s);
      if yes && s != "" {
        var t := FittingText(op, s);
        w := Txt(t);
      } else {
        w := if yes || op == Ne || op == Lt then v else if op == Le then Txt(s + "a") else Txt("");
      }
  }

  /** A coherent system gives the condition the outcome. */
  ghost predicate Reaches(c: Clause, yes: bool, r: Record) {
    Coherent(r) && Eval(c, r, map[]) == Truly(yes)
  }

  /** A system of which one column is known. */
  function WithColumn(col: Column, v: Val): Record {
    Record(
      map[col := v],
      if col.rel.None? then {} else if col.rel.value == PowerTypeRel then {PowerRel, PowerTypeRel} else {col.rel.value},
      map[])
  }

  lemma ReachColumn(col: Column, op: Op, v: Val, yes: bool) returns (r: Record)
    requires v != Txt("")
    ensures Reaches(ColumnIs(col, op, v), yes, r)
  {
    var w := PickValue(op, v, yes);
    r := WithColumn(col, w);
  }

  lemma ReachNotNull(col: Column, yes: bool, negated: bool) returns (r: Record)
    requires col.rel.None?
    ensures Reaches(Unless(negated, NotNull(col)), yes, r)
  {
    r := if yes != negated then WithColumn(col, Num(0)) else Record(map[], {}, map[]);
  }

  lemma ReachCoalesced(col: Column, op: Op, s: string, yes: bool) returns (r: Record)
    requires !(SameForEveryText(op, s) && (yes <==> op == Lt))
    ensures Reaches(CoalescedIs(col, op, s), yes, r)
  {
    if Compare(op, Txt(""), Txt(s)) == yes {
      r := Record(map[], {}, map[]);
    } else {
      var t := OtherText(op, s);
      r := WithColumn(col, Txt(t));
    }
  }

  lemma ReachDate(op: Op, col: Column, day: int, yes: bool) returns (r: Record)
    requires col.rel.None?
    ensures Reaches(DateClause(op, col, day), yes, r)
  {
    var k := PickNumber(op, day, yes);
    var seconds := k * SECONDS_A_DAY;
    r := WithColumn(col, Num(seconds));
    DateMeans(op, col, day, r, seconds);
  }

  /** Whether some row satisfies a condition can be so or not, if one row can. */
  lemma ReachAny(coll: Collection, each: Clause, row: Row, yes: bool, negated: bool) returns (r: Record)
    requires coll != Disks && Eval(each, WithRows(coll, [row]), row) == Yes
    ensures Reaches(Unless(negated, Any(coll, each)), yes, r)
  {
    AnyOfOne(coll, each, row);
    r := WithRows(coll, if yes != negated then [row] else []);
  }

  lemma ReachRowIs(coll: Collection, name: string, op: Op, v: Val, yes: bool, negated: bool) returns (r: Record)
    requires coll != Disks && (v == Txt("") ==> op == Eq)
    ensures Reaches(Unless(negated, Any(coll, RowIs(name, op, v))), yes, r)
  {
    var w := PickValue(op, v, true);
    r := ReachAny(coll, RowIs(name, op, v), map[name := w], yes, negated);
  }

  lemma ReachKeyValue(a: Attr, catalog: Catalog, yes: bool) returns (r: Record)
    requires KeyValueClause(a, catalog).Some?
    ensures Reaches(KeyValueClause(a, catalog).value, yes, r)
  {
    var clause := KeyValueClause(a, catalog).value;
    var any := if clause.Negation? then clause.part else clause;
    if a.text.None? {
      r := ReachRowIs(any.coll, "key", Eq, Txt(a.key), yes, clause.Negation?);
    } else {
      var (p, q) := (any.each.parts[0], any.each.parts[1]);
      var w := PickValue(q.op, q.v, true);
      var row: Row := map["key" := Txt(a.key), "key_value" := w];
      PairIsYes(p, q, WithRows(any.coll, [row]), row);
      r := ReachAny(any.coll, any.each, row, yes, clause.Negation?);
    }
  }

  lemma ReachDevice(a: Attr, yes: bool) returns (r: Record)
    requires DeviceClause(a).Some?
    ensures Reaches(DeviceClause(a).value, yes, r)
  {
    var row: Row := map name | name in a.fields && name in DEVICE_FIELDS && Asked(a, name) :: Txt(a.fields[name]);
    DevicePartsMean(a, WithRows(Devices, [row]), row);
    r := ReachAny(Devices, AllOf(DeviceParts(a, |DEVICE_FIELDS|)), row, yes, a.op == Ne);
  }

  lemma ReachCompatible(a: Attr, catalog: Catalog, yes: bool) returns (r: Record)
    requires yes ==> NamesDistro(a, catalog)
    ensures Reaches(CompatibleClause(a, catalog), yes, r)
  {
    r := Record(map[], {}, map[]);
    if yes {
      var row: Row := map["name" := Txt(a.fields["arch"])];
      r := WithRows(Arches, [row]);
      assert RowsOf(r, Arches)[0] == row;
    }
    CompatibleMeans(a, catalog, r);
  }

  lemma ReachDisks(c: Class, op: Op, n: int, yes: bool) returns (r: Record)
    requires n != 0 && !NeverCounts(op, n, yes)
    ensures Reaches(if c == DiskSpace then DiskSpaceIs(op, n) else DiskCountIs(op, n), yes, r)
  {
    var k := PickNumber(op, n, yes);
    var row: Row := map["size" := Num(k)];
    r := WithRows(Disks, if c == DiskSpace then [row] else seq(k, _ => map[]));
    if c == DiskSpace {
      assert [row][..0] == [] && "size" in RowsOf(r, Disks)[0];
      assert SumOf([row], "size") == SumOf([], "size") + k;
    }
  }

  lemma ReachRows(c: Class, a: Attr, catalog: Catalog, yes: bool) returns (r: Record)
    requires c in {Pool, Arch, KeyValue, CpuFlag, Device} && LeafClause(c, a, catalog).Some?
    ensures Reaches(LeafClause(c, a, catalog).value, yes, r)
  {
    var clause := LeafClause(c, a, catalog).value;
    var any := if clause.Negation? then clause.part else clause;
    if c == KeyValue {
      r := ReachKeyValue(a, catalog, yes);
    } else if c == Device {
      r := ReachDevice(a, yes);
    } else if any.each.RowIs? {
      r := ReachRowIs(any.coll, any.each.name, any.each.op, any.each.v, yes, clause.Negation?);
    } else {
      r := ReachAny(Pools, AllOf([]), map[], yes, clause.Negation?);
    }
  }

  /** Every outcome but those is reached by some coherent system. */
  lemma ReachLeaf(c: Class, a: Attr, catalog: Catalog, yes: bool) returns (r: Record)
    requires IsLeaf(c) && LeafClause(c, a, catalog).Some? && !NeverReads(c, a, catalog, yes)
    ensures Reaches(LeafClause(c, a, catalog).value, yes, r)
  {
    var clause := LeafClause(c, a, catalog).value;
    if c in {Pool, Arch, KeyValue, CpuFlag, Device} {
      r := ReachRows(c, a, catalog, yes);
    } else if c == Hypervisor {
      r := ReachCoalesced(clause.col, clause.op, clause.s, yes);
    } else if c == CompatibleWithDistro {
      r := ReachCompatible(a, catalog, yes);
    } else if c in {DiskSpace, DiskCount} {
      r := ReachDisks(c, a.op, a.number.value, yes);
    } else if c in {Added, LastInventoried} && a.number.Some? {
      r := ReachDate(a.op, OwnColumn(if c == Added then "date_added" else "date_lastcheckin"), a.number.value, yes);
    } else if c in {AutoProv, LastInventoried} {
      r := ReachNotNull((if clause.Negation? then clause.part else clause).col, yes, clause.Negation?);
    } else {
      r := ReachColumn(clause.col, clause.op, clause.v, yes);
    }
  }

  lemma {:induction false} SumIsNat(rows: seq<Row>)
    requires forall i :: 0 <= i < |rows| ==> HasSize(rows[i])
    ensures SumOf(rows, "size") >= 0
    decreases |rows|
  {
    if rows != [] {
      SumIsNat(rows[..|rows| - 1]);
    }
  }

  lemma NeverReadsHolds(c: Class, a: Attr, catalog: Catalog, yes: bool, r: Record)
    requires IsLeaf(c) && LeafClause(c, a, catalog).Some? && NeverReads(c, a, catalog, yes) && Coherent(r)
    ensures Eval(LeafClause(c, a, catalog).value, r, map[]) != Truly(yes)
  {
    if c == CompatibleWithDistro {
      CompatibleMeans(a, catalog, r);
    } else if c == DiskSpace {
      SumIsNat(RowsOf(r, Disks));
    }
  }

  /** Some coherent system gives the element the outcome. */
  ghost predicate Possible(n: Node, catalog: Catalog, yes: bool) {
    exists r :: Coherent(r) && Reading(n, catalog, r) == Truly(yes)
  }

  /**
   Exactly which leaves have which outcome for no coherent system: the hypervisor comparisons that come out the same for
   every text, compatibility with a distro that is not named, and counts and sums compared with a negative number.
   */
  lemma LeafPossible(n: Node, catalog: Catalog, yes: bool)
    requires IsLeaf(n.cls) && LeafClause(n.cls, n.attr, catalog).Some?
    ensures Possible(n, catalog, yes) <==> !NeverReads(n.cls, n.attr, catalog, yes)
  {
    if NeverReads(n.cls, n.attr, catalog, yes) {
      forall r | Coherent(r)
        ensures Reading(n, catalog, r) != Truly(yes)
      {
        NeverReadsHolds(n.cls, n.attr, catalog, yes, r);
      }
    } else {
      var r := ReachLeaf(n.cls, n.attr, catalog, yes);
      assert Reading(n, catalog, r) == Truly(yes);
    }
  }

  /* Which relations an element guarantees */

  /** Every coherent system that gives the element the outcome has the relation. */
  ghost predicate AlwaysHas(n: Node, catalog: Catalog, rel: Rel, yes: bool) {
    forall r :: Coherent(r) && Reading(n, catalog, r) == Truly(yes) ==> rel in r.rels
  }

  /** The relation belongs to the other one, or is it. */
  predicate BelongsTo(rel: Rel, owner: Rel) {
    rel == owner || (rel == PowerTypeRel && owner == PowerRel)
  }

  /** The system without a relation, and without what it has only through that. */
  function Stripped(r: Record, rel: Rel): Record {
    Record(
      map col | col in r.cols && (col.rel.None? || !BelongsTo(col.rel.value, rel)) :: r.cols[col],
      set x | x in r.rels && !BelongsTo(x, rel),
      if rel == CpuRel then r.rows[CpuFlags := []] else r.rows)
  }

  lemma StrippedIsCoherent(r: Record, rel: Rel)
    requires Coherent(r)
    ensures Coherent(Stripped(r, rel)) && rel !in Stripped(r, rel).rels
  {
    assert RowsOf(Stripped(r, rel), Disks) == RowsOf(r, Disks);
  }

  /** The condition does not look at the relation. */
  predicate Ignores(c: Clause, rel: Rel) {
    match c
    case ColumnIs(col, _, _) => col.rel.None? || !BelongsTo(col.rel.value, rel)
    case CoalescedIs(col, _, _) => col.rel.None? || !BelongsTo(col.rel.value, rel)
    case NotNull(col) => col.rel.None? || !BelongsTo(col.rel.value, rel)
    case Any(coll, each) => (rel == CpuRel ==> coll != CpuFlags) && Ignores(each, rel)
    case AllOf(parts) => forall i :: 0 <= i < |parts| ==> Ignores(parts[i], rel)
    case AnyOf(parts) => forall i :: 0 <= i < |parts| ==> Ignores(parts[i], rel)
    case Negation(part) => Ignores(part, rel)
    case _ => true
  }

  lemma {:induction false} StrippingIsIgnored(c: Clause, rel: Rel, r: Record, row: Row)
    requires Ignores(c, rel)
    ensures Eval(c, Stripped(r, rel), row) == Eval(c, r, row)
    decreases c, 0
  {
    assert forall coll :: (rel == CpuRel ==> coll != CpuFlags) ==> RowsOf(Stripped(r, rel), coll) == RowsOf(r, coll);
    match c
    case Any(coll, each) =>
      forall i | 0 <= i < |RowsOf(r, coll)|
        ensures Eval(each, Stripped(r, rel), RowsOf(r, coll)[i]) == Eval(each, r, RowsOf(r, coll)[i])
      {
        StrippingIsIgnored(each, rel, r, RowsOf(r, coll)[i]);
      }
    case AllOf(parts) => StrippingParts(c, |parts|, rel, r, row);
    case AnyOf(parts) => StrippingParts(c, |parts|, rel, r, row);
    case Negation(part) => StrippingIsIgnored(part, rel, r, row);
    case _ =>
  }

  lemma {:induction false} StrippingParts(c: Clause, n: nat, rel: Rel, r: Record, row: Row)
    requires (c.AllOf? || c.AnyOf?) && Ignores(c, rel) && n <= |c.parts|
    ensures c.AllOf? ==> EvalAll(c, n, Stripped(r, rel), row) == EvalAll(c, n, r, row)
    ensures c.AnyOf? ==> EvalAny(c, n, Stripped(r, rel), row) == EvalAny(c, n, r, row)
    decreases c, 0, n
  {
    if n > 0 {
      StrippingParts(c, n - 1, rel, r, row);
      StrippingIsIgnored(c.parts[n - 1], rel, r, row);
    }
  }

  lemma {:induction false} RowOnlyIgnoresRelations(c: Clause, rel: Rel)
    requires RowOnly(c)
    ensures Ignores(c, rel)
  {
    match c
    case AllOf(parts) =>
      forall i | 0 <= i < |parts| ensures Ignores(parts[i], rel) { RowOnlyIgnoresRelations(parts[i], rel); }
    case AnyOf(parts) =>
      forall i | 0 <= i < |parts| ensures Ignores(parts[i], rel) { RowOnlyIgnoresRelations(parts[i], rel); }
    case Negation(part) => RowOnlyIgnoresRelations(part, rel);
    case _ =>
  }

  lemma CompatibleIgnores(a: Attr, catalog: Catalog, rel: Rel)
    ensures Ignores(CompatibleClause(a, catalog), rel)
  {
    var clause := CompatibleClause(a, catalog);
    if clause != FALSE_CLAUSE {
      forall i | 0 <= i < 3
        ensures Ignores(clause.parts[i], rel)
      {
        var any := if i == 0 then clause.parts[i] else clause.parts[i].part;
        RowOnlyIgnoresRelations(any.each, rel);
      }
    }
  }

  lemma AnyLeafIgnores(c: Class, a: Attr, catalog: Catalog, rel: Rel, any: Clause, negated: bool)
    requires c in {Pool, Arch, KeyValue, CpuFlag, Device} && any.Any?
    requires LeafClause(c, a, catalog) == Some(Unless(negated, any)) && Inner(rel) !in LeafJoins(c, a, catalog)
    ensures Ignores(any, rel)
  {
    if c == Device {
      DevicePartsRowOnly(a, |DEVICE_FIELDS|);
    }
    assert RowOnly(any.each);
    RowOnlyIgnoresRelations(any.each, rel);
  }

  lemma ColumnLeafIgnores(c: Class, a: Attr, catalog: Catalog, rel: Rel)
    requires IsLeaf(c) && LeafClause(c, a, catalog).Some?
    requires c !in {Pool, Arch, KeyValue, CpuFlag, Device, CompatibleWithDistro, Added, LastInventoried}
    requires Inner(rel) !in LeafJoins(c, a, catalog) && rel != HypervisorRel
    ensures Ignores(LeafClause(c, a, catalog).value, rel)
  {
  }

  /** A leaf looks at no relation but those that it joins. */
  lemma LeafIgnores(c: Class, a: Attr, catalog: Catalog, rel: Rel)
    requires IsLeaf(c) && LeafClause(c, a, catalog).Some?
    requires Inner(rel) !in LeafJoins(c, a, catalog) && rel != HypervisorRel
    ensures Ignores(LeafClause(c, a, catalog).value, rel)
  {
    var clause := LeafClause(c, a, catalog).value;
    if c in {Pool, Arch, KeyValue, CpuFlag, Device} {
      AnyLeafIgnores(c, a, catalog, rel, if clause.Negation? then clause.part else clause, clause.Negation?);
    } else if c == CompatibleWithDistro {
      CompatibleIgnores(a, catalog, rel);
    } else if c in {Added, LastInventoried} {
      if a.number.Some? {
        DateIgnores(a.op, if c == Added then OwnColumn("date_added") else OwnColumn("date_lastcheckin"),
          a.number.value, rel);
      }
    } else {
      ColumnLeafIgnores(c, a, catalog, rel);
    }
  }

  lemma DateIgnores(op: Op, col: Column, day: int, rel: Rel)
    requires col.rel.None?
    ensures Ignores(DateClause(op, col, day), rel)
  {
  }

  /** Without the relations, an unevident leaf keeps its outcome: it does not look at them, or finds no flag. */
  lemma UnevidentStripped(c: Class, a: Attr, catalog: Catalog, rel: Rel, yes: bool, r: Record)
    requires c in {CpuFlag, AutoProv} && LeafClause(c, a, catalog).Some? && !EvidentLeaf(c, a, yes)
    requires Inner(rel) in LeafJoins(c, a, catalog) && Eval(LeafClause(c, a, catalog).value, r, map[]) == Truly(yes)
    ensures Eval(LeafClause(c, a, catalog).value, Stripped(r, rel), map[]) == Truly(yes)
  {
    if c == CpuFlag {
      assert RowsOf(Stripped(r, rel), CpuFlags) == [];
    }
  }

  /**
   A leaf guarantees a relation exactly when it joins it and is evident, or never has the outcome at all. (The
   hypervisor is joined by an outer join, which asks for nothing.)
   */
  lemma LeafAlwaysHas(n: Node, catalog: Catalog, rel: Rel, yes: bool)
    requires IsLeaf(n.cls) && LeafClause(n.cls, n.attr, catalog).Some? && rel != HypervisorRel
    ensures
      AlwaysHas(n, catalog, rel, yes) <==>
      || (Inner(rel) in LeafJoins(n.cls, n.attr, catalog) && EvidentLeaf(n.cls, n.attr, yes))
      || NeverReads(n.cls, n.attr, catalog, yes)
  {
    var (c, a) := (n.cls, n.attr);
    LeafPossible(n, catalog, yes);
    if Inner(rel) in LeafJoins(c, a, catalog) && EvidentLeaf(c, a, yes) {
      EvidentLeaves(c, a, catalog, yes);
    } else if Possible(n, catalog, yes) {
      var r :| Coherent(r) && Reading(n, catalog, r) == Truly(yes);
      StrippedIsCoherent(r, rel);
      if Inner(rel) in LeafJoins(c, a, catalog) {
        UnevidentStripped(c, a, catalog, rel, yes, r);
      } else {
        LeafIgnores(c, a, catalog, rel);
        StrippingIsIgnored(LeafClause(c, a, catalog).value, rel, r, map[]);
      }
      assert Reading(n, catalog, Stripped(r, rel)) == Truly(yes);
    }
  }

  lemma DiskReads(n: Node, catalog: Catalog, r: Record)
    requires n.cls == Disk
    ensures Reading(n, catalog, r) == Truly(exists row :: row in RowsOf(r, Disks) && DiskReading(n, row) == Yes)
  {
  }

  /**
   A disk element guarantees no relation when it is false, and when it is true only if no disk satisfies it, so that it
   never is.
   */
  lemma DiskAlwaysHas(n: Node, catalog: Catalog, rel: Rel, yes: bool)
    requires n.cls == Disk
    ensures AlwaysHas(n, catalog, rel, yes) <==> yes && forall row :: HasSize(row) ==> DiskReading(n, row) != Yes
  {
    if !yes {
      DiskReads(n, catalog, WithRows(Disks, []));
    } else if row :| HasSize(row) && DiskReading(n, row) == Yes {
      var r := WithRows(Disks, [row]);
      assert RowsOf(r, Disks)[0] == row;
      DiskReads(n, catalog, r);
    } else {
      forall r | Coherent(r)
        ensures Reading(n, catalog, r) == No
      {
        DiskReads(n, catalog, r);
      }
    }
  }

  /* Trees */

  /** The outcome of one child is enough for that of the element: an or that is true, a conjunction that is false. */
  predicate OneDecides(c: Class, yes: bool) {
    if c == Or || c == Not then yes else !yes
  }

  /** The outcome that a child of the element has to contribute. */
  predicate KidOutcome(c: Class, yes: bool) {
    if c == Not then !yes else yes
  }

  /**
   Whenever the element has the outcome, the relation exists: where one child decides, all of them must guarantee it;
   where all must agree, one is enough.
   */
  ghost predicate Guarantees(n: Node, catalog: Catalog, rel: Rel, yes: bool) {
    if IsLeaf(n.cls) || n.cls == Disk then AlwaysHas(n, catalog, rel, yes)
    else if OneDecides(n.cls, yes) then
      forall i :: 0 <= i < |n.kids| && Contributes(n.kids[i], catalog) ==>
        Guarantees(n.kids[i], catalog, rel, KidOutcome(n.cls, yes))
    else
      exists i :: 0 <= i < |n.kids| && Contributes(n.kids[i], catalog) &&
        Guarantees(n.kids[i], catalog, rel, KidOutcome(n.cls, yes))
  }

  lemma DecidingKid(n: Node, catalog: Catalog, r: Record, yes: bool) returns (i: nat)
    requires !IsLeaf(n.cls) && n.cls != Disk && OneDecides(n.cls, yes) && Reading(n, catalog, r) == Truly(yes)
    ensures i < |n.kids| && Contributes(n.kids[i], catalog)
    ensures Reading(n.kids[i], catalog, r) == Truly(KidOutcome(n.cls, yes))
  {
    i :| 0 <= i < |n.kids| && Contributes(n.kids[i], catalog) &&
      Reading(n.kids[i], catalog, r) == Truly(KidOutcome(n.cls, yes));
  }

  lemma AgreeingKid(n: Node, catalog: Catalog, r: Record, yes: bool, i: nat)
    requires !IsLeaf(n.cls) && n.cls != Disk && !OneDecides(n.cls, yes) && Reading(n, catalog, r) == Truly(yes)
    requires i < |n.kids| && Contributes(n.kids[i], catalog)
    ensures Reading(n.kids[i], catalog, r) == Truly(KidOutcome(n.cls, yes))
  {
    var t := Reading(n.kids[i], catalog, r);
    assert t == Yes || t == No || t == Unknown;
  }

  lemma {:induction false} GuaranteedExists(n: Node, catalog: Catalog, rel: Rel, yes: bool, r: Record)
    requires Guarantees(n, catalog, rel, yes) && Coherent(r) && Reading(n, catalog, r) == Truly(yes)
    ensures rel in r.rels
    decreases n
  {
    if !IsLeaf(n.cls) && n.cls != Disk {
      var i: nat;
      if OneDecides(n.cls, yes) {
        i := DecidingKid(n, catalog, r, yes);
      } else {
        i :| 0 <= i < |n.kids| && Contributes(n.kids[i], catalog) &&
          Guarantees(n.kids[i], catalog, rel, KidOutcome(n.cls, yes));
        AgreeingKid(n, catalog, r, yes, i);
      }
      GuaranteedExists(n.kids[i], catalog, rel, KidOutcome(n.cls, yes), r);
    }
  }

  /** Every relation that some leaf joins is guaranteed. */
  ghost predicate AllGuaranteed(n: Node, catalog: Catalog) {
    forall rel :: NeedsRel(n, catalog, rel) ==> Guarantees(n, catalog, rel, true)
  }

  /** If every relation needed is guaranteed, the inner joins lose nothing: selected is what reads as true. */
  lemma GuaranteedIsItsReading(n: Node, catalog: Catalog, r: Record)
    requires AllGuaranteed(n, catalog) && Coherent(r) && Contributes(n, catalog)
    ensures Selected(n, catalog, r) <==> Reading(n, catalog, r) == Yes
  {
    CompilationPreservesMeaning(n, catalog, r);
    if Reading(n, catalog, r) == Yes {
      forall rel | NeedsRel(n, catalog, rel)
        ensures rel in r.rels
      {
        GuaranteedExists(n, catalog, rel, true, r);
      }
    }
  }

  /* Exactly, for alternatives */

  /** All the way down, one child decides, or there is only one. */
  predicate Alternatives(n: Node, yes: bool) {
    IsLeaf(n.cls) || n.cls == Disk ||
    ((OneDecides(n.cls, yes) || |n.kids| == 1) &&
      forall i :: 0 <= i < |n.kids| ==> Alternatives(n.kids[i], KidOutcome(n.cls, yes)))
  }

  lemma DecidedByKid(n: Node, catalog: Catalog, r: Record, yes: bool, i: nat)
    requires !IsLeaf(n.cls) && n.cls != Disk && OneDecides(n.cls, yes)
    requires i < |n.kids| && Contributes(n.kids[i], catalog)
    requires Reading(n.kids[i], catalog, r) == Truly(KidOutcome(n.cls, yes))
    ensures Reading(n, catalog, r) == Truly(yes)
  {
  }

  ghost predicate KidReads(n: Node, catalog: Catalog, r: Record, t: Truth) {
    exists i :: 0 <= i < |n.kids| && Contributes(n.kids[i], catalog) && Reading(n.kids[i], catalog, r) == t
  }

  lemma ReadsAsConnected(n: Node, catalog: Catalog, r: Record)
    requires !IsLeaf(n.cls) && n.cls != Disk
    ensures
      Reading(n, catalog, r) ==
      Connected(n.cls, KidReads(n, catalog, r, Yes), KidReads(n, catalog, r, No), KidReads(n, catalog, r, Unknown))
  {
  }

  lemma OnlyOne<T(!new)>(s: seq<T>, p: T -> bool)
    requires |s| == 1
    ensures (exists i :: 0 <= i < |s| && p(s[i])) <==> p(s[0])
  {
  }

  lemma OnlyKidReads(n: Node, catalog: Catalog, r: Record, t: Truth)
    requires |n.kids| == 1 && Contributes(n.kids[0], catalog)
    ensures KidReads(n, catalog, r, t) <==> Reading(n.kids[0], catalog, r) == t
  {
    OnlyOne(n.kids, (k: Node) => Contributes(k, catalog) && Reading(k, catalog, r) == t);
  }

  lemma DecidedByOnlyKid(n: Node, catalog: Catalog, r: Record, yes: bool)
    requires !IsLeaf(n.cls) && n.cls != Disk && |n.kids| == 1 && Contributes(n.kids[0], catalog)
    requires Reading(n.kids[0], catalog, r) == Truly(KidOutcome(n.cls, yes))
    ensures Reading(n, catalog, r) == Truly(yes)
  {
    ReadsAsConnected(n, catalog, r);
    OnlyKidReads(n, catalog, r, Yes);
    OnlyKidReads(n, catalog, r, No);
    OnlyKidReads(n, catalog, r, Unknown);
  }

  lemma LackingLeaf(n: Node, catalog: Catalog, rel: Rel, yes: bool) returns (r: Record)
    requires !AlwaysHas(n, catalog, rel, yes)
    ensures Coherent(r) && Reading(n, catalog, r) == Truly(yes) && rel !in r.rels
  {
    r :| Coherent(r) && Reading(n, catalog, r) == Truly(yes) && rel !in r.rels;
  }

  lemma LackingKid(n: Node, catalog: Catalog, rel: Rel, yes: bool) returns (i: nat)
    requires !IsLeaf(n.cls) && n.cls != Disk && (OneDecides(n.cls, yes) || |n.kids| == 1)
    requires Contributes(n, catalog) && !Guarantees(n, catalog, rel, yes)
    ensures i < |n.kids| && Contributes(n.kids[i], catalog)
    ensures !Guarantees(n.kids[i], catalog, rel, KidOutcome(n.cls, yes))
  {
    if OneDecides(n.cls, yes) {
      i :| 0 <= i < |n.kids| && Contributes(n.kids[i], catalog) &&
        !Guarantees(n.kids[i], catalog, rel, KidOutcome(n.cls, yes));
    } else {
      i := 0;
    }
  }

  lemma AlternativeDecides(n: Node, catalog: Catalog, r: Record, yes: bool, i: nat)
    requires !IsLeaf(n.cls) && n.cls != Disk && (OneDecides(n.cls, yes) || |n.kids| == 1)
    requires i < |n.kids| && Contributes(n.kids[i], catalog)
    requires Reading(n.kids[i], catalog, r) == Truly(KidOutcome(n.cls, yes))
    ensures Reading(n, catalog, r) == Truly(yes)
  {
    if OneDecides(n.cls, yes) {
      DecidedByKid(n, catalog, r, yes, i);
    } else {
      DecidedByOnlyKid(n, catalog, r, yes);
    }
  }

  /** What alternatives do not guarantee, some system that satisfies them lacks. */
  lemma {:induction false} LackingSystem(n: Node, catalog: Catalog, rel: Rel, yes: bool) returns (r: Record)
    requires Alternatives(n, yes) && Contributes(n, catalog) && !Guarantees(n, catalog, rel, yes)
    ensures Coherent(r) && Reading(n, catalog, r) == Truly(yes) && rel !in r.rels
    decreases n
  {
    if IsLeaf(n.cls) || n.cls == Disk {
      r := LackingLeaf(n, catalog, rel, yes);
    } else {
      var i := LackingKid(n, catalog, rel, yes);
      r := LackingSystem(n.kids[i], catalog, rel, KidOutcome(n.cls, yes));
      AlternativeDecides(n, catalog, r, yes, i);
    }
  }

  /**
   For filters made of alternatives, the condition is exact: the query selects what reads as true, of all coherent
   systems, if and only if every relation that some alternative joins is guaranteed by each of them.
   */
  lemma AlternativesLoseNothingIff(n: Node, catalog: Catalog)
    requires Alternatives(n, true) && Contributes(n, catalog)
    ensures
      (forall r :: Coherent(r) ==> (Selected(n, catalog, r) <==> Reading(n, catalog, r) == Yes))
      <==> AllGuaranteed(n, catalog)
  {
    if AllGuaranteed(n, catalog) {
      forall r | Coherent(r)
        ensures Selected(n, catalog, r) <==> Reading(n, catalog, r) == Yes
      {
        GuaranteedIsItsReading(n, catalog, r);
      }
    } else {
      var rel :| NeedsRel(n, catalog, rel) && !Guarantees(n, catalog, rel, true);
      var r := LackingSystem(n, catalog, rel, true);
      CompilationPreservesMeaning(n, catalog, r);
      assert !Selected(n, catalog, r);
    }
  }

  /* Conjunctions */

  predicate EvidentConjunction(n: Node) {
    if IsLeaf(n.cls) then EvidentLeaf(n.cls, n.attr, true)
    else IsConjunction(n.cls) && forall i :: 0 <= i < |n.kids| ==> EvidentConjunction(n.kids[i])
  }

  lemma {:induction false} NeedsRelContributes(n: Node, catalog: Catalog, rel: Rel)
    requires NeedsRel(n, catalog, rel)
    ensures Contributes(n, catalog)
    decreases n
  {
    if !IsLeaf(n.cls) {
      var i :| 0 <= i < |n.kids| && NeedsRel(n.kids[i], catalog, rel);
      NeedsRelContributes(n.kids[i], catalog, rel);
    }
  }

  lemma {:induction false} ConjunctionGuarantees(n: Node, catalog: Catalog, rel: Rel)
    requires EvidentConjunction(n) && NeedsRel(n, catalog, rel)
    ensures Guarantees(n, catalog, rel, true)
    decreases n
  {
    if IsLeaf(n.cls) {
      EvidentLeaves(n.cls, n.attr, catalog, true);
    } else {
      var i :| 0 <= i < |n.kids| && NeedsRel(n.kids[i], catalog, rel);
      NeedsRelContributes(n.kids[i], catalog, rel);
      ConjunctionGuarantees(n.kids[i], catalog, rel);
    }
  }

  /** In particular, plain conjunctions of evident leaves guarantee whatever they need. */
  lemma ConjunctionIsItsReading(n: Node, catalog: Catalog, r: Record)
    requires EvidentConjunction(n) && Coherent(r) && Contributes(n, catalog)
    ensures Selected(n, catalog, r) <==> Reading(n, catalog, r) == Yes
  {
    forall rel | NeedsRel(n, catalog, rel)
      ensures Guarantees(n, catalog, rel, true)
    {
      ConjunctionGuarantees(n, catalog, rel);
    }
    GuaranteedIsItsReading(n, catalog, r);
  }

  /** An instance that loses something: a system without a cpu record is dropped, the other alternative being true. */
  lemma AlternativesNeedEveryRelation(catalog: Catalog, cpu: Attr, memory: Attr, r: Record)
    requires HasNumber(cpu) && HasNumber(memory) && CpuRel !in r.rels
    requires OwnColumn("memory") in r.cols && Compare(memory.op, r.cols[OwnColumn("memory")], Num(memory.number.value))
    ensures
      var n := Node(Or, cpu, [Node(Processors, cpu, []), Node(Memory, memory, [])]);
      Reading(n, catalog, r) == Yes && !Selected(n, catalog, r)
  {
    var n := Node(Or, cpu, [Node(Processors, cpu, []), Node(Memory, memory, [])]);
    assert Contributes(n.kids[1], catalog) && Reading(n.kids[1], catalog, r) == Yes;
    assert NeedsRel(n.kids[0], catalog, CpuRel) && NeedsRel(n, catalog, CpuRel);
    CompilationPreservesMeaning(n, catalog, r);
  }
}
