/**
 What a host filter of one element selects, tag by tag, in terms of the data of the system: which column or collection
 it asks about, with which comparison, and which relations the system must have.
 */
module HostFilterElements {
  import opened Prelude
  import opened HostFilter
  import opened HostFilterSql
  import opened HostFilterMeaning
  import opened HostFilterLeaves
  import opened HostFilterJoins

  /* Comparisons */

  predicate NumberOk(op: Op, m: int, n: int) {
    && (op == Eq ==> m == n) && (op == Ne ==> m != n)
    && (op == Lt ==> m < n) && (op == Le ==> m <= n)
    && (op == Gt ==> m > n) && (op == Ge ==> m >= n)
  }

  /** In dictionary order: at the first difference, `s` has ended or has the smaller character. */
  ghost predicate ComesBefore(s: string, t: string) {
    exists k :: 0 <= k <= |s| && k < |t| && s[..k] == t[..k] && (k == |s| || s[k] < t[k])
  }

  ghost predicate TextOk(op: Op, s: string, t: string) {
    && (op == Eq ==> s == t) && (op == Ne ==> s != t)
    && (op == Lt ==> ComesBefore(s, t)) && (op == Le ==> !ComesBefore(t, s))
    && (op == Gt ==> ComesBefore(t, s)) && (op == Ge ==> !ComesBefore(s, t))
  }

  lemma {:induction false} TextLessIff(s: string, t: string)
    ensures TextLess(s, t) <==> ComesBefore(s, t)
  {
    if s == "" || t == "" {
      assert t != "" ==> s[..0] == t[..0];
    } else {
      TextLessIff(s[1..], t[1..]);
      if s[0] == t[0] && ComesBefore(s[1..], t[1..]) {
        var k :| 0 <= k <= |s[1..]| && k < |t[1..]| && s[1..][..k] == t[1..][..k] &&
          (k == |s[1..]| || s[1..][k] < t[1..][k]);
        assert s[..k + 1] == [s[0]] + s[1..][..k] && t[..k + 1] == [t[0]] + t[1..][..k];
        assert k + 1 == |s| || s[k + 1] < t[k + 1];
      }
      if ComesBefore(s, t) {
        FirstDifference(s, t);
      }
    }
  }

  lemma FirstDifference(s: string, t: string)
    requires s != "" && t != "" && ComesBefore(s, t)
    ensures s[0] < t[0] || (s[0] == t[0] && ComesBefore(s[1..], t[1..]))
  {
    var k :| 0 <= k <= |s| && k < |t| && s[..k] == t[..k] && (k == |s| || s[k] < t[k]);
    if k > 0 {
      assert s[..k][0] == t[..k][0];
      assert s[1..][..k - 1] == s[..k][1..] && t[1..][..k - 1] == t[..k][1..];
    }
  }

  /** Of two texts, one comes before the other, or they are equal. */
  lemma {:induction false} OrderIsTotal(s: string, t: string)
    ensures (TextLess(s, t) ==> !TextLess(t, s) && s != t) && (TextLess(s, t) || TextLess(t, s) || s == t)
  {
    if s != "" && t != "" {
      OrderIsTotal(s[1..], t[1..]);
      assert s == [s[0]] + s[1..] && t == [t[0]] + t[1..];
    }
  }

  lemma CompareNumbers(op: Op, m: int, n: int)
    ensures Compare(op, Num(m), Num(n)) <==> NumberOk(op, m, n)
  {
  }

  lemma CompareTexts(op: Op, s: string, t: string)
    ensures Compare(op, Txt(s), Txt(t)) <==> TextOk(op, s, t)
  {
    TextLessIff(s, t);
    TextLessIff(t, s);
    OrderIsTotal(s, t);
  }

  /* Filters of one element */

  /** The element inside the one that the table of tags belongs to. */
  function Inside(scope: Scope, a: Attr, e: Element): Element {
    match scope
    case HostScope => e
    case SystemScope => Element("system", a, [e])
    case CpuScope => Element("cpu", a, [e])
    case DiskScope => Element("disk", a, [e])
  }

  /** The host filter that has nothing else in it. */
  function Alone(scope: Scope, a: Attr, e: Element): Node {
    HostNode(Element("hostRequires", a, [Inside(scope, a, e)]))
  }

  /** The element as it is wrapped there. */
  function Wrapped(scope: Scope, e: Element): Node {
    Wrap(e, Lookup(e.tag, scope), scope)
  }

  lemma OnlyChild(c: Class, a: Attr, kid: Node, catalog: Catalog, r: Record)
    requires IsConjunction(c) && c != Disk
    ensures Selected(Node(c, a, [kid]), catalog, r) <==> Selected(kid, catalog, r)
  {
    var n := Node(c, a, [kid]);
    assert n.kids[0] == kid;
    CompilationPreservesMeaning(n, catalog, r);
    CompilationPreservesMeaning(kid, catalog, r);
    assert forall rel :: NeedsRel(n, catalog, rel) <==> NeedsRel(n.kids[0], catalog, rel);
    assert Contributes(n, catalog) <==> Contributes(n.kids[0], catalog);
    if Contributes(kid, catalog) {
      ReadsAsConnected(n, catalog, r);
      OnlyKidReads(n, catalog, r, Yes);
      OnlyKidReads(n, catalog, r, No);
      OnlyKidReads(n, catalog, r, Unknown);
    }
  }

  lemma AloneIs(scope: Scope, a: Attr, e: Element)
    ensures
      Alone(scope, a, e) ==
      Node(Host, a, [if scope == HostScope then Wrapped(scope, e)
        else Node(if scope == SystemScope then System else if scope == CpuScope then Cpu else Disk, a,
          [Wrapped(scope, e)])])
  {
    var inside := Inside(scope, a, e);
    assert Alone(scope, a, e).kids == [Wrapped(HostScope, inside)];
    if scope != HostScope {
      assert Wrapped(HostScope, inside).kids == [Wrapped(scope, e)];
    }
  }

  /** Outside disks, a filter of one element selects what the element does. */
  lemma AloneSelects(scope: Scope, a: Attr, e: Element, catalog: Catalog, r: Record)
    requires scope != DiskScope
    ensures Selected(Alone(scope, a, e), catalog, r) <==> Selected(Wrapped(scope, e), catalog, r)
  {
    AloneIs(scope, a, e);
    var kid := Alone(scope, a, e).kids[0];
    OnlyChild(Host, a, kid, catalog, r);
    if scope != HostScope {
      OnlyChild(kid.cls, a, Wrapped(scope, e), catalog, r);
    }
  }

  /* Columns */

  /** The column that a number element asks about. */
  function NumberColumn(scope: Scope, tag: string): Option<Column> {
    match scope
    case HostScope =>
      if tag == "memory" then Some(Column(None, "memory"))
      else if tag == "cpu_count" then Some(Column(Some(CpuRel), "processors"))
      else if tag == "numa_node_count" then Some(Column(Some(NumaRel), "nodes"))
      else None
    case SystemScope =>
      if tag == "memory" then Some(Column(None, "memory"))
      else if tag == "numanodes" then Some(Column(Some(NumaRel), "nodes"))
      else None
    case CpuScope =>
      if tag in {"processors", "cores", "family", "model", "sockets", "speed", "stepping"}
      then Some(Column(Some(CpuRel), tag))
      else None
    case DiskScope => None
  }

  /** The column that a text element asks about. */
  function TextColumn(scope: Scope, tag: string): Option<Column> {
    match scope
    case HostScope =>
      if tag == "hostname" then Some(Column(None, "fqdn"))
      else if tag == "labcontroller" || tag == "hostlabcontroller" then Some(Column(Some(LabControllerRel), "fqdn"))
      else None
    case SystemScope =>
      if tag == "name" then Some(Column(None, "fqdn"))
      else if tag in {"lender", "vendor", "model", "location", "serial"} then Some(Column(None, tag))
      else if tag == "owner" then Some(Column(Some(OwnerRel), "user_name"))
      else if tag == "user" then Some(Column(Some(UserRel), "user_name"))
      else if tag == "loaned" then Some(Column(Some(LoanedRel), "user_name"))
      else if tag == "powertype" then Some(Column(Some(PowerTypeRel), "name"))
      else None
    case CpuScope => if tag in {"model_name", "vendor"} then Some(Column(Some(CpuRel), tag)) else None
    case DiskScope => None
  }

  /** The column of an element that compares for equality whatever operator it has. */
  function ChoiceColumn(scope: Scope, tag: string): Option<Column> {
    match scope
    case HostScope => if tag == "system_type" then Some(Column(None, "type")) else None
    case SystemScope => if tag in {"type", "status"} then Some(Column(None, tag)) else None
    case _ => None
  }

  /** The classes of these elements. */
  function ColumnClasses(scope: Scope, tag: string): Class {
    match scope
    case HostScope =>
      if tag == "memory" then Memory
      else if tag == "cpu_count" then Processors
      else if tag == "numa_node_count" then NumaNodes
      else if tag == "hostname" then SystemText("fqdn")
      else if tag == "system_type" then SystemType
      else LabController
    case SystemScope =>
      if tag == "memory" then Memory
      else if tag == "numanodes" then NumaNodes
      else if tag == "name" then SystemText("fqdn")
      else if tag == "owner" then UserName(OwnerRel)
      else if tag == "user" then UserName(UserRel)
      else if tag == "loaned" then UserName(LoanedRel)
      else if tag == "powertype" then PowerType
      else if tag == "type" then SystemType
      else if tag == "status" then SystemStatus
      else SystemText(tag)
    case _ =>
      if tag == "processors" then Processors
      else if tag == "cores" then Cores
      else if tag in {"model_name", "vendor"} then CpuText(tag)
      else CpuNumber(tag)
  }

  lemma HostNumberTags(tag: string)
    requires NumberColumn(HostScope, tag).Some?
    ensures Lookup(tag, HostScope) == ColumnClasses(HostScope, tag)
  {
  }

  lemma HostTags(tag: string)
    requires NumberColumn(HostScope, tag).Some? || TextColumn(HostScope, tag).Some? || tag == "system_type"
    ensures Lookup(tag, HostScope) == ColumnClasses(HostScope, tag)
  {
    if NumberColumn(HostScope, tag).Some? {
      HostNumberTags(tag);
    } else if tag in {"hostname", "system_type"} {
    } else {
      assert tag == "labcontroller" || tag == "hostlabcontroller";
    }
  }

  lemma SystemTags(tag: string)
    requires NumberColumn(SystemScope, tag).Some? || TextColumn(SystemScope, tag).Some? || tag in {"type", "status"}
    ensures Lookup(tag, SystemScope) == ColumnClasses(SystemScope, tag)
  {
    if tag in {"lender", "vendor", "model", "location", "serial"} {
    } else if tag in {"memory", "numanodes"} {
    }
  }

  lemma CpuTags(tag: string)
    requires NumberColumn(CpuScope, tag).Some? || TextColumn(CpuScope, tag).Some?
    ensures Lookup(tag, CpuScope) == ColumnClasses(CpuScope, tag)
  {
  }

  lemma ColumnTags(scope: Scope, tag: string, a: Attr)
    requires
      NumberColumn(scope, tag).Some? || TextColumn(scope, tag).Some? || ChoiceColumn(scope, tag).Some?
    ensures
      IsLeaf(ColumnClasses(scope, tag)) && Wrapped(scope, Element(tag, a, [])) == Node(ColumnClasses(scope, tag), a, [])
  {
    match scope
    case HostScope => HostTags(tag);
    case SystemScope => SystemTags(tag);
    case CpuScope => CpuTags(tag);
    case DiskScope =>
  }

  /** The relation of the column exists; a power type is reached through the power supply. */
  predicate Reaches(r: Record, col: Column) {
    col.rel.Some? ==> col.rel.value in r.rels && (col.rel.value == PowerTypeRel ==> PowerRel in r.rels)
  }

  /**
   A number element with a value selects the systems that have the relation and a known number in the column that
   compares with the value as the operator says; without a value, or with zero, it selects all.
   */
  lemma NumberElementSelects(scope: Scope, a0: Attr, tag: string, a: Attr, catalog: Catalog, r: Record)
    requires NumberColumn(scope, tag).Some?
    requires NumberColumn(scope, tag).value in r.cols ==> r.cols[NumberColumn(scope, tag).value].Num?
    ensures
      var col := NumberColumn(scope, tag).value;
      Selected(Alone(scope, a0, Element(tag, a, [])), catalog, r) <==>
      (a.number.Some? && a.number.value != 0 ==>
        Reaches(r, col) && col in r.cols && NumberOk(a.op, r.cols[col].n, a.number.value))
  {
    var e := Element(tag, a, []);
    var col := NumberColumn(scope, tag).value;
    AloneSelects(scope, a0, e, catalog, r);
    ColumnTags(scope, tag, a);
    NumberLeaf(scope, tag, a, catalog);
    if HasNumber(a) && col in r.cols {
      CompareNumbers(a.op, r.cols[col].n, a.number.value);
    }
    ColumnSelects(Wrapped(scope, e), catalog, r, col, a.op, NumberValue(a));
  }

  /** The leaf compares the column with a value, if it has one. */
  predicate IsColumnLeaf(c: Class, a: Attr, col: Column, op: Op, v: Option<Val>, catalog: Catalog) {
    && LeafClause(c, a, catalog) == (if v.Some? then Some(ColumnIs(col, op, v.value)) else None)
    && LeafJoins(c, a, catalog) ==
      if v.None? || col.rel.None? then []
      else if col.rel.value == PowerTypeRel then [Inner(PowerRel), Inner(PowerTypeRel)]
      else [Inner(col.rel.value)]
  }

  function NumberValue(a: Attr): Option<Val> {
    if HasNumber(a) then Some(Num(a.number.value)) else None
  }

  function TextValue(a: Attr): Option<Val> {
    if HasText(a) then Some(Txt(a.text.value)) else None
  }

  lemma NumberLeaf(scope: Scope, tag: string, a: Attr, catalog: Catalog)
    requires NumberColumn(scope, tag).Some?
    ensures
      IsColumnLeaf(
        ColumnClasses(scope, tag), a, NumberColumn(scope, tag).value, a.op, NumberValue(a), catalog)
  {
    match scope
    case HostScope =>
    case SystemScope =>
    case CpuScope =>
  }

  /** What such a leaf selects. */
  lemma ColumnSelects(n: Node, catalog: Catalog, r: Record, col: Column, op: Op, v: Option<Val>)
    requires IsLeaf(n.cls) && IsColumnLeaf(n.cls, n.attr, col, op, v, catalog)
    ensures
      Selected(n, catalog, r) <==> (v.Some? ==> Reaches(r, col) && col in r.cols && Compare(op, r.cols[col], v.value))
  {
    var joins := LeafJoins(n.cls, n.attr, catalog);
    assert v.Some? && col.rel.Some? ==> Inner(col.rel.value) in joins;
    assert v.Some? && col.rel == Some(PowerTypeRel) ==> joins[0] == Inner(PowerRel);
  }

  /** Likewise a text element, for which the empty text is no value. */
  lemma TextElementSelects(scope: Scope, a0: Attr, tag: string, a: Attr, catalog: Catalog, r: Record)
    requires TextColumn(scope, tag).Some?
    requires TextColumn(scope, tag).value in r.cols ==> r.cols[TextColumn(scope, tag).value].Txt?
    ensures
      var col := TextColumn(scope, tag).value;
      Selected(Alone(scope, a0, Element(tag, a, [])), catalog, r) <==>
      (a.text.Some? && a.text.value != "" ==>
        Reaches(r, col) && col in r.cols && TextOk(a.op, r.cols[col].s, a.text.value))
  {
    var e := Element(tag, a, []);
    var col := TextColumn(scope, tag).value;
    AloneSelects(scope, a0, e, catalog, r);
    ColumnTags(scope, tag, a);
    TextLeaf(scope, tag, a, catalog);
    if HasText(a) && col in r.cols {
      CompareTexts(a.op, r.cols[col].s, a.text.value);
    }
    ColumnSelects(Wrapped(scope, e), catalog, r, col, a.op, TextValue(a));
  }

  lemma SystemTextLeaf(tag: string, a: Attr, catalog: Catalog)
    requires TextColumn(SystemScope, tag).Some?
    ensures
      IsColumnLeaf(
        ColumnClasses(SystemScope, tag), a, TextColumn(SystemScope, tag).value, a.op, TextValue(a), catalog)
  {
    if tag in {"lender", "vendor", "model", "location", "serial"} {
      assert ColumnClasses(SystemScope, tag) == SystemText(tag);
    }
  }

  lemma TextLeaf(scope: Scope, tag: string, a: Attr, catalog: Catalog)
    requires TextColumn(scope, tag).Some?
    ensures
      IsColumnLeaf(ColumnClasses(scope, tag), a, TextColumn(scope, tag).value, a.op, TextValue(a), catalog)
  {
    match scope
    case HostScope =>
    case SystemScope => SystemTextLeaf(tag, a, catalog);
    case CpuScope =>
  }

  /** The type and the status are only ever compared for equality. */
  lemma ChoiceElementSelects(scope: Scope, a0: Attr, tag: string, a: Attr, catalog: Catalog, r: Record)
    requires ChoiceColumn(scope, tag).Some?
    ensures
      var col := ChoiceColumn(scope, tag).value;
      Selected(Alone(scope, a0, Element(tag, a, [])), catalog, r) <==>
      (a.text.Some? && a.text.value != "" ==> col in r.cols && r.cols[col] == Txt(a.text.value))
  {
    var col := ChoiceColumn(scope, tag).value;
    AloneSelects(scope, a0, Element(tag, a, []), catalog, r);
    ColumnTags(scope, tag, a);
    assert IsColumnLeaf(ColumnClasses(scope, tag), a, col, Eq, TextValue(a), catalog);
    ColumnSelects(Wrapped(scope, Element(tag, a, [])), catalog, r, col, Eq, TextValue(a));
  }

  /** Hyperthreading can only be asked for. */
  lemma HyperElementSelects(a0: Attr, a: Attr, catalog: Catalog, r: Record)
    ensures
      var col := Column(Some(CpuRel), "hyper");
      Selected(Alone(CpuScope, a0, Element("hyper", a, [])), catalog, r) <==>
      (a.number.Some? && a.number.value != 0 ==> CpuRel in r.rels && col in r.cols && r.cols[col] == Num(1))
  {
    AloneSelects(CpuScope, a0, Element("hyper", a, []), catalog, r);
  }

  /** A missing hypervisor is compared as the empty text, and so is a missing value. */
  lemma HypervisorElementSelects(scope: Scope, a0: Attr, a: Attr, catalog: Catalog, r: Record)
    requires scope in {HostScope, SystemScope}
    requires
      var col := Column(Some(HypervisorRel), "hypervisor");
      col in r.cols ==> r.cols[col].Txt?
    ensures
      var col := Column(Some(HypervisorRel), "hypervisor");
      Selected(Alone(scope, a0, Element("hypervisor", a, [])), catalog, r) <==>
      TextOk(a.op, if col in r.cols then r.cols[col].s else "", if a.text.Some? then a.text.value else "")
  {
    var col := Column(Some(HypervisorRel), "hypervisor");
    AloneSelects(scope, a0, Element("hypervisor", a, []), catalog, r);
    CompareTexts(a.op, if col in r.cols then r.cols[col].s else "", if a.text.Some? then a.text.value else "");
  }

  /** Automatic provisioning needs a power supply and a lab controller, whatever the value is. */
  lemma AutoProvElementSelects(a0: Attr, a: Attr, catalog: Catalog, r: Record)
    ensures
      Selected(Alone(HostScope, a0, Element("auto_prov", a, [])), catalog, r) <==>
      (a.text.Some? && a.text.value != "" ==> PowerRel in r.rels && Column(None, "lab_controller") in r.cols)
  {
    AloneSelects(HostScope, a0, Element("auto_prov", a, []), catalog, r);
  }

  /* Disks */

  /** The sizes that are known, summed up. */
  function TotalSize(disks: seq<Row>): int {
    if disks == [] then 0
    else (if "size" in disks[0] && disks[0]["size"].Num? then disks[0]["size"].n else 0) + TotalSize(disks[1..])
  }

  lemma {:induction false} SumIsTotal(disks: seq<Row>)
    ensures SumOf(disks, "size") == TotalSize(disks)
    decreases |disks|
  {
    if |disks| > 0 {
      SumIsTotal(disks[..|disks| - 1]);
      TotalOfOneMore(disks[..|disks| - 1], disks[|disks| - 1]);
      assert disks == disks[..|disks| - 1] + [disks[|disks| - 1]];
    }
  }

  lemma {:induction false} TotalOfOneMore(disks: seq<Row>, disk: Row)
    ensures TotalSize(disks + [disk]) == TotalSize(disks) + TotalSize([disk])
  {
    if disks == [] {
      assert disks + [disk] == [disk];
    } else {
      assert (disks + [disk])[1..] == disks[1..] + [disk];
      TotalOfOneMore(disks[1..], disk);
    }
  }

  /** Disk space is compared with the total of the known sizes, if any is known. */
  lemma DiskSpaceElementSelects(a0: Attr, a: Attr, catalog: Catalog, r: Record)
    ensures
      var disks := RowsOf(r, Disks);
      Selected(Alone(HostScope, a0, Element("diskspace", a, [])), catalog, r) <==>
      (a.number.Some? && a.number.value != 0 ==>
        (exists i :: 0 <= i < |disks| && "size" in disks[i]) && NumberOk(a.op, TotalSize(disks), a.number.value))
  {
    AloneSelects(HostScope, a0, Element("diskspace", a, []), catalog, r);
    SumIsTotal(RowsOf(r, Disks));
  }

  lemma DiskCountElementSelects(a0: Attr, a: Attr, catalog: Catalog, r: Record)
    ensures
      Selected(Alone(HostScope, a0, Element("diskcount", a, [])), catalog, r) <==>
      (a.number.Some? && a.number.value != 0 ==> NumberOk(a.op, |RowsOf(r, Disks)|, a.number.value))
  {
    AloneSelects(HostScope, a0, Element("diskcount", a, []), catalog, r);
  }

  /** What one attribute of a disk must be like. */
  ghost predicate DiskOk(tag: string, a: Attr, disk: Row) {
    if tag == "model" then
      a.text.Some? && a.text.value != "" ==>
        tag in disk && disk[tag].Txt? && TextOk(a.op, disk[tag].s, a.text.value)
    else
      a.number.Some? && a.number.value != 0 ==>
        tag in disk && disk[tag].Num? && NumberOk(a.op, disk[tag].n, a.number.value)
  }

  predicate DiskTyped(disk: Row) {
    ("model" in disk ==> disk["model"].Txt?) &&
    forall tag :: tag in {"size", "sector_size", "phys_sector_size"} && tag in disk ==> disk[tag].Num?
  }

  lemma DiskLeafOk(tag: string, a: Attr, disk: Row)
    requires tag in {"model", "size", "sector_size", "phys_sector_size"} && DiskTyped(disk)
    ensures
      var n := Wrapped(DiskScope, Element(tag, a, []));
      IsDiskLeaf(n) && (DiskContributes(n) ==> (DiskReading(n, disk) == Yes <==> DiskOk(tag, a, disk))) &&
      (!DiskContributes(n) ==> DiskOk(tag, a, disk))
  {
    if tag == "model" {
      if HasText(a) && tag in disk {
        CompareTexts(a.op, disk[tag].s, a.text.value);
      }
    } else if HasNumber(a) && tag in disk {
      CompareNumbers(a.op, disk[tag].n, a.number.value);
    }
  }

  lemma OneDiskKid(n: Node, kid: Node, disk: Row)
    requires n.cls == Disk && n.kids == [kid]
    ensures DiskReading(n, disk) == Yes <==> (DiskContributes(kid) ==> DiskReading(kid, disk) == Yes)
  {
    assert n.kids[0] == kid;
    var t := DiskReading(n.kids[0], disk);
    assert t == Yes || t == No || t == Unknown;
    assert t == No || t == Unknown ==> DiskContributes(n.kids[0]) ==> DiskReading(n, disk) != Yes;
  }

  /** A disk element with one attribute selects the systems that have a disk like that. */
  lemma DiskElementSelects(a0: Attr, tag: string, a: Attr, catalog: Catalog, r: Record)
    requires tag in {"model", "size", "sector_size", "phys_sector_size"}
    requires forall i :: 0 <= i < |RowsOf(r, Disks)| ==> DiskTyped(RowsOf(r, Disks)[i])
    ensures
      Selected(Alone(DiskScope, a0, Element(tag, a, [])), catalog, r) <==>
      exists i :: 0 <= i < |RowsOf(r, Disks)| && DiskOk(tag, a, RowsOf(r, Disks)[i])
  {
    var e := Element(tag, a, []);
    AloneIs(DiskScope, a0, e);
    var n := Alone(DiskScope, a0, e);
    var disk := n.kids[0];
    CompilationPreservesMeaning(n, catalog, r);
    assert Contributes(n.kids[0], catalog);
    assert forall rel :: !NeedsRel(n.kids[0], catalog, rel);
    ReadsAsConnected(n, catalog, r);
    OnlyKidReads(n, catalog, r, Yes);
    OnlyKidReads(n, catalog, r, No);
    OnlyKidReads(n, catalog, r, Unknown);
    forall i | 0 <= i < |RowsOf(r, Disks)|
      ensures DiskReading(disk, RowsOf(r, Disks)[i]) == Yes <==> DiskOk(tag, a, RowsOf(r, Disks)[i])
    {
      OneDiskKid(disk, Wrapped(DiskScope, e), RowsOf(r, Disks)[i]);
      DiskLeafOk(tag, a, RowsOf(r, Disks)[i]);
    }
  }

  /* The other elements, and connectives */

  const HOST_ROWS: map<string, Class> := map[
    "pool" := Pool, "group" := Pool, "key_value" := KeyValue, "arch" := Arch, "device" := Device]

  const SYSTEM_ROWS: map<string, Class> := map[
    "arch" := Arch, "added" := Added, "last_inventoried" := LastInventoried,
    "compatible_with_distro" := CompatibleWithDistro]

  function RowClass(scope: Scope, tag: string): Option<Class> {
    match scope
    case HostScope => if tag in HOST_ROWS then Some(HOST_ROWS[tag]) else None
    case SystemScope => if tag in SYSTEM_ROWS then Some(SYSTEM_ROWS[tag]) else None
    case CpuScope => if tag == "flag" then Some(CpuFlag) else None
    case DiskScope => None
  }

  lemma RowLeaf(scope: Scope, tag: string, a: Attr)
    requires RowClass(scope, tag).Some?
    ensures Wrapped(scope, Element(tag, a, [])) == Node(RowClass(scope, tag).value, a, [])
  {
    match scope
    case HostScope =>
    case SystemScope =>
    case CpuScope =>
  }

  /** The elements whose readings are given by name elsewhere; of these, only the cpu flag needs a relation. */
  lemma OtherElementSelects(scope: Scope, a0: Attr, tag: string, a: Attr, catalog: Catalog, r: Record)
    requires RowClass(scope, tag).Some?
    ensures
      var n := Node(RowClass(scope, tag).value, a, []);
      Selected(Alone(scope, a0, Element(tag, a, [])), catalog, r) <==>
      (Contributes(n, catalog) ==> Reading(n, catalog, r) == Yes && (scope == CpuScope ==> CpuRel in r.rels))
  {
    AloneSelects(scope, a0, Element(tag, a, []), catalog, r);
    RowLeaf(scope, tag, a);
    RowLeafSelects(RowClass(scope, tag).value, a, catalog, r);
  }

  lemma RowLeafSelects(c: Class, a: Attr, catalog: Catalog, r: Record)
    requires c in {Pool, KeyValue, Arch, Device, Added, LastInventoried, CompatibleWithDistro, CpuFlag}
    ensures
      var n := Node(c, a, []);
      Selected(n, catalog, r) <==>
      (Contributes(n, catalog) ==> Reading(n, catalog, r) == Yes && (c == CpuFlag ==> CpuRel in r.rels))
  {
    var n := Node(c, a, []);
    CompilationPreservesMeaning(n, catalog, r);
    if c == CpuFlag {
      assert NeedsRel(n, catalog, CpuRel) <==> Contributes(n, catalog);
      assert forall rel :: NeedsRel(n, catalog, rel) ==> rel == CpuRel;
    } else {
      assert LeafJoins(c, a, catalog) == [];
      assert forall rel :: !NeedsRel(n, catalog, rel);
    }
  }

  /** The element reads as true, or gives no condition. */
  ghost predicate Passes(n: Node, catalog: Catalog, r: Record) {
    Contributes(n, catalog) ==> Reading(n, catalog, r) == Yes
  }

  /** Some child gives a condition and reads so. */
  ghost predicate SomeReads(scope: Scope, es: seq<Element>, catalog: Catalog, r: Record, t: Truth) {
    exists i :: 0 <= i < |es| && Reads(scope, es[i], catalog, r, t)
  }

  predicate Reads(scope: Scope, e: Element, catalog: Catalog, r: Record, t: Truth) {
    Contributes(Wrapped(scope, e), catalog) && Reading(Wrapped(scope, e), catalog, r) == t
  }

  lemma KidsAreWrapped(scope: Scope, tag: string, a: Attr, es: seq<Element>, catalog: Catalog, r: Record)
    requires tag in {"and", "or", "not"}
    ensures
      var n := Wrapped(scope, Element(tag, a, es));
      && n.cls == (if tag == "and" then And else if tag == "or" then Or else Not)
      && (Contributes(n, catalog) <==> exists i :: 0 <= i < |es| && Contributes(Wrapped(scope, es[i]), catalog))
      && forall t :: KidReads(n, catalog, r, t) <==> SomeReads(scope, es, catalog, r, t)
  {
    var n := Wrapped(scope, Element(tag, a, es));
    assert |n.kids| == |es| && forall i :: 0 <= i < |es| ==> n.kids[i] == Wrapped(scope, es[i]);
    assert Contributes(n, catalog) <==> exists i :: 0 <= i < |es| && Contributes(Wrapped(scope, es[i]), catalog);
  }

  /**
   In every table, the tags and, or and not combine their children as they would be read in place of the connective:
   all that give a condition hold, or one of them does, or one of them fails.
   */
  lemma ConnectiveElements(scope: Scope, tag: string, a: Attr, es: seq<Element>, catalog: Catalog, r: Record)
    requires tag in {"and", "or", "not"}
    ensures
      var n := Wrapped(scope, Element(tag, a, es));
      && (Contributes(n, catalog) <==> exists i :: 0 <= i < |es| && Contributes(Wrapped(scope, es[i]), catalog))
      && (tag == "and" ==>
        (Reading(n, catalog, r) == Yes <==> forall i :: 0 <= i < |es| ==> Passes(Wrapped(scope, es[i]), catalog, r)))
      && (tag == "or" ==> (Reading(n, catalog, r) == Yes <==> SomeReads(scope, es, catalog, r, Yes)))
      && (tag == "not" ==> (Reading(n, catalog, r) == Yes <==> SomeReads(scope, es, catalog, r, No)))
  {
    var n := Wrapped(scope, Element(tag, a, es));
    KidsAreWrapped(scope, tag, a, es, catalog, r);
    ReadsAsConnected(n, catalog, r);
    if tag == "and" {
      AllPass(scope, es, catalog, r);
    }
  }

  lemma AllPass(scope: Scope, es: seq<Element>, catalog: Catalog, r: Record)
    ensures
      (forall i :: 0 <= i < |es| ==> Passes(Wrapped(scope, es[i]), catalog, r)) <==>
      !SomeReads(scope, es, catalog, r, No) && !SomeReads(scope, es, catalog, r, Unknown)
  {
    forall i | 0 <= i < |es|
      ensures Passes(Wrapped(scope, es[i]), catalog, r) <==>
        !Reads(scope, es[i], catalog, r, No) && !Reads(scope, es[i], catalog, r, Unknown)
    {
    }
  }
}
