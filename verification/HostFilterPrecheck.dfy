/**
 What a filter of one element asks of a flavor, tag by tag, and what exactly the quick check means: it ignores numbers,
 names of lab controllers, and whatever is inside a not.
 */
module HostFilterPrecheck {
  import opened Prelude
  import opened HostFilter
  import opened HostFilterFlavors
  import opened HostFilterElements

  /* Filters of one element */

  /** The figure of the flavor that a number element asks about. */
  function Figure(scope: Scope, tag: string, f: Flavor): Option<int> {
    match scope
    case HostScope => if tag == "memory" then Some(f.ram) else if tag == "cpu_count" then Some(f.vcpus) else None
    case SystemScope => if tag == "memory" then Some(f.ram) else None
    case CpuScope => if tag == "processors" || tag == "cores" then Some(f.vcpus) else None
    case DiskScope => if tag == "size" then Some(f.disk) else None
  }

  predicate IsLab(scope: Scope, tag: string) {
    scope == HostScope && (tag == "labcontroller" || tag == "hostlabcontroller")
  }

  predicate IsHypervisor(scope: Scope, tag: string) {
    (scope == HostScope || scope == SystemScope) && tag == "hypervisor"
  }

  predicate IsType(scope: Scope, tag: string) {
    (scope == HostScope && tag == "system_type") || (scope == SystemScope && tag == "type")
  }

  predicate IsArch(scope: Scope, tag: string) {
    (scope == HostScope || scope == SystemScope) && tag == "arch"
  }

  /** What the element asks of a flavor in the lab of `fqdn`; most elements no flavor satisfies. */
  ghost predicate FlavorOk(scope: Scope, tag: string, a: Attr, f: Flavor, fqdn: string) {
    if Figure(scope, tag, f).Some? then
      a.number.Some? && a.number.value != 0 ==> NumberOk(a.op, Figure(scope, tag, f).value, a.number.value)
    else if IsLab(scope, tag) then a.text.Some? && a.text.value != "" && TextOk(a.op, fqdn, a.text.value)
    else if IsHypervisor(scope, tag) then TextOk(a.op, "KVM", if a.text.Some? then a.text.value else "")
    else if IsType(scope, tag) then a.text == Some("Machine")
    else if IsArch(scope, tag) then
      if a.text.None? then a.op == Ne else TextOk(a.op, "x86_64", a.text.value) || TextOk(a.op, "i386", a.text.value)
    else false
  }

  /** The class of an element that some flavor could satisfy. */
  function FlavorClass(scope: Scope, tag: string): Option<Class> {
    if scope == DiskScope then if tag == "size" then Some(DiskNumber("size")) else None
    else if scope == CpuScope then
      if tag == "processors" then Some(Processors) else if tag == "cores" then Some(Cores) else None
    else if tag == "memory" then Some(Memory)
    else if scope == HostScope && tag == "cpu_count" then Some(Processors)
    else if IsLab(scope, tag) then Some(LabController)
    else if tag == "hypervisor" then Some(Hypervisor)
    else if IsType(scope, tag) then Some(SystemType)
    else if tag == "arch" then Some(Arch)
    else None
  }

  /** A leaf that no flavor satisfies. */
  predicate IsHopeless(c: Class) {
    match c
    case Memory => false
    case Processors => false
    case Cores => false
    case LabController => false
    case Hypervisor => false
    case SystemType => false
    case Arch => false
    case DiskNumber(name) => name != "size"
    case _ => true
  }

  /** The tag has that class in the table, or one that is hopeless. */
  predicate HasFlavorClass(scope: Scope, tag: string) {
    if FlavorClass(scope, tag).Some? then Lookup(tag, scope) == FlavorClass(scope, tag).value
    else IsHopeless(Lookup(tag, scope))
  }

  lemma HostFlavorTag(tag: string)
    requires FlavorClass(HostScope, tag).Some?
    ensures HasFlavorClass(HostScope, tag)
  {
    if tag != "hypervisor" && tag != "arch" {
      HostTags(tag);
    }
  }

  lemma HostHopelessTag(tag: string)
    requires FlavorClass(HostScope, tag).None?
    ensures HasFlavorClass(HostScope, tag)
  {
  }

  lemma HostFlavorTags(tag: string)
    ensures HasFlavorClass(HostScope, tag)
  {
    if FlavorClass(HostScope, tag).Some? {
      HostFlavorTag(tag);
    } else {
      HostHopelessTag(tag);
    }
  }

  lemma SystemFlavorTags(tag: string)
    ensures HasFlavorClass(SystemScope, tag)
  {
  }

  lemma CpuFlavorTags(tag: string)
    ensures HasFlavorClass(CpuScope, tag)
  {
  }

  lemma DiskFlavorTags(tag: string)
    ensures HasFlavorClass(DiskScope, tag)
  {
  }

  lemma FlavorTags(scope: Scope, tag: string)
    ensures HasFlavorClass(scope, tag)
  {
    match scope
    case HostScope => HostFlavorTags(tag);
    case SystemScope => SystemFlavorTags(tag);
    case CpuScope => CpuFlavorTags(tag);
    case DiskScope => DiskFlavorTags(tag);
  }

  lemma NoFlavorTag(scope: Scope, tag: string, a: Attr, f: Flavor, fqdn: string)
    requires FlavorClass(scope, tag).None?
    ensures !FlavorOk(scope, tag, a, f, fqdn)
  {
  }

  lemma LeafOfFlavor(scope: Scope, tag: string, a: Attr, f: Flavor, fqdn: string)
    requires IsLeaf(Lookup(tag, scope))
    ensures LeafMatches(Lookup(tag, scope), a, f, fqdn) <==> FlavorOk(scope, tag, a, f, fqdn)
  {
    FlavorTags(scope, tag);
    if FlavorClass(scope, tag).Some? {
      FlavorLeafOk(scope, tag, a, f, fqdn);
    } else {
      NoFlavorTag(scope, tag, a, f, fqdn);
    }
  }

  lemma FigureOk(scope: Scope, tag: string, a: Attr, f: Flavor, fqdn: string)
    requires FlavorClass(scope, tag).Some? && IsNumberLeaf(FlavorClass(scope, tag).value)
    ensures LeafMatches(FlavorClass(scope, tag).value, a, f, fqdn) <==> FlavorOk(scope, tag, a, f, fqdn)
  {
    assert Figure(scope, tag, f).Some?;
    if a.number.Some? {
      CompareNumbers(a.op, Figure(scope, tag, f).value, a.number.value);
    }
  }

  lemma NamesOk(a: Attr, fqdn: string)
    ensures MatchesKvm(a) <==> TextOk(a.op, "KVM", if a.text.Some? then a.text.value else "")
    ensures
      MatchesX86(a) <==>
      if a.text.None? then a.op == Ne else TextOk(a.op, "x86_64", a.text.value) || TextOk(a.op, "i386", a.text.value)
    ensures a.text.Some? ==> (Compare(a.op, Txt(fqdn), Txt(a.text.value)) <==> TextOk(a.op, fqdn, a.text.value))
  {
    if a.text.Some? {
      CompareTexts(a.op, fqdn, a.text.value);
      CompareTexts(a.op, "x86_64", a.text.value);
      CompareTexts(a.op, "i386", a.text.value);
    }
    CompareTexts(a.op, "KVM", if a.text.Some? then a.text.value else "");
  }

  lemma FlavorLeafOk(scope: Scope, tag: string, a: Attr, f: Flavor, fqdn: string)
    requires FlavorClass(scope, tag).Some?
    ensures LeafMatches(FlavorClass(scope, tag).value, a, f, fqdn) <==> FlavorOk(scope, tag, a, f, fqdn)
  {
    if IsNumberLeaf(FlavorClass(scope, tag).value) {
      FigureOk(scope, tag, a, f, fqdn);
    } else {
      NamesOk(a, fqdn);
    }
  }

  lemma AloneMatches(scope: Scope, a0: Attr, e: Element, f: Flavor, fqdn: string)
    ensures
      Matches(Alone(scope, a0, e), f, fqdn) <==>
      Matches(Wrap(e, Lookup(e.tag, scope), scope), f, fqdn) && f.disk >= 10
  {
    AloneIs(scope, a0, e);
    var n := Alone(scope, a0, e);
    OnlyChildMatches(n, f, fqdn);
    if scope != HostScope {
      OnlyChildMatches(n.kids[0], f, fqdn);
    }
  }

  lemma OnlyChildMatches(n: Node, f: Flavor, fqdn: string)
    requires IsConjunction(n.cls) && |n.kids| == 1
    ensures Matches(n, f, fqdn) <==> Matches(n.kids[0], f, fqdn) && (n.cls == Host ==> f.disk >= 10)
  {
  }

  /** A filter of one element keeps the flavors with a sane disk that have what the element asks for. */
  lemma FlavorElementMatches(scope: Scope, a0: Attr, tag: string, a: Attr, f: Flavor, fqdn: string)
    requires IsLeaf(Lookup(tag, scope))
    ensures
      Matches(Alone(scope, a0, Element(tag, a, [])), f, fqdn) <==>
      f.disk >= 10 && FlavorOk(scope, tag, a, f, fqdn)
  {
    AloneMatches(scope, a0, Element(tag, a, []), f, fqdn);
    LeafOfFlavor(scope, tag, a, f, fqdn);
  }

  /* What the quick check means */

  predicate IsNumberLeaf(c: Class) {
    c == Memory || c == Processors || c == Cores || c == DiskNumber("size")
  }

  /** `b` is `a` but for what the quick check ignores: a number, or the name of a lab controller. */
  predicate Relaxed(c: Class, a: Attr, b: Attr) {
    if IsNumberLeaf(c) then b == a.(number := b.number)
    else if c == LabController then b == a.(text := b.text)
    else b == a
  }

  /** The same tree, with relaxed leaves, and anything at all inside its nots. */
  predicate Relaxes(n: Node, m: Node) {
    && m.cls == n.cls
    && if n.cls == Not then true
      else if IsLeaf(n.cls) then Relaxed(n.cls, n.attr, m.attr)
      else |m.kids| == |n.kids| && forall i :: 0 <= i < |n.kids| ==> Relaxes(n.kids[i], m.kids[i])
  }

  const LAB := "b"

  /** A name that the lab controller `LAB` compares with as the operator says. */
  function LabFor(op: Op): string {
    if op == Lt then "c" else if op == Gt || op == Ne then "a" else LAB
  }

  lemma LabFits(op: Op)
    ensures Compare(op, Txt(LAB), Txt(LabFor(op)))
  {
  }

  function Easiest(c: Class, a: Attr): Attr {
    if IsNumberLeaf(c) then a.(number := None)
    else if c == LabController then a.(text := Some(LabFor(a.op)))
    else a
  }

  function EasiestTree(n: Node): Node {
    if IsLeaf(n.cls) then n.(attr := Easiest(n.cls, n.attr))
    else if n.cls == Not then n.(kids := [])
    else n.(kids := seq(|n.kids|, i requires 0 <= i < |n.kids| => EasiestTree(n.kids[i])))
  }

  /** A leaf passes the quick check if and only if a relaxed form of it matches some flavor in some lab. */
  lemma LeafCheckIff(c: Class, a: Attr)
    requires IsLeaf(c)
    ensures LeafVirtualisable(c, a) <==> exists b, f, fqdn :: Relaxed(c, a, b) && LeafMatches(c, b, f, fqdn)
  {
    var f := Flavor("", 0, 0, 10);
    if LeafVirtualisable(c, a) {
      LabFits(a.op);
      assert Relaxed(c, a, Easiest(c, a)) && LeafMatches(c, Easiest(c, a), f, LAB);
    }
    forall b, g, fqdn | Relaxed(c, a, b) && LeafMatches(c, b, g, fqdn)
      ensures LeafVirtualisable(c, a)
    {
    }
  }

  lemma {:induction false} EasiestRelaxes(n: Node)
    ensures Relaxes(n, EasiestTree(n))
  {
    if !IsLeaf(n.cls) && n.cls != Not {
      forall i | 0 <= i < |n.kids|
        ensures Relaxes(n.kids[i], EasiestTree(n).kids[i])
      {
        EasiestRelaxes(n.kids[i]);
      }
    }
  }

  lemma {:induction false} EasiestMatches(n: Node, f: Flavor)
    requires Virtualisable(n) && f.disk >= 10
    ensures Matches(EasiestTree(n), f, LAB)
  {
    if IsLeaf(n.cls) {
      LabFits(n.attr.op);
    } else if n.cls == Or {
      var i :| 0 <= i < |n.kids| && Virtualisable(n.kids[i]);
      EasiestMatches(n.kids[i], f);
      assert Matches(EasiestTree(n).kids[i], f, LAB);
    } else if IsConjunction(n.cls) {
      forall i | 0 <= i < |n.kids|
        ensures Matches(EasiestTree(n).kids[i], f, LAB)
      {
        EasiestMatches(n.kids[i], f);
      }
    }
  }

  lemma {:induction false} RelaxedChecksAlike(n: Node, m: Node)
    requires Relaxes(n, m)
    ensures Virtualisable(m) <==> Virtualisable(n)
  {
    if !IsLeaf(n.cls) && n.cls != Not {
      forall i | 0 <= i < |n.kids|
        ensures Virtualisable(m.kids[i]) <==> Virtualisable(n.kids[i])
      {
        RelaxedChecksAlike(n.kids[i], m.kids[i]);
      }
    }
  }

  /** The flavor satisfies the relaxed tree. */
  predicate CouldMatch(n: Node, m: Node, f: Flavor, fqdn: string) {
    Relaxes(n, m) && Matches(m, f, fqdn)
  }

  /**
   The quick check holds exactly when some flavor in some lab satisfies the filter with other numbers, other names of
   lab controllers, or other contents of its nots.
   */
  lemma CheckIff(n: Node)
    ensures Virtualisable(n) <==> exists m, f, fqdn :: CouldMatch(n, m, f, fqdn)
  {
    if Virtualisable(n) {
      var f := Flavor("", 0, 0, 10);
      EasiestRelaxes(n);
      EasiestMatches(n, f);
      assert CouldMatch(n, EasiestTree(n), f, LAB);
    }
    if m, f, fqdn :| CouldMatch(n, m, f, fqdn) {
      MatchImpliesVirtualisable(m, f, fqdn);
      RelaxedChecksAlike(n, m);
    }
  }

  lemma HopelessIff(c: Class, a: Attr)
    requires IsLeaf(c)
    ensures IsHopeless(c) ==> !LeafVirtualisable(c, a) && forall f, fqdn :: !LeafMatches(c, a, f, fqdn)
    ensures IsNumberLeaf(c) || c == LabController ==> LeafVirtualisable(c, a)
  {
  }

  lemma AloneChecks(scope: Scope, a0: Attr, e: Element)
    ensures Virtualisable(Alone(scope, a0, e)) <==> Virtualisable(Wrap(e, Lookup(e.tag, scope), scope))
  {
    AloneIs(scope, a0, e);
    var n := Alone(scope, a0, e);
    assert Virtualisable(n) <==> Virtualisable(n.kids[0]);
    if scope != HostScope {
      assert Virtualisable(n.kids[0]) <==> Virtualisable(n.kids[0].kids[0]);
    }
  }

  /**
   So a filter of one element passes the check if it is about a figure of flavors or about the lab controller, or if
   some flavor satisfies it as it is; an element that OpenStack knows nothing about fails.
   */
  lemma ElementChecks(scope: Scope, a0: Attr, tag: string, a: Attr)
    requires IsLeaf(Lookup(tag, scope))
    ensures
      Virtualisable(Alone(scope, a0, Element(tag, a, []))) <==>
      || Figure(scope, tag, Flavor("", 0, 0, 0)).Some? || IsLab(scope, tag)
      || (exists f, fqdn :: FlavorOk(scope, tag, a, f, fqdn))
  {
    var c := Lookup(tag, scope);
    AloneChecks(scope, a0, Element(tag, a, []));
    forall f, fqdn
      ensures LeafMatches(c, a, f, fqdn) <==> FlavorOk(scope, tag, a, f, fqdn)
    {
      LeafOfFlavor(scope, tag, a, f, fqdn);
    }
    FlavorTags(scope, tag);
    HopelessIff(c, a);
    if c in {Hypervisor, SystemType, Arch} {
      var f := Flavor("", 0, 0, 0);
      assert LeafVirtualisable(c, a) <==> LeafMatches(c, a, f, "");
    }
  }
}
