/**
 Reading a host filter against OpenStack: which flavors satisfy it, and the quick check whether any could.
 */
module HostFilterFlavors {
  import opened Prelude
  import opened HostFilter

  datatype Flavor = Flavor(id: string, ram: int, vcpus: int, disk: int)

  /** What a flavor must satisfy, element by element; `fqdn` names the lab controller. */
  predicate Matches(n: Node, f: Flavor, fqdn: string) {
    if n.cls == Or then exists i :: 0 <= i < |n.kids| && Matches(n.kids[i], f, fqdn)
    else if n.cls == Not then forall i :: 0 <= i < |n.kids| ==> !Matches(n.kids[i], f, fqdn)
    else if IsConjunction(n.cls) then
      && (forall i :: 0 <= i < |n.kids| ==> Matches(n.kids[i], f, fqdn))
      && (n.cls == Host ==> f.disk >= 10)
    else LeafMatches(n.cls, n.attr, f, fqdn)
  }

  predicate LeafMatches(c: Class, a: Attr, f: Flavor, fqdn: string) {
    match c
    case Memory => HasNumber(a) ==> Compare(a.op, Num(f.ram), Num(a.number.value))
    case Processors => HasNumber(a) ==> Compare(a.op, Num(f.vcpus), Num(a.number.value))
    case Cores => HasNumber(a) ==> Compare(a.op, Num(f.vcpus), Num(a.number.value))
    case DiskNumber(name) => name == "size" && (HasNumber(a) ==> Compare(a.op, Num(f.disk), Num(a.number.value)))
    case LabController => HasText(a) && Compare(a.op, Txt(fqdn), Txt(a.text.value))
    case Hypervisor => MatchesKvm(a)
    case SystemType => MatchesMachine(a)
    case Arch => MatchesX86(a)
    case _ => false
  }

  predicate MatchesKvm(a: Attr) {
    Compare(a.op, Txt("KVM"), Txt(if a.text.Some? then a.text.value else ""))
  }

  predicate MatchesMachine(a: Attr) {
    a.text == Some("Machine")
  }

  /** A missing value equals no architecture, so that it is unequal to each. */
  predicate MatchesX86(a: Attr) {
    if a.text.None? then a.op == Ne
    else Compare(a.op, Txt("x86_64"), Txt(a.text.value)) || Compare(a.op, Txt("i386"), Txt(a.text.value))
  }

  /** The flavors that a leaf accepts; a leaf that OpenStack knows nothing about accepts none. */
  method FilterLeaf(c: Class, a: Attr, flavors: set<Flavor>, fqdn: string) returns (result: set<Flavor>)
    requires IsLeaf(c)
    ensures result == set f | f in flavors && LeafMatches(c, a, f, fqdn)
  {
    match c
    case Memory =>
      result := flavors;
      if HasNumber(a) {
        result := set f | f in flavors && Compare(a.op, Num(f.ram), Num(a.number.value));
      }
    case Processors =>
      result := flavors;
      if HasNumber(a) {
        result := set f | f in flavors && Compare(a.op, Num(f.vcpus), Num(a.number.value));
      }
    case Cores =>
      result := flavors;
      if HasNumber(a) {
        result := set f | f in flavors && Compare(a.op, Num(f.vcpus), Num(a.number.value));
      }
    case DiskNumber(name) =>
      result := if name == "size" then flavors else {};
      if name == "size" && HasNumber(a) {
        result := set f | f in flavors && Compare(a.op, Num(f.disk), Num(a.number.value));
      }
    case LabController =>
      result := if HasText(a) && Compare(a.op, Txt(fqdn), Txt(a.text.value)) then flavors else {};
    case Hypervisor =>
      result := if MatchesKvm(a) then flavors else {};
    case SystemType =>
      result := if MatchesMachine(a) then flavors else {};
    case Arch =>
      result := if MatchesX86(a) then flavors else {};
    case _ =>
      result := {};
  }

  /** Filters the flavors: children narrow, widen or exclude, and the root also asks for a disk of sane size. */
  method FilterFlavors(n: Node, flavors: set<Flavor>, fqdn: string) returns (result: set<Flavor>)
    ensures result == set f | f in flavors && Matches(n, f, fqdn)
    decreases n
  {
    if n.cls == Or {
      result := {};
      for i := 0 to |n.kids|
        invariant result == set f | f in flavors && exists j :: 0 <= j < i && Matches(n.kids[j], f, fqdn)
      {
        var childResult := FilterFlavors(n.kids[i], flavors, fqdn);
        result := result + childResult;
      }
    } else if n.cls == Not {
      result := flavors;
      for i := 0 to |n.kids|
        invariant result == set f | f in flavors && forall j :: 0 <= j < i ==> !Matches(n.kids[j], f, fqdn)
      {
        var childResult := FilterFlavors(n.kids[i], flavors, fqdn);
        result := result - childResult;
      }
    } else if IsConjunction(n.cls) {
      result := flavors;
      for i := 0 to |n.kids|
        invariant result == set f | f in flavors && forall j :: 0 <= j < i ==> Matches(n.kids[j], f, fqdn)
      {
        var childResult := FilterFlavors(n.kids[i], flavors, fqdn);
        result := result * childResult;
      }
      if n.cls == Host {
        result := set f | f in result && f.disk >= 10;
      }
    } else {
      result := FilterLeaf(n.cls, n.attr, flavors, fqdn);
    }
  }

  /** The quick check, from the tree alone; `force` names a system to be used whatever the filter says. */
  predicate Virtualisable(n: Node) {
    if n.cls == Or then exists i :: 0 <= i < |n.kids| && Virtualisable(n.kids[i])
    else if n.cls == Not then true
    else if IsConjunction(n.cls) then forall i :: 0 <= i < |n.kids| ==> Virtualisable(n.kids[i])
    else LeafVirtualisable(n.cls, n.attr)
  }

  predicate LeafVirtualisable(c: Class, a: Attr) {
    match c
    case Memory => true
    case Processors => true
    case Cores => true
    case DiskNumber(name) => name == "size"
    case LabController => true
    case Hypervisor => MatchesKvm(a)
    case SystemType => MatchesMachine(a)
    case Arch => MatchesX86(a)
    case _ => false
  }

  method IsVirtualisable(n: Node, force: Option<string>) returns (b: bool)
    ensures b <==> !(n.cls == Host && force.Some? && force.value != "") && Virtualisable(n)
    decreases n
  {
    if n.cls == Host && force.Some? && force.value != "" {
      return false;
    }
    if n.cls == Or {
      for i := 0 to |n.kids|
        invariant forall j :: 0 <= j < i ==> !Virtualisable(n.kids[j])
      {
        b := IsVirtualisable(n.kids[i], None);
        if b {
          return;
        }
      }
      b := false;
    } else if n.cls == Not {
      b := true;
    } else if IsConjunction(n.cls) {
      for i := 0 to |n.kids|
        invariant forall j :: 0 <= j < i ==> Virtualisable(n.kids[j])
      {
        b := IsVirtualisable(n.kids[i], None);
        if !b {
          return;
        }
      }
      b := true;
    } else {
      b := LeafVirtualisable(n.cls, n.attr);
    }
  }

  /** The quick check never rejects a filter that some flavor in some lab satisfies. */
  lemma {:induction false} MatchImpliesVirtualisable(n: Node, f: Flavor, fqdn: string)
    requires Matches(n, f, fqdn)
    ensures Virtualisable(n)
  {
    if n.cls == Or {
      var i :| 0 <= i < |n.kids| && Matches(n.kids[i], f, fqdn);
      MatchImpliesVirtualisable(n.kids[i], f, fqdn);
    } else if IsConjunction(n.cls) {
      forall i | 0 <= i < |n.kids|
        ensures Virtualisable(n.kids[i])
      {
        MatchImpliesVirtualisable(n.kids[i], f, fqdn);
      }
    }
  }

  function Filtered(n: Node, flavors: set<Flavor>, fqdn: string): set<Flavor> {
    set f | f in flavors && Matches(n, f, fqdn)
  }

  /**
   A filter is wrongly turned away by the quick check exactly when it matches some flavor and forces a system: without
   `force`, a non-empty filter result implies the check.
   */
  lemma PrecheckLosesOnlyForced(e: Element, force: Option<string>, flavors: set<Flavor>, fqdn: string)
    requires Filtered(HostNode(e), flavors, fqdn) != {}
    ensures
      !(force.Some? && force.value != "") <==>
      !(HostNode(e).cls == Host && force.Some? && force.value != "") && Virtualisable(HostNode(e))
  {
    var f :| f in Filtered(HostNode(e), flavors, fqdn);
    MatchImpliesVirtualisable(HostNode(e), f, fqdn);
  }

  /** The check is only a necessary condition: nothing satisfies this filter, and yet it passes. */
  lemma PrecheckIsNotSufficient(a: Attr, flavors: set<Flavor>, fqdn: string)
    requires a.number.None?
    ensures
      var n := Node(Host, a, [Node(Not, a, [Node(Memory, a, [])])]);
      Virtualisable(n) && Filtered(n, flavors, fqdn) == {}
  {
    var memory := Node(Memory, a, []);
    var negation := Node(Not, a, [memory]);
    forall f
      ensures !Matches(Node(Host, a, [negation]), f, fqdn)
    {
      assert Matches(negation.kids[0], f, fqdn);
      assert !Matches(Node(Host, a, [negation]).kids[0], f, fqdn);
    }
  }
}
