/**
 Host filters: XML trees of and/or/not and leaf elements. Every element is wrapped in the class that its tag has in the
 table of the enclosing element; a tag that the table does not have is wrapped like `<and/>`.
 */
module HostFilter {
  import opened Prelude

  datatype Op = Eq | Ne | Gt | Ge | Lt | Le

  /**
   The attributes of an element, already cast: `number` is the value attribute of a numeric element, multiplied by its
   unit if it has one; 1 for a hyperthreading element that asks for it; and the number of the day for a date element
   with a value. `fields` has the further attributes that devices and distro compatibility are described by.
   */
  datatype Attr = Attr(op: Op, text: Option<string>, number: Option<int>, key: string, fields: map<string, string>)

  datatype Element = Element(tag: string, attr: Attr, children: seq<Element>)

  /** The tables of tags. `<and>`, `<or>` and `<not>` keep the table of the element around them. */
  datatype Scope = HostScope | SystemScope | CpuScope | DiskScope

  /** The to-one relations of a system that a filter may join. */
  datatype Rel =
    | CpuRel | NumaRel | LabControllerRel | PowerRel | PowerTypeRel | OwnerRel | UserRel | LoanedRel | HypervisorRel

  /** The relations to users. */
  type Role = r: Rel | r in {OwnerRel, UserRel, LoanedRel} witness OwnerRel

  /** A column of the system itself, or of one of its to-one relations. */
  datatype Column = Column(rel: Option<Rel>, name: string)

  datatype Class =
    | Host | And | Or | Not | System | Cpu | Disk
    | Memory | Processors | Cores
    | CpuNumber(name: string) | CpuText(name: string) | CpuFlag | CpuHyper
    | SystemText(name: string) | SystemType | SystemStatus
    | UserName(role: Role) | PowerType | NumaNodes | Arch | Hypervisor | LabController
    | Pool | KeyValue | AutoProv | Device | DiskSpace | DiskCount
    | Added | LastInventoried | CompatibleWithDistro
    | DiskText(name: string) | DiskNumber(name: string)

  predicate IsConjunction(c: Class) {
    c in {Host, And, System, Cpu, Disk}
  }

  predicate IsLeaf(c: Class) {
    !IsConjunction(c) && c != Or && c != Not
  }

  function Lookup(tag: string, scope: Scope): Class {
    if tag == "and" then And
    else if tag == "or" then Or
    else if tag == "not" then Not
    else
      match scope
      case HostScope => HostTag(tag)
      case SystemScope => SystemTag(tag)
      case CpuScope => CpuTag(tag)
      case DiskScope => DiskTag(tag)
  }

  function HostTag(tag: string): Class {
    if tag == "labcontroller" || tag == "hostlabcontroller" then LabController
    else if tag == "system" then System
    else if tag == "cpu" then Cpu
    else if tag == "disk" then Disk
    else if tag == "diskspace" then DiskSpace
    else if tag == "diskcount" then DiskCount
    else if tag == "pool" || tag == "group" then Pool
    else if tag == "key_value" then KeyValue
    else if tag == "auto_prov" then AutoProv
    else if tag == "system_type" then SystemType
    else if tag == "memory" then Memory
    else if tag == "cpu_count" then Processors
    else if tag == "hostname" then SystemText("fqdn")
    else if tag == "arch" then Arch
    else if tag == "numa_node_count" then NumaNodes
    else if tag == "hypervisor" then Hypervisor
    else if tag == "device" then Device
    else And
  }

  function SystemTag(tag: string): Class {
    if tag == "name" then SystemText("fqdn")
    else if tag == "type" then SystemType
    else if tag == "status" then SystemStatus
    else if tag in {"lender", "vendor", "model", "location", "serial"} then SystemText(tag)
    else if tag == "owner" then UserName(OwnerRel)
    else if tag == "user" then UserName(UserRel)
    else if tag == "loaned" then UserName(LoanedRel)
    else if tag == "powertype" then PowerType
    else if tag == "memory" then Memory
    else if tag == "arch" then Arch
    else if tag == "numanodes" then NumaNodes
    else if tag == "hypervisor" then Hypervisor
    else if tag == "added" then Added
    else if tag == "last_inventoried" then LastInventoried
    else if tag == "compatible_with_distro" then CompatibleWithDistro
    else And
  }

  function CpuTag(tag: string): Class {
    if tag == "processors" then Processors
    else if tag == "cores" then Cores
    else if tag in {"family", "model", "sockets", "speed", "stepping"} then CpuNumber(tag)
    else if tag in {"model_name", "vendor"} then CpuText(tag)
    else if tag == "flag" then CpuFlag
    else if tag == "hyper" then CpuHyper
    else And
  }

  function DiskTag(tag: string): Class {
    if tag == "model" then DiskText(tag)
    else if tag in {"size", "sector_size", "phys_sector_size"} then DiskNumber(tag)
    else And
  }

  /** The table that the children of a wrapper use. */
  function InnerScope(c: Class, scope: Scope): Scope {
    match c
    case Host => HostScope
    case System => SystemScope
    case Cpu => CpuScope
    case Disk => DiskScope
    case _ => scope
  }

  /** A wrapped element. */
  datatype Node = Node(cls: Class, attr: Attr, kids: seq<Node>)

  function Wrap(e: Element, cls: Class, scope: Scope): Node {
    if IsLeaf(cls) then Node(cls, e.attr, [])
    else
      var inner := InnerScope(cls, scope);
      Node(cls, e.attr, seq(|e.children|, i requires 0 <= i < |e.children| =>
        Wrap(e.children[i], Lookup(e.children[i].tag, inner), inner)))
  }

  function WrapEach(es: seq<Element>, scope: Scope): seq<Node> {
    seq(|es|, i requires 0 <= i < |es| => Wrap(es[i], Lookup(es[i].tag, scope), scope))
  }

  /** The wrapper of a whole host filter; its root is taken for a host element whatever its tag. */
  function HostNode(e: Element): Node {
    Wrap(e, Host, HostScope)
  }

  /* Comparing values */

  datatype Val = Num(n: int) | Txt(s: string)

  function Less(a: Val, b: Val): bool {
    match (a, b)
    case (Num(m), Num(n)) => m < n
    case (Txt(s), Txt(t)) => TextLess(s, t)
    case _ => false
  }

  function TextLess(s: string, t: string): bool {
    if t == "" then false
    else if s == "" then true
    else s[0] < t[0] || (s[0] == t[0] && TextLess(s[1..], t[1..]))
  }

  predicate Compare(op: Op, a: Val, b: Val) {
    match op
    case Eq => a == b
    case Ne => a != b
    case Lt => Less(a, b)
    case Gt => Less(b, a)
    case Le => a == b || Less(a, b)
    case Ge => a == b || Less(b, a)
  }

  predicate HasText(a: Attr) {
    a.text.Some? && a.text.value != ""
  }

  predicate HasNumber(a: Attr) {
    a.number.Some? && a.number.value != 0
  }
}
