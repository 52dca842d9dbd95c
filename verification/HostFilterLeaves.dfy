/** What single elements promise, and how the two readings of a host filter compare. */
module HostFilterLeaves {
  import opened Prelude
  import opened HostFilter
  import opened HostFilterSql
  import opened HostFilterMeaning
  import opened HostFilterFlavors

  ghost predicate SomeRow(r: Record, coll: Collection, name: string, v: Val) {
    exists i :: 0 <= i < |RowsOf(r, coll)| && name in RowsOf(r, coll)[i] && RowsOf(r, coll)[i][name] == v
  }

  ghost predicate SomeKeyValue(r: Record, coll: Collection, key: string, op: Op, v: Val) {
    exists i :: 0 <= i < |RowsOf(r, coll)| &&
      var row := RowsOf(r, coll)[i];
      "key" in row && row["key"] == Txt(key) && "key_value" in row && Compare(op, row["key_value"], v)
  }

  lemma PairIsYes(a: Clause, b: Clause, r: Record, row: Row)
    ensures Eval(AllOf([a, b]), r, row) == Yes <==> Eval(a, r, row) == Yes && Eval(b, r, row) == Yes
  {
    var c := AllOf([a, b]);
    assert EvalAll(c, 0, r, row) == Yes;
    assert EvalAll(c, 1, r, row) == Both(Yes, Eval(a, r, row));
    assert EvalAll(c, 2, r, row) == Both(EvalAll(c, 1, r, row), Eval(b, r, row));
  }

  /**
   A key/value element with `==` asks for the key with the given value, or with any value if none is given; with `!=`
   for its absence. Other comparisons need a value, and ask for the key with a value that compares so.
   */
  lemma KeyValueMeans(a: Attr, catalog: Catalog, r: Record)
    requires a.key in catalog.keys
    ensures
      var n := Node(KeyValue, a, []);
      var coll := if catalog.keys[a.key] then KeyValuesInt else KeyValuesString;
      var yes := Reading(n, catalog, r) == Yes;
      var v :=
        if catalog.keys[a.key] && a.number.Some? then Num(a.number.value)
        else if a.text.Some? then Txt(a.text.value)
        else Txt("");
      && (Contributes(n, catalog) <==> a.op in {Eq, Ne} || HasText(a))
      && (a.op == Eq && a.text.None? ==> (yes <==> SomeRow(r, coll, "key", Txt(a.key))))
      && (a.op == Ne && a.text.None? ==> (yes <==> !SomeRow(r, coll, "key", Txt(a.key))))
      && (a.op == Eq && a.text.Some? ==> (yes <==> SomeKeyValue(r, coll, a.key, Eq, v)))
      && (a.op == Ne && a.text.Some? ==> (yes <==> !SomeKeyValue(r, coll, a.key, Eq, v)))
      && (a.op !in {Eq, Ne} && HasText(a) ==> (yes <==> SomeKeyValue(r, coll, a.key, a.op, v)))
  {
    var coll := if catalog.keys[a.key] then KeyValuesInt else KeyValuesString;
    if a.text.None? {
      RowsWith(r, coll, "key", Txt(a.key));
    } else {
      var v := if catalog.keys[a.key] && a.number.Some? then Num(a.number.value) else Txt(a.text.value);
      KeyValueRows(r, coll, a.key, if a.op == Ne then Eq else a.op, v);
    }
  }

  lemma RowsWith(r: Record, coll: Collection, name: string, v: Val)
    ensures Eval(Any(coll, RowIs(name, Eq, v)), r, map[]) == Truly(SomeRow(r, coll, name, v))
  {
    var each := RowIs(name, Eq, v);
    assert forall i :: 0 <= i < |RowsOf(r, coll)| ==>
      (Eval(each, r, RowsOf(r, coll)[i]) == Yes <==>
        name in RowsOf(r, coll)[i] && RowsOf(r, coll)[i][name] == v);
  }

  lemma KeyValueRows(r: Record, coll: Collection, key: string, op: Op, v: Val)
    ensures
      Eval(Any(coll, AllOf([RowIs("key", Eq, Txt(key)), RowIs("key_value", op, v)])), r, map[]) ==
      Truly(SomeKeyValue(r, coll, key, op, v))
  {
    var (a, b) := (RowIs("key", Eq, Txt(key)), RowIs("key_value", op, v));
    forall i | 0 <= i < |RowsOf(r, coll)|
      ensures
        var row := RowsOf(r, coll)[i];
        Eval(AllOf([a, b]), r, row) == Yes <==>
          "key" in row && row["key"] == Txt(key) && "key_value" in row && Compare(op, row["key_value"], v)
    {
      PairIsYes(a, b, r, RowsOf(r, coll)[i]);
    }
  }

  /** A pool element asks for membership of a known pool or its lack; without a value, for any pool or for none. */
  lemma PoolMeans(a: Attr, catalog: Catalog, r: Record)
    ensures
      var n := Node(Pool, a, []);
      var yes := Reading(n, catalog, r) == Yes;
      && (Contributes(n, catalog) <==> !HasText(a) || a.text.value in catalog.pools)
      && (HasText(a) && a.text.value in catalog.pools ==>
        (yes <==> (a.op == Eq <==> SomeRow(r, Pools, "name", Txt(a.text.value)))))
      && (!HasText(a) ==> (yes <==> (a.op != Eq <==> RowsOf(r, Pools) != [])))
  {
    if HasText(a) {
      RowsWith(r, Pools, "name", Txt(a.text.value));
    } else {
      assert RowsOf(r, Pools) != [] ==> Eval(AllOf([]), r, RowsOf(r, Pools)[0]) == Yes;
    }
  }

  /** An architecture element asks for a known architecture among those of the system, or for its absence. */
  lemma ArchMeans(a: Attr, catalog: Catalog, r: Record)
    ensures
      var n := Node(Arch, a, []);
      && (Contributes(n, catalog) <==> HasText(a) && a.text.value in catalog.arches)
      && (Contributes(n, catalog) ==>
        (Reading(n, catalog, r) == Yes <==> (a.op == Eq <==> SomeRow(r, Arches, "name", Txt(a.text.value)))))
  {
    if HasText(a) {
      RowsWith(r, Arches, "name", Txt(a.text.value));
    }
  }

  /** A cpu flag element asks for a cpu with the flag, or for one without it; either way there must be a cpu. */
  lemma CpuFlagMeans(a: Attr, catalog: Catalog, r: Record)
    requires a.op in {Eq, Ne}
    ensures
      var n := Node(CpuFlag, a, []);
      && (Contributes(n, catalog) <==> HasText(a)) && (NeedsRel(n, catalog, CpuRel) <==> HasText(a))
      && (HasText(a) ==>
        (Reading(n, catalog, r) == Yes <==> (a.op == Eq <==> SomeRow(r, CpuFlags, "flag", Txt(a.text.value)))))
  {
    if HasText(a) {
      RowsWith(r, CpuFlags, "flag", Txt(a.text.value));
    }
  }

  lemma AllYes(parts: seq<Clause>, r: Record, row: Row)
    ensures Eval(AllOf(parts), r, row) == Yes <==> forall c :: c in parts ==> Eval(c, r, row) == Yes
  {
    ConnectedClauseMeans(And, parts, r, row);
    assert forall c :: c in parts ==> Eval(c, r, row) in {Yes, No, Unknown};
  }

  /** The condition given by one attribute of a device. */
  predicate IsPart(a: Attr, name: string, c: Clause) {
    Asked(a, name) && c == RowIs(name, Eq, Txt(a.fields[name]))
  }

  lemma {:induction false} DevicePartsAre(a: Attr, k: nat, c: Clause)
    requires k <= |DEVICE_FIELDS|
    ensures c in DeviceParts(a, k) <==> exists j :: 0 <= j < k && IsPart(a, DEVICE_FIELDS[j], c)
  {
    if k > 0 {
      DevicePartsAre(a, k - 1, c);
    }
  }

  /** The device has every attribute that is asked for. */
  ghost predicate DeviceFits(a: Attr, row: Row) {
    forall name :: name in DEVICE_FIELDS && Asked(a, name) ==> name in row && row[name] == Txt(a.fields[name])
  }

  lemma DevicePartsMean(a: Attr, r: Record, row: Row)
    ensures Eval(AllOf(DeviceParts(a, |DEVICE_FIELDS|)), r, row) == Yes <==> DeviceFits(a, row)
  {
    var parts := DeviceParts(a, |DEVICE_FIELDS|);
    AllYes(parts, r, row);
    forall c
      ensures c in parts <==> exists j :: 0 <= j < |DEVICE_FIELDS| && IsPart(a, DEVICE_FIELDS[j], c)
    {
      DevicePartsAre(a, |DEVICE_FIELDS|, c);
    }
    forall name | name in DEVICE_FIELDS && Asked(a, name)
      ensures RowIs(name, Eq, Txt(a.fields[name])) in parts
    {
      var j :| 0 <= j < |DEVICE_FIELDS| && DEVICE_FIELDS[j] == name;
      assert IsPart(a, DEVICE_FIELDS[j], RowIs(name, Eq, Txt(a.fields[name])));
    }
    if DeviceFits(a, row) {
      forall c | c in parts
        ensures Eval(c, r, row) == Yes
      {
        var j :| 0 <= j < |DEVICE_FIELDS| && IsPart(a, DEVICE_FIELDS[j], c);
        assert DEVICE_FIELDS[j] in DEVICE_FIELDS;
      }
    } else {
      var name :| name in DEVICE_FIELDS && Asked(a, name) && !(name in row && row[name] == Txt(a.fields[name]));
      assert Eval(RowIs(name, Eq, Txt(a.fields[name])), r, row) != Yes;
    }
  }

  lemma DeviceFieldsAre(name: string)
    ensures
      name in DEVICE_FIELDS <==>
      || name == "bus" || name == "driver" || name == "vendor_id" || name == "device_id" || name == "subsys_vendor_id"
      || name == "subsys_device_id" || name == "description" || name == "type"
  {
    assert DEVICE_FIELDS[0] == "bus" && DEVICE_FIELDS[1] == "driver" && DEVICE_FIELDS[2] == "vendor_id";
    assert DEVICE_FIELDS[3] == "device_id" && DEVICE_FIELDS[4] == "subsys_vendor_id";
    assert DEVICE_FIELDS[5] == "subsys_device_id" && DEVICE_FIELDS[6] == "description" && DEVICE_FIELDS[7] == "type";
  }

  lemma DeviceClauseWhen(a: Attr)
    ensures DeviceClause(a).Some? <==> exists name :: name in DEVICE_FIELDS && Asked(a, name)
  {
    var parts := DeviceParts(a, |DEVICE_FIELDS|);
    if parts != [] {
      DevicePartsAre(a, |DEVICE_FIELDS|, parts[0]);
      var j :| 0 <= j < |DEVICE_FIELDS| && IsPart(a, DEVICE_FIELDS[j], parts[0]);
      assert DEVICE_FIELDS[j] in DEVICE_FIELDS;
    }
    if name :| name in DEVICE_FIELDS && Asked(a, name) {
      var j :| 0 <= j < |DEVICE_FIELDS| && DEVICE_FIELDS[j] == name;
      DevicePartsAre(a, |DEVICE_FIELDS|, RowIs(name, Eq, Txt(a.fields[name])));
    }
  }

  ghost predicate SomeDevice(a: Attr, r: Record) {
    exists i :: 0 <= i < |RowsOf(r, Devices)| && DeviceFits(a, RowsOf(r, Devices)[i])
  }

  /** A device element asks for one device with all the given attributes, or for the lack of any such device. */
  lemma DeviceMeans(a: Attr, catalog: Catalog, r: Record)
    ensures
      var n := Node(Device, a, []);
      && (Contributes(n, catalog) <==> exists name :: name in DEVICE_FIELDS && Asked(a, name))
      && (Contributes(n, catalog) ==> Reading(n, catalog, r) == Truly(a.op != Ne <==> SomeDevice(a, r)))
  {
    DeviceClauseWhen(a);
    var each := AllOf(DeviceParts(a, |DEVICE_FIELDS|));
    forall i | 0 <= i < |RowsOf(r, Devices)|
      ensures Eval(each, r, RowsOf(r, Devices)[i]) == Yes <==> DeviceFits(a, RowsOf(r, Devices)[i])
    {
      DevicePartsMean(a, r, RowsOf(r, Devices)[i]);
    }
    assert Eval(Any(Devices, each), r, map[]) == Truly(SomeDevice(a, r));
  }

  /** A time of day compared with a date: by whole days, except that `<=` reaches only to the start of the day. */
  predicate ComparesDay(op: Op, seconds: int, day: int) {
    if op == Le then seconds <= day * SECONDS_A_DAY else Compare(op, Num(seconds / SECONDS_A_DAY), Num(day))
  }

  /**
   So a date compares by whole days in all cases but one: `<=` leaves out the day itself after its first second.
   */
  lemma ComparesWholeDaysUnless(op: Op, seconds: int, day: int)
    ensures
      (ComparesDay(op, seconds, day) <==> Compare(op, Num(seconds / SECONDS_A_DAY), Num(day))) <==>
      !(op == Le && seconds / SECONDS_A_DAY == day && seconds > day * SECONDS_A_DAY)
  {
    assert seconds / SECONDS_A_DAY < day ==> seconds < day * SECONDS_A_DAY;
    assert seconds / SECONDS_A_DAY > day ==> seconds > day * SECONDS_A_DAY;
  }

  /** An instance: the second second of a day is not `<=` that day. */
  lemma SecondSecondIsLater(day: int)
    ensures
      var seconds := day * SECONDS_A_DAY + 1;
      seconds / SECONDS_A_DAY == day && !ComparesDay(Le, seconds, day)
  {
  }

  /** A day has 24 hours of 60 minutes of 60 seconds. */
  lemma SecondsOfADay()
    ensures SECONDS_A_DAY == 24 * 60 * 60
  {
  }

  lemma DateMeans(op: Op, col: Column, day: int, r: Record, seconds: int)
    requires col in r.cols ==> r.cols[col] == Num(seconds)
    ensures Eval(DateClause(op, col, day), r, map[]) ==
      if col in r.cols then Truly(ComparesDay(op, seconds, day)) else Unknown
  {
    var start := day * SECONDS_A_DAY;
    var (from, to) := (ColumnIs(col, Ge, Num(start)), ColumnIs(col, Le, Num(start + SECONDS_A_DAY - 1)));
    var c := AllOf([from, to]);
    assert EvalAll(c, 0, r, map[]) == Yes;
    assert EvalAll(c, 1, r, map[]) == Both(Yes, Eval(from, r, map[]));
    assert EvalAll(c, 2, r, map[]) == Both(EvalAll(c, 1, r, map[]), Eval(to, r, map[]));
    assert start <= seconds < start + SECONDS_A_DAY <==> seconds / SECONDS_A_DAY == day;
  }

  /** An inventory element compares the time of the inventory with its date; without one, it asks if there was any. */
  lemma LastInventoriedMeans(a: Attr, catalog: Catalog, r: Record, seconds: int)
    requires OwnColumn("date_lastcheckin") in r.cols ==> r.cols[OwnColumn("date_lastcheckin")] == Num(seconds)
    ensures
      var yes := Reading(Node(LastInventoried, a, []), catalog, r) == Yes;
      if OwnColumn("date_lastcheckin") !in r.cols then yes <==> a.number.None? && a.op == Eq
      else if a.number.None? then yes <==> a.op != Eq
      else yes <==> ComparesDay(a.op, seconds, a.number.value)
  {
    if a.number.Some? {
      DateMeans(a.op, OwnColumn("date_lastcheckin"), a.number.value, r, seconds);
    }
  }

  /** The system has a row that excludes the family, or the version of it if one is given, on the architecture. */
  ghost predicate Excludes(r: Record, coll: Collection, arch: string, major: string, minor: Option<string>) {
    exists i :: 0 <= i < |RowsOf(r, coll)| && ExcludedRow(RowsOf(r, coll)[i], arch, major, minor)
  }

  predicate ExcludedRow(row: Row, arch: string, major: string, minor: Option<string>) {
    && "osmajor" in row && row["osmajor"] == Txt(major) && "arch" in row && row["arch"] == Txt(arch)
    && (minor.Some? ==> "osminor" in row && row["osminor"] == Txt(minor.value))
  }

  lemma ExclusionsMean(
      parts: seq<Clause>, coll: Collection, arch: string, major: string, minor: Option<string>, r: Record)
    requires
      var (onMajor, onArch) := (RowIs("osmajor", Eq, Txt(major)), RowIs("arch", Eq, Txt(arch)));
      parts == if minor.Some? then [onMajor, RowIs("osminor", Eq, Txt(minor.value)), onArch] else [onMajor, onArch]
    ensures Eval(Any(coll, AllOf(parts)), r, map[]) == Truly(Excludes(r, coll, arch, major, minor))
  {
    forall row: Row
      ensures Eval(AllOf(parts), r, row) == Yes <==> ExcludedRow(row, arch, major, minor)
    {
      AllYes(parts, r, row);
      assert parts[0] in parts && parts[1] in parts && parts[|parts| - 1] in parts;
    }
  }

  lemma OneAndNeither(p: Clause, q1: Clause, q2: Clause, r: Record, b: bool, b1: bool, b2: bool)
    requires Eval(p, r, map[]) == Truly(b) && Eval(q1, r, map[]) == Truly(b1) && Eval(q2, r, map[]) == Truly(b2)
    ensures Eval(AllOf([p, Negation(q1), Negation(q2)]), r, map[]) == Truly(b && !b1 && !b2)
  {
    var c := AllOf([p, Negation(q1), Negation(q2)]);
    assert EvalAll(c, 0, r, map[]) == Yes;
    assert EvalAll(c, 1, r, map[]) == Both(Yes, Eval(p, r, map[]));
    assert EvalAll(c, 2, r, map[]) == Both(EvalAll(c, 1, r, map[]), Negate(Eval(q1, r, map[])));
    assert EvalAll(c, 3, r, map[]) == Both(EvalAll(c, 2, r, map[]), Negate(Eval(q2, r, map[])));
  }

  function MinorOf(a: Attr): Option<string> {
    if Asked(a, "osminor") then Some(a.fields["osminor"]) else None
  }

  predicate NamesDistro(a: Attr, catalog: Catalog) {
    "arch" in a.fields && a.fields["arch"] in catalog.arches && Asked(a, "osmajor")
  }

  ghost predicate IsCompatible(a: Attr, r: Record)
    requires "arch" in a.fields && "osmajor" in a.fields
  {
    && SomeRow(r, Arches, "name", Txt(a.fields["arch"]))
    && !Excludes(r, ExcludedMajors, a.fields["arch"], a.fields["osmajor"], None)
    && !Excludes(r, ExcludedVersions, a.fields["arch"], a.fields["osmajor"], MinorOf(a))
  }

  /**
   A compatible system supports the architecture and excludes neither the family nor the version; if no version is
   given, no version of the family at all. An unknown architecture or a missing family matches no system.
   */
  lemma CompatibleMeans(a: Attr, catalog: Catalog, r: Record)
    ensures
      Eval(CompatibleClause(a, catalog), r, map[]) == Truly(NamesDistro(a, catalog) && IsCompatible(a, r))
  {
    if !NamesDistro(a, catalog) {
      assert EvalAny(FALSE_CLAUSE, 0, r, map[]) == No;
    } else {
      var (arch, major, minor) := (a.fields["arch"], a.fields["osmajor"], MinorOf(a));
      var (onArch, onMajor) := (RowIs("arch", Eq, Txt(arch)), RowIs("osmajor", Eq, Txt(major)));
      var onVersion :=
        if minor.Some? then [onMajor, RowIs("osminor", Eq, Txt(minor.value)), onArch] else [onMajor, onArch];
      RowsWith(r, Arches, "name", Txt(arch));
      ExclusionsMean([onMajor, onArch], ExcludedMajors, arch, major, None, r);
      ExclusionsMean(onVersion, ExcludedVersions, arch, major, minor, r);
      OneAndNeither(
        Any(Arches, RowIs("name", Eq, Txt(arch))), Any(ExcludedMajors, AllOf([onMajor, onArch])),
        Any(ExcludedVersions, AllOf(onVersion)), r, SomeRow(r, Arches, "name", Txt(arch)),
        Excludes(r, ExcludedMajors, arch, major, None), Excludes(r, ExcludedVersions, arch, major, minor));
    }
  }

  /* Elements with an unknown tag */

  ghost predicate AllTrue(kids: seq<Node>, catalog: Catalog, r: Record) {
    forall k :: k in kids && Contributes(k, catalog) ==> Reading(k, catalog, r) == Yes
  }

  ghost predicate SomeNeeds(kids: seq<Node>, catalog: Catalog, rel: Rel) {
    exists k :: k in kids && NeedsRel(k, catalog, rel)
  }

  ghost predicate AllMatch(kids: seq<Node>, f: Flavor, fqdn: string) {
    forall k :: k in kids ==> Matches(k, f, fqdn)
  }

  lemma ConjunctionIsTrue(n: Node, catalog: Catalog, r: Record)
    requires IsConjunction(n.cls) && n.cls != Disk
    ensures (Contributes(n, catalog) ==> Reading(n, catalog, r) == Yes) <==> AllTrue(n.kids, catalog, r)
  {
    assert AllTrue(n.kids, catalog, r) <==>
      forall i :: 0 <= i < |n.kids| && Contributes(n.kids[i], catalog) ==> Reading(n.kids[i], catalog, r) == Yes;
  }

  lemma ConjunctionNeeds(n: Node, catalog: Catalog, rel: Rel)
    requires IsConjunction(n.cls) && n.cls != Disk
    ensures NeedsRel(n, catalog, rel) <==> SomeNeeds(n.kids, catalog, rel)
  {
    if SomeNeeds(n.kids, catalog, rel) {
      var k :| k in n.kids && NeedsRel(k, catalog, rel);
      var i :| 0 <= i < |n.kids| && n.kids[i] == k;
      assert NeedsRel(n.kids[i], catalog, rel);
    }
  }

  lemma ConjunctionMatches(n: Node, f: Flavor, fqdn: string)
    requires IsConjunction(n.cls)
    ensures Matches(n, f, fqdn) <==> AllMatch(n.kids, f, fqdn) && (n.cls == Host ==> f.disk >= 10)
  {
    assert AllMatch(n.kids, f, fqdn) <==> forall i :: 0 <= i < |n.kids| ==> Matches(n.kids[i], f, fqdn);
  }

  /** Replacing an unrecognised element by its children keeps what its list of siblings asks for. */
  lemma FlattenedSiblings(
      before: seq<Node>, unknown: Node, after: seq<Node>, catalog: Catalog, r: Record, rel: Rel, f: Flavor,
      fqdn: string)
    requires unknown.cls == And
    ensures
      var (nested, flat) := (before + [unknown] + after, before + unknown.kids + after);
      && (AllTrue(nested, catalog, r) <==> AllTrue(flat, catalog, r))
      && (SomeNeeds(nested, catalog, rel) <==> SomeNeeds(flat, catalog, rel))
      && (AllMatch(nested, f, fqdn) <==> AllMatch(flat, f, fqdn))
  {
    var (nested, flat) := (before + [unknown] + after, before + unknown.kids + after);
    assert forall k :: k in nested <==> k in before || k == unknown || k in after;
    assert forall k :: k in flat <==> k in before || k in unknown.kids || k in after;
    ConjunctionIsTrue(unknown, catalog, r);
    ConjunctionNeeds(unknown, catalog, rel);
    ConjunctionMatches(unknown, f, fqdn);
  }

  /**
   Valid elements inside an unrecognised one are not ignored: in a conjunction, an unrecognised element can be replaced
   by its children, both for the inventory and for OpenStack.
   */
  lemma UnrecognisedIsTransparent(
      c: Class, a: Attr, before: seq<Node>, unknown: Node, after: seq<Node>, catalog: Catalog, r: Record, f: Flavor,
      fqdn: string)
    requires IsConjunction(c) && c != Disk && unknown.cls == And
    ensures
      var nested := Node(c, a, before + [unknown] + after);
      var flat := Node(c, a, before + unknown.kids + after);
      && (Selected(nested, catalog, r) <==> Selected(flat, catalog, r))
      && (Matches(nested, f, fqdn) <==> Matches(flat, f, fqdn))
  {
    var nested := Node(c, a, before + [unknown] + after);
    var flat := Node(c, a, before + unknown.kids + after);
    forall rel
      ensures NeedsRel(nested, catalog, rel) <==> NeedsRel(flat, catalog, rel)
    {
      FlattenedSiblings(before, unknown, after, catalog, r, rel, f, fqdn);
      ConjunctionNeeds(nested, catalog, rel);
      ConjunctionNeeds(flat, catalog, rel);
    }
    FlattenedSiblings(before, unknown, after, catalog, r, CpuRel, f, fqdn);
    ConjunctionIsTrue(nested, catalog, r);
    ConjunctionIsTrue(flat, catalog, r);
    CompilationPreservesMeaning(nested, catalog, r);
    CompilationPreservesMeaning(flat, catalog, r);
    ConjunctionMatches(nested, f, fqdn);
    ConjunctionMatches(flat, f, fqdn);
  }

  lemma WrapEachAppend(es: seq<Element>, more: seq<Element>, scope: Scope)
    ensures WrapEach(es + more, scope) == WrapEach(es, scope) + WrapEach(more, scope)
  {
    var (both, parts) := (WrapEach(es + more, scope), WrapEach(es, scope) + WrapEach(more, scope));
    forall i | 0 <= i < |es + more|
      ensures both[i] == parts[i]
    {
      assert (es + more)[i] == if i < |es| then es[i] else more[i - |es|];
    }
  }

  lemma KidsOf(e: Element, c: Class, scope: Scope)
    requires !IsLeaf(c)
    ensures Wrap(e, c, scope).kids == WrapEach(e.children, InnerScope(c, scope))
  {
  }

  lemma WrapsUnknown(u: Element, scope: Scope)
    requires Lookup(u.tag, scope) == And
    ensures WrapEach([u], scope) == [Wrap(u, And, scope)]
  {
  }

  /**
   So, for whole filters: an element with a tag that its table does not have may as well be replaced by its children,
   which are then looked up in the same table.
   */
  lemma UnknownTagIsTransparent(
      c: Class, scope: Scope, tag: string, a: Attr, before: seq<Element>, u: Element, after: seq<Element>,
      catalog: Catalog, r: Record, f: Flavor, fqdn: string)
    requires IsConjunction(c) && c != Disk && Lookup(u.tag, InnerScope(c, scope)) == And
    ensures
      var nested := Wrap(Element(tag, a, before + [u] + after), c, scope);
      var flat := Wrap(Element(tag, a, before + u.children + after), c, scope);
      && (Selected(nested, catalog, r) <==> Selected(flat, catalog, r))
      && (Matches(nested, f, fqdn) <==> Matches(flat, f, fqdn))
  {
    var inner := InnerScope(c, scope);
    var unknown := Wrap(u, And, inner);
    WrapEachAppend(before + [u], after, inner);
    WrapEachAppend(before, [u], inner);
    WrapsUnknown(u, inner);
    WrapEachAppend(before + u.children, after, inner);
    WrapEachAppend(before, u.children, inner);
    KidsOf(u, And, inner);
    KidsOf(Element(tag, a, before + [u] + after), c, scope);
    KidsOf(Element(tag, a, before + u.children + after), c, scope);
    UnrecognisedIsTransparent(c, a, WrapEach(before, inner), unknown, WrapEach(after, inner), catalog, r, f, fqdn);
  }

  /* The two readings of a filter on what systems and flavors have in common */

  /** The system that a flavor gives: its memory, and one single-core processor for each virtual cpu. */
  function SystemOf(f: Flavor): Record {
    Record(
      map[
        OwnColumn("memory") := Num(f.ram),
        Of(CpuRel, "processors") := Num(f.vcpus), Of(CpuRel, "cores") := Num(f.vcpus)],
      {CpuRel}, map[])
  }

  /** Only leaves that both readings know, each with a value, and no empty connective. */
  predicate Shared(n: Node) {
    if IsLeaf(n.cls) then n.cls in {Memory, Processors, Cores} && HasNumber(n.attr)
    else n.cls != Host && n.cls != Disk && n.kids != [] && forall i :: 0 <= i < |n.kids| ==> Shared(n.kids[i])
  }

  /** No `<not>` has more than one child. */
  predicate SingleNots(n: Node) {
    (n.cls == Not ==> |n.kids| <= 1) && forall i :: 0 <= i < |n.kids| ==> SingleNots(n.kids[i])
  }

  lemma SharedLeaf(c: Class, a: Attr, catalog: Catalog, f: Flavor, fqdn: string)
    requires c in {Memory, Processors, Cores} && HasNumber(a)
    ensures LeafClause(c, a, catalog).Some?
    ensures Eval(LeafClause(c, a, catalog).value, SystemOf(f), map[]) == Truly(LeafMatches(c, a, f, fqdn))
  {
  }

  lemma DefiniteKids(n: Node, catalog: Catalog, r: Record)
    requires !IsLeaf(n.cls) && n.cls != Disk
    requires forall i :: 0 <= i < |n.kids| ==> Reading(n.kids[i], catalog, r) != Unknown
    ensures Reading(n, catalog, r) != Unknown
  {
  }

  lemma {:induction false} SharedIsDefinite(n: Node, catalog: Catalog, f: Flavor)
    requires Shared(n)
    ensures Contributes(n, catalog) && Reading(n, catalog, SystemOf(f)) != Unknown
    decreases n
  {
    if IsLeaf(n.cls) {
      SharedLeaf(n.cls, n.attr, catalog, f, "");
    } else {
      forall i | 0 <= i < |n.kids|
        ensures Contributes(n.kids[i], catalog) && Reading(n.kids[i], catalog, SystemOf(f)) != Unknown
      {
        SharedIsDefinite(n.kids[i], catalog, f);
      }
      DefiniteKids(n, catalog, SystemOf(f));
      assert Contributes(n.kids[0], catalog);
    }
  }

  /** With at most one child in every `<not>`, a flavor satisfies the filter exactly when the system it gives does. */
  lemma {:induction false} ReadingsAgree(n: Node, catalog: Catalog, f: Flavor, fqdn: string)
    requires Shared(n) && SingleNots(n)
    ensures Reading(n, catalog, SystemOf(f)) == Truly(Matches(n, f, fqdn))
    decreases n
  {
    if IsLeaf(n.cls) {
      SharedLeaf(n.cls, n.attr, catalog, f, fqdn);
    } else {
      forall i | 0 <= i < |n.kids|
        ensures Contributes(n.kids[i], catalog)
        ensures Reading(n.kids[i], catalog, SystemOf(f)) == Truly(Matches(n.kids[i], f, fqdn))
      {
        SharedIsDefinite(n.kids[i], catalog, f);
        ReadingsAgree(n.kids[i], catalog, f, fqdn);
      }
      if n.cls == Not {
        assert n.kids == [n.kids[0]];
      }
    }
  }

  lemma KidsAgree(n: Node, catalog: Catalog, f: Flavor, fqdn: string)
    requires forall i :: 0 <= i < |n.kids| ==> Shared(n.kids[i]) && SingleNots(n.kids[i])
    ensures forall i :: 0 <= i < |n.kids| ==>
      Contributes(n.kids[i], catalog) &&
      Reading(n.kids[i], catalog, SystemOf(f)) == Truly(Matches(n.kids[i], f, fqdn))
  {
    forall i | 0 <= i < |n.kids|
      ensures Contributes(n.kids[i], catalog)
      ensures Reading(n.kids[i], catalog, SystemOf(f)) == Truly(Matches(n.kids[i], f, fqdn))
    {
      SharedIsDefinite(n.kids[i], catalog, f);
      ReadingsAgree(n.kids[i], catalog, f, fqdn);
    }
  }

  ghost predicate AllKidsMatch(n: Node, f: Flavor, fqdn: string) {
    forall i :: 0 <= i < |n.kids| ==> Matches(n.kids[i], f, fqdn)
  }

  ghost predicate NoKidMatches(n: Node, f: Flavor, fqdn: string) {
    forall i :: 0 <= i < |n.kids| ==> !Matches(n.kids[i], f, fqdn)
  }

  lemma NotMatches(n: Node, f: Flavor, fqdn: string)
    requires n.cls == Not
    ensures Matches(n, f, fqdn) <==> NoKidMatches(n, f, fqdn)
  {
  }

  lemma NotReading(n: Node, catalog: Catalog, f: Flavor, fqdn: string)
    requires n.cls == Not
    requires forall i :: 0 <= i < |n.kids| ==> Shared(n.kids[i]) && SingleNots(n.kids[i])
    ensures Reading(n, catalog, SystemOf(f)) == Truly(!AllKidsMatch(n, f, fqdn))
  {
    KidsAgree(n, catalog, f, fqdn);
  }

  /**
   A `<not>` with several children is negated as a conjunction in one reading and as a disjunction in the other: the two
   agree on a flavor exactly when all of its children match it or none does.
   */
  lemma NotReadingsAgreeIffKidsDo(n: Node, catalog: Catalog, f: Flavor, fqdn: string)
    requires n.cls == Not && n.kids != []
    requires forall i :: 0 <= i < |n.kids| ==> Shared(n.kids[i]) && SingleNots(n.kids[i])
    ensures
      Reading(n, catalog, SystemOf(f)) == Truly(Matches(n, f, fqdn)) <==>
      AllKidsMatch(n, f, fqdn) || NoKidMatches(n, f, fqdn)
  {
    NotMatches(n, f, fqdn);
    NotReading(n, catalog, f, fqdn);
    assert AllKidsMatch(n, f, fqdn) ==> Matches(n.kids[0], f, fqdn);
  }

  /** An instance: asked for neither memory nor processors, a flavor with memory only satisfies one reading alone. */
  lemma NotOfTwoDiffers(catalog: Catalog, a: Attr, f: Flavor, fqdn: string)
    requires a.op == Ge && a.number == Some(1) && f.ram == 1 && f.vcpus == 0
    ensures
      var n := Node(Not, a, [Node(Memory, a, []), Node(Processors, a, [])]);
      Reading(n, catalog, SystemOf(f)) == Yes && !Matches(n, f, fqdn)
  {
    var n := Node(Not, a, [Node(Memory, a, []), Node(Processors, a, [])]);
    NotReading(n, catalog, f, fqdn);
    assert Matches(n.kids[0], f, fqdn) && !Matches(n.kids[1], f, fqdn);
  }

  /** So for filters that both readings share, OpenStack and the inventory select alike. */
  lemma SelectedIffMatched(n: Node, catalog: Catalog, f: Flavor, fqdn: string)
    requires Shared(n) && SingleNots(n)
    ensures Selected(n, catalog, SystemOf(f)) <==> Matches(n, f, fqdn)
  {
    ReadingsAgree(n, catalog, f, fqdn);
    SharedIsDefinite(n, catalog, f);
    CompilationPreservesMeaning(n, catalog, SystemOf(f));
    forall rel | NeedsRel(n, catalog, rel)
      ensures rel == CpuRel
    {
      SharedNeedsCpuOnly(n, catalog, rel);
    }
  }

  lemma {:induction false} SharedNeedsCpuOnly(n: Node, catalog: Catalog, rel: Rel)
    requires Shared(n) && NeedsRel(n, catalog, rel)
    ensures rel == CpuRel
    decreases n
  {
    if !IsLeaf(n.cls) {
      var i :| 0 <= i < |n.kids| && NeedsRel(n.kids[i], catalog, rel);
      SharedNeedsCpuOnly(n.kids[i], catalog, rel);
    }
  }
}
