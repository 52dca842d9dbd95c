/**
 CSV export and import of a system's install options: a tree of architectures, families and updates is flattened into
 rows, and rows are read back into a tree whose missing parents are made on demand.
 */
module CsvInstall {
  import opened Prelude

  /** The three option strings of a node; a column never written is None. */
  datatype Options = Options(ksMeta: Option<string>, kernelOptions: Option<string>, kernelOptionsPost: Option<string>)

  const BLANK := Options(None, None, None)

  datatype FamilyNode = FamilyNode(options: Options, updates: map<string, Options>)

  datatype ArchNode = ArchNode(options: Options, families: map<string, FamilyNode>)

  type Provisions = map<string, ArchNode>

  /** The place of a node in the tree. */
  datatype Address =
    | AtArch(arch: string)
    | AtFamily(arch: string, family: string)
    | AtUpdate(arch: string, family: string, update: string)

  /** The names that the database can look up. */
  datatype Catalog = Catalog(arches: set<string>, families: set<string>, updates: set<(string, string)>)

  /** One CSV row; a column that the file does not have is None. */
  datatype Row = Row(
    arch: Option<string>, family: Option<string>, update: Option<string>,
    ksMeta: Option<string>, kernelOptions: Option<string>, kernelOptionsPost: Option<string>)

  datatype Field = KsMeta | KernelOptions | KernelOptionsPost

  datatype Activity = Changed(field: Field, where: Address, was: Option<string>, now: string)

  /* The tree, by address */

  function LookupAt(p: Provisions, a: Address): Option<Options> {
    if a.arch !in p then None
    else
      var node := p[a.arch];
      match a
      case AtArch(_) => Some(node.options)
      case AtFamily(_, f) => if f in node.families then Some(node.families[f].options) else None
      case AtUpdate(_, f, u) =>
        if f in node.families && u in node.families[f].updates then Some(node.families[f].updates[u]) else None
  }

  ghost predicate IsNode(p: Provisions, a: Address) {
    LookupAt(p, a).Some?
  }

  function ArchOrBlank(p: Provisions, arch: string): ArchNode {
    if arch in p then p[arch] else ArchNode(BLANK, map[])
  }

  function FamilyOrBlank(node: ArchNode, family: string): FamilyNode {
    if family in node.families then node.families[family] else FamilyNode(BLANK, map[])
  }

  /** The options stored at an address, or blank ones where there is no node yet. */
  function Current(p: Provisions, a: Address): Options {
    match LookupAt(p, a)
    case Some(o) => o
    case None => BLANK
  }

  /** Stores options at an address; missing parents are made with blank options. */
  function Place(p: Provisions, a: Address, o: Options): Provisions {
    var node := ArchOrBlank(p, a.arch);
    match a
    case AtArch(arch) => p[arch := node.(options := o)]
    case AtFamily(arch, f) => p[arch := node.(families := node.families[f := FamilyOrBlank(node, f).(options := o)])]
    case AtUpdate(arch, f, u) =>
      var fam := FamilyOrBlank(node, f);
      p[arch := node.(families := node.families[f := fam.(updates := fam.updates[u := o])])]
  }

  predicate IsParent(parent: Address, a: Address) {
    parent.arch == a.arch && match parent
      case AtArch(_) => !a.AtArch?
      case AtFamily(_, f) => a.AtUpdate? && a.family == f
      case AtUpdate(_, _, _) => false
  }

  lemma PlacedAt(p: Provisions, a: Address, o: Options, b: Address)
    ensures
      LookupAt(Place(p, a, o), b) ==
      if b == a then Some(o)
      else if IsParent(b, a) && !IsNode(p, b) then Some(BLANK)
      else LookupAt(p, b)
  {
  }

  lemma SameTree(p: Provisions, q: Provisions)
    requires forall a :: LookupAt(p, a) == LookupAt(q, a)
    ensures p == q
  {
    forall arch
      ensures arch in p <==> arch in q
      ensures arch in p && arch in q ==> p[arch] == q[arch]
    {
      assert LookupAt(p, AtArch(arch)) == LookupAt(q, AtArch(arch));
      if arch in p && arch in q {
        var (m, n) := (p[arch].families, q[arch].families);
        forall f
          ensures f in m <==> f in n
          ensures f in m && f in n ==> m[f] == n[f]
        {
          assert LookupAt(p, AtFamily(arch, f)) == LookupAt(q, AtFamily(arch, f));
          if f in m && f in n {
            assert forall u :: LookupAt(p, AtUpdate(arch, f, u)) == LookupAt(q, AtUpdate(arch, f, u));
            SameUpdates(p, q, arch, f);
          }
        }
        assert m == n;
      }
    }
  }

  lemma SameUpdates(p: Provisions, q: Provisions, arch: string, f: string)
    requires arch in p && arch in q && f in p[arch].families && f in q[arch].families
    requires forall u :: LookupAt(p, AtUpdate(arch, f, u)) == LookupAt(q, AtUpdate(arch, f, u))
    ensures p[arch].families[f].updates == q[arch].families[f].updates
  {
    var (m, n) := (p[arch].families[f].updates, q[arch].families[f].updates);
    forall u
      ensures u in m <==> u in n
      ensures u in m && u in n ==> m[u] == n[u]
    {
      assert LookupAt(p, AtUpdate(arch, f, u)) == LookupAt(q, AtUpdate(arch, f, u));
    }
  }

  /* Importing */

  predicate Given(column: Option<string>) {
    column.Some? && column.value != ""
  }

  /** The node that a row is about; None when a name is unknown, or an update comes without its family. */
  function Resolve(row: Row, catalog: Catalog): Option<Address> {
    if row.arch.None? || row.arch.value !in catalog.arches then None
    else if Given(row.family) && row.family.value !in catalog.families then None
    else if Given(row.update) then
      if Given(row.family) && (row.family.value, row.update.value) in catalog.updates
      then Some(AtUpdate(row.arch.value, row.family.value, row.update.value)) else None
    else if Given(row.family) then Some(AtFamily(row.arch.value, row.family.value))
    else Some(AtArch(row.arch.value))
  }

  function Overwritten(was: Option<string>, column: Option<string>): Option<string> {
    if column.Some? then column else was
  }

  function WithRow(o: Options, row: Row): Options {
    Options(
      Overwritten(o.ksMeta, row.ksMeta),
      Overwritten(o.kernelOptions, row.kernelOptions),
      Overwritten(o.kernelOptionsPost, row.kernelOptionsPost))
  }

  function FieldChange(field: Field, where: Address, was: Option<string>, column: Option<string>): seq<Activity> {
    if column.Some? && was != column then [Changed(field, where, was, column.value)] else []
  }

  function Changes(o: Options, row: Row, where: Address): seq<Activity> {
    FieldChange(KsMeta, where, o.ksMeta, row.ksMeta) +
    FieldChange(KernelOptions, where, o.kernelOptions, row.kernelOptions) +
    FieldChange(KernelOptionsPost, where, o.kernelOptionsPost, row.kernelOptionsPost)
  }

  /** The provisions and the activity log after one row. */
  function Imported(p: Provisions, log: seq<Activity>, row: Row, catalog: Catalog): (Provisions, seq<Activity>) {
    match Resolve(row, catalog)
    case None => (p, log)
    case Some(a) => (Place(p, a, WithRow(Current(p, a), row)), log + Changes(Current(p, a), row, a))
  }

  function ImportedAll(p: Provisions, log: seq<Activity>, rows: seq<Row>, catalog: Catalog): (Provisions, seq<Activity>)
    decreases |rows|
  {
    if rows == [] then (p, log)
    else
      var (p', log') := ImportedAll(p, log, rows[..|rows| - 1], catalog);
      Imported(p', log', rows[|rows| - 1], catalog)
  }

  /* What one row does, column by column */

  function Column(o: Options, f: Field): Option<string> {
    match f
    case KsMeta => o.ksMeta
    case KernelOptions => o.kernelOptions
    case KernelOptionsPost => o.kernelOptionsPost
  }

  function RowColumn(row: Row, f: Field): Option<string> {
    match f
    case KsMeta => row.ksMeta
    case KernelOptions => row.kernelOptions
    case KernelOptionsPost => row.kernelOptionsPost
  }

  predicate Missing(column: Option<string>) {
    column == None || column == Some("")
  }

  /** The row names the node: all of its names can be looked up, and what is not part of it is missing or empty. */
  predicate Names(row: Row, catalog: Catalog, a: Address) {
    && row.arch == Some(a.arch) && a.arch in catalog.arches
    && match a
      case AtArch(_) => Missing(row.family) && Missing(row.update)
      case AtFamily(_, f) => f != "" && row.family == Some(f) && f in catalog.families && Missing(row.update)
      case AtUpdate(_, f, u) =>
        && f != "" && row.family == Some(f) && f in catalog.families
        && u != "" && row.update == Some(u) && (f, u) in catalog.updates
  }

  lemma ResolvesIffNames(row: Row, catalog: Catalog, a: Address)
    ensures Resolve(row, catalog) == Some(a) <==> Names(row, catalog, a)
  {
  }

  /**
   A row that names a node writes the columns that it has, even empty ones; the columns that the file does not have stay
   as they were, or are unset if the node is new. Nodes that nothing names only come into being as parents.
   */
  lemma RowWritesColumns(p: Provisions, log: seq<Activity>, row: Row, catalog: Catalog, a: Address, f: Field)
    requires Names(row, catalog, a)
    ensures
      var q := Imported(p, log, row, catalog).0;
      && IsNode(q, a)
      && Column(Current(q, a), f) ==
        (if RowColumn(row, f).Some? then RowColumn(row, f)
         else if IsNode(p, a) then Column(LookupAt(p, a).value, f) else None)
      && forall b :: b != a ==>
        LookupAt(q, b) == if IsParent(b, a) && !IsNode(p, b) then Some(BLANK) else LookupAt(p, b)
  {
    ResolvesIffNames(row, catalog, a);
    var o := WithRow(Current(p, a), row);
    assert Imported(p, log, row, catalog).0 == Place(p, a, o);
    forall b
      ensures LookupAt(Place(p, a, o), b) ==
        if b == a then Some(o)
        else if IsParent(b, a) && !IsNode(p, b) then Some(BLANK)
        else LookupAt(p, b)
    {
      PlacedAt(p, a, o, b);
    }
  }

  /** A change is logged for exactly the columns that the row has and that differ from before. */
  lemma RowLogsChanges(
      p: Provisions, log: seq<Activity>, row: Row, catalog: Catalog, a: Address, f: Field, was: Option<string>,
      now: string)
    requires Names(row, catalog, a)
    ensures
      var log' := Imported(p, log, row, catalog).1;
      && log <= log'
      && (Changed(f, a, was, now) in log'[|log|..] <==>
        RowColumn(row, f) == Some(now) && Column(Current(p, a), f) == was && was != Some(now))
      && forall i, j :: |log| <= i < j < |log'| ==> log'[i].field != log'[j].field
  {
    ResolvesIffNames(row, catalog, a);
    var log' := Imported(p, log, row, catalog).1;
    assert log' == log + Changes(Current(p, a), row, a) && log'[|log|..] == Changes(Current(p, a), row, a);
  }

  /** A row that names no node changes nothing and logs nothing. */
  lemma OtherRowsAreSkipped(p: Provisions, log: seq<Activity>, row: Row, catalog: Catalog)
    requires forall a :: !Names(row, catalog, a)
    ensures Imported(p, log, row, catalog) == (p, log)
  {
    if Resolve(row, catalog).Some? {
      ResolvesIffNames(row, catalog, Resolve(row, catalog).value);
    }
  }

  class System {
    const catalog: Catalog
    var provisions: Provisions
    var activity: seq<Activity>

    constructor (catalog: Catalog)
      ensures this.catalog == catalog && provisions == map[] && activity == []
    {
      this.catalog := catalog;
      provisions, activity := map[], [];
    }

    method WriteField(field: Field, where: Address, was: Option<string>, column: Option<string>)
      returns (now: Option<string>)
      modifies this`activity
      ensures now == Overwritten(was, column)
      ensures activity == old(activity) + FieldChange(field, where, was, column)
    {
      now := was;
      if column.Some? && was != column {
        activity := activity + [Changed(field, where, was, column.value)];
        now := column;
      }
    }

    method ImportRow(row: Row) returns (ok: bool)
      modifies this
      ensures (provisions, activity) == Imported(old(provisions), old(activity), row, catalog)
      ensures ok == Resolve(row, catalog).Some?
    {
      if row.arch.None? || row.arch.value !in catalog.arches {
        return false;
      }
      var arch := row.arch.value;
      var hasFamily, hasUpdate := Given(row.family), Given(row.update);
      if hasFamily && row.family.value !in catalog.families {
        return false;
      }
      if hasUpdate {
        if !hasFamily || (row.family.value, row.update.value) !in catalog.updates {
          return false;
        }
      }
      // Find or make the node, and remember where it is kept.
      var where: Address;
      var node := ArchOrBlank(provisions, arch);
      var prov: Options;
      if hasUpdate {
        where := AtUpdate(arch, row.family.value, row.update.value);
        var family := FamilyOrBlank(node, row.family.value);
        prov := if row.update.value in family.updates then family.updates[row.update.value] else BLANK;
      } else if hasFamily {
        where := AtFamily(arch, row.family.value);
        prov := FamilyOrBlank(node, row.family.value).options;
      } else {
        where := AtArch(arch);
        prov := node.options;
      }
      assert prov == Current(provisions, where);
      // Write the columns that the row has, logging those that differ.
      var ksMeta := WriteField(KsMeta, where, prov.ksMeta, row.ksMeta);
      var kernelOptions := WriteField(KernelOptions, where, prov.kernelOptions, row.kernelOptions);
      var kernelOptionsPost := WriteField(KernelOptionsPost, where, prov.kernelOptionsPost, row.kernelOptionsPost);
      assert activity == old(activity) + Changes(prov, row, where);
      prov := Options(ksMeta, kernelOptions, kernelOptionsPost);
      provisions := Place(provisions, where, prov);
      ok := true;
    }

    method ImportAll(rows: seq<Row>)
      modifies this
      ensures (provisions, activity) == ImportedAll(old(provisions), old(activity), rows, catalog)
    {
      for i := 0 to |rows|
        invariant (provisions, activity) == ImportedAll(old(provisions), old(activity), rows[..i], catalog)
      {
        assert rows[..i + 1][..i] == rows[..i];
        var ok := ImportRow(rows[i]);
      }
      assert rows[..|rows|] == rows;
    }
  }

  /* Exporting */

  function TextOf(column: Option<string>): string {
    if column.Some? then column.value else ""
  }

  /** The row printed for a node. */
  function RowFor(a: Address, o: Options): Row {
    Row(
      Some(a.arch), Some(if a.AtArch? then "" else a.family), Some(if a.AtUpdate? then a.update else ""),
      Some(TextOf(o.ksMeta)), Some(TextOf(o.kernelOptions)), Some(TextOf(o.kernelOptionsPost)))
  }

  /** The rows are those of the listed nodes, in that order. */
  ghost predicate RowsOf(p: Provisions, rows: seq<Row>, nodes: seq<Address>) {
    && |rows| == |nodes|
    && forall i :: 0 <= i < |nodes| ==> IsNode(p, nodes[i]) && rows[i] == RowFor(nodes[i], Current(p, nodes[i]))
  }

  /** Each node of the tree that `wanted` picks is listed exactly once, and no other is. */
  ghost predicate ListsOnce(nodes: seq<Address>, p: Provisions, wanted: Address -> bool) {
    && (forall i, j :: 0 <= i < j < |nodes| ==> nodes[i] != nodes[j])
    && (forall a :: a in nodes <==> IsNode(p, a) && wanted(a))
  }

  /** A printed row shows each column of its node, and the empty text for one that is unset. */
  lemma RowShowsColumns(a: Address, o: Options, f: Field)
    ensures RowColumn(RowFor(a, o), f) == Some(if Column(o, f) == None then "" else Column(o, f).value)
    ensures
      var row := RowFor(a, o);
      && row.arch == Some(a.arch)
      && row.family == (match a case AtArch(_) => Some("") case _ => Some(a.family))
      && row.update == (match a case AtUpdate(_, _, update) => Some(update) case _ => Some(""))
  {
  }

  function Filled(row: Row, o: Options): Row {
    row.(ksMeta := Some(TextOf(o.ksMeta)), kernelOptions := Some(TextOf(o.kernelOptions)),
         kernelOptionsPost := Some(TextOf(o.kernelOptionsPost)))
  }

  /**
   The rows of one architecture. A single record is filled in again and again, and copied out each time; the families
   and the updates are visited in an order that the program does not fix.
   */
  method ExportArch(p: Provisions, arch: string) returns (rows: seq<Row>, ghost nodes: seq<Address>)
    requires arch in p
    ensures RowsOf(p, rows, nodes) && ListsOnce(nodes, p, (a: Address) => a.arch == arch)
  {
    var install := p[arch];
    var record := Filled(Row(Some(arch), Some(""), Some(""), None, None, None), install.options);
    rows, nodes := [record], [AtArch(arch)];
    var families := install.families.Keys;
    while families != {}
      invariant families <= install.families.Keys
      invariant record.arch == Some(arch) && record.update == Some("")
      invariant RowsOf(p, rows, nodes)
      invariant ListsOnce(nodes, p, (a: Address) => a.arch == arch && (a.AtArch? || a.family !in families))
      decreases families
    {
      var family :| family in families;
      var fam := install.families[family];
      record := Filled(record.(family := Some(family)), fam.options);
      rows, nodes := rows + [record], nodes + [AtFamily(arch, family)];
      families := families - {family};
      var updates := fam.updates.Keys;
      while updates != {}
        invariant updates <= fam.updates.Keys
        invariant record.arch == Some(arch) && record.family == Some(family)
        invariant RowsOf(p, rows, nodes)
        invariant ListsOnce(nodes, p, (a: Address) =>
          a.arch == arch &&
          (a.AtArch? || (a.family !in families && !(a.AtUpdate? && a.family == family && a.update in updates))))
        decreases updates
      {
        var update :| update in updates;
        record := Filled(record.(update := Some(update)), fam.updates[update]);
        rows, nodes := rows + [record], nodes + [AtUpdate(arch, family, update)];
        updates := updates - {update};
      }
      record := record.(update := Some(""));
    }
  }

  lemma ListsMore(p: Provisions, nodes: seq<Address>, more: seq<Address>, arches: set<string>, arch: string)
    requires ListsOnce(nodes, p, (a: Address) => a.arch !in arches) && arch in arches
    requires ListsOnce(more, p, (a: Address) => a.arch == arch)
    ensures ListsOnce(nodes + more, p, (a: Address) => a.arch !in arches - {arch})
  {
    forall i, j | 0 <= i < j < |nodes + more|
      ensures (nodes + more)[i] != (nodes + more)[j]
    {
      if i < |nodes| <= j {
        assert nodes[i] in nodes && more[j - |nodes|] in more;
      }
    }
  }

  lemma RowsOfMore(p: Provisions, rows: seq<Row>, nodes: seq<Address>, moreRows: seq<Row>, more: seq<Address>)
    requires RowsOf(p, rows, nodes) && RowsOf(p, moreRows, more)
    ensures RowsOf(p, rows + moreRows, nodes + more)
  {
  }

  method Export(p: Provisions) returns (rows: seq<Row>, ghost nodes: seq<Address>)
    ensures RowsOf(p, rows, nodes) && ListsOnce(nodes, p, (a: Address) => true)
    ensures FromTree(rows, p) && Covers(rows, p)
  {
    rows, nodes := [], [];
    var arches := p.Keys;
    while arches != {}
      invariant arches <= p.Keys
      invariant RowsOf(p, rows, nodes) && ListsOnce(nodes, p, (a: Address) => a.arch !in arches)
      decreases arches
    {
      var arch :| arch in arches;
      var more, moreNodes := ExportArch(p, arch);
      ListsMore(p, nodes, moreNodes, arches, arch);
      RowsOfMore(p, rows, nodes, more, moreNodes);
      rows, nodes := rows + more, nodes + moreNodes;
      arches := arches - {arch};
    }
    ExportCovers(p, rows, nodes);
  }

  /* Export then import */

  function Clean(o: Options): Options {
    Options(Some(TextOf(o.ksMeta)), Some(TextOf(o.kernelOptions)), Some(TextOf(o.kernelOptionsPost)))
  }

  /** The tree with every missing text replaced by the empty one. */
  function Cleaned(p: Provisions): Provisions {
    map arch | arch in p :: ArchNode(Clean(p[arch].options),
      map f | f in p[arch].families :: FamilyNode(Clean(p[arch].families[f].options),
        map u | u in p[arch].families[f].updates :: Clean(p[arch].families[f].updates[u])))
  }

  lemma CleanedAt(p: Provisions, a: Address)
    ensures LookupAt(Cleaned(p), a) == if IsNode(p, a) then Some(Clean(Current(p, a))) else None
  {
  }

  predicate HasNames(a: Address) {
    match a
    case AtArch(_) => true
    case AtFamily(_, f) => f != ""
    case AtUpdate(_, f, u) => f != "" && u != ""
  }

  /** Every family and every update of the tree has a non-empty name. */
  ghost predicate AllNamed(p: Provisions) {
    forall a :: IsNode(p, a) ==> HasNames(a)
  }

  predicate Knows(catalog: Catalog, a: Address) {
    && a.arch in catalog.arches
    && (!a.AtArch? ==> a.family in catalog.families)
    && (a.AtUpdate? ==> (a.family, a.update) in catalog.updates)
  }

  /** Every name in the tree can be looked up. */
  ghost predicate KnowsAll(catalog: Catalog, p: Provisions) {
    forall a :: IsNode(p, a) ==> Knows(catalog, a)
  }

  lemma RowFindsNode(a: Address, o: Options, catalog: Catalog)
    requires HasNames(a) && Knows(catalog, a)
    ensures Resolve(RowFor(a, o), catalog) == Some(a)
    ensures forall was :: WithRow(was, RowFor(a, o)) == Clean(o)
  {
  }

  /** All rows come from nodes of the tree. */
  ghost predicate FromTree(rows: seq<Row>, p: Provisions) {
    forall row :: row in rows ==> IsRowOf(row, p)
  }

  ghost predicate IsRowOf(row: Row, p: Provisions) {
    exists a :: IsNode(p, a) && row == RowFor(a, Current(p, a))
  }

  /** The rows cover every node of the tree, in any order, and possibly more than once. */
  ghost predicate Covers(rows: seq<Row>, p: Provisions) {
    forall a :: IsNode(p, a) ==> RowFor(a, Current(p, a)) in rows
  }

  /** Part of the way: only nodes of the tree exist, and those whose row was read have its cleaned options. */
  ghost predicate Rebuilding(q: Provisions, p: Provisions, rows: seq<Row>) {
    && (forall a :: IsNode(q, a) ==> IsNode(p, a))
    && (forall a :: IsNode(p, a) && RowFor(a, Current(p, a)) in rows ==> LookupAt(q, a) == Some(Clean(Current(p, a))))
  }

  lemma ParentIsNode(p: Provisions, parent: Address, a: Address)
    requires IsParent(parent, a) && IsNode(p, a)
    ensures IsNode(p, parent)
  {
  }

  lemma RebuildStep(q: Provisions, p: Provisions, rows: seq<Row>, b: Address, catalog: Catalog, log: seq<Activity>)
    requires Rebuilding(q, p, rows) && AllNamed(p) && KnowsAll(catalog, p) && IsNode(p, b)
    ensures
      var row := RowFor(b, Current(p, b));
      Rebuilding(Imported(q, log, row, catalog).0, p, rows + [row])
  {
    var row := RowFor(b, Current(p, b));
    var next := Imported(q, log, row, catalog).0;
    RowFindsNode(b, Current(p, b), catalog);
    assert next == Place(q, b, Clean(Current(p, b)));
    forall a
      ensures IsNode(next, a) ==> IsNode(p, a)
      ensures IsNode(p, a) && RowFor(a, Current(p, a)) in rows + [row] ==>
        LookupAt(next, a) == Some(Clean(Current(p, a)))
    {
      PlacedAt(q, b, Clean(Current(p, b)), a);
      if IsParent(a, b) {
        ParentIsNode(p, a, b);
      }
      if IsNode(p, a) && RowFor(a, Current(p, a)) == row {
        RowFindsNode(a, Current(p, a), catalog);
        assert a == b;
      }
    }
  }

  lemma {:induction false} Rebuilds(p: Provisions, rows: seq<Row>, catalog: Catalog)
    requires AllNamed(p) && KnowsAll(catalog, p) && FromTree(rows, p)
    ensures Rebuilding(ImportedAll(map[], [], rows, catalog).0, p, rows)
    decreases |rows|
  {
    if rows != [] {
      var init, last := rows[..|rows| - 1], rows[|rows| - 1];
      Rebuilds(p, init, catalog);
      assert IsRowOf(last, p);
      var b :| IsNode(p, b) && last == RowFor(b, Current(p, b));
      var (q, log) := ImportedAll(map[], [], init, catalog);
      RebuildStep(q, p, init, b, catalog, log);
      assert init + [last] == rows;
    }
  }

  /** No row can make a node with an empty family or update name. */
  lemma {:induction false} OnlyNamedNodes(rows: seq<Row>, catalog: Catalog, a: Address)
    requires !HasNames(a)
    ensures !IsNode(ImportedAll(map[], [], rows, catalog).0, a)
    decreases |rows|
  {
    if rows != [] {
      var init, last := rows[..|rows| - 1], rows[|rows| - 1];
      OnlyNamedNodes(init, catalog, a);
      var q := ImportedAll(map[], [], init, catalog).0;
      match Resolve(last, catalog)
      case None =>
      case Some(b) => PlacedAt(q, b, WithRow(Current(q, b), last), a);
    }
  }

  /**
   Importing the exported rows into a system without provisions, in any order and even repeatedly, rebuilds the cleaned
   tree exactly when no family or update of it has an empty name: such a row is taken for one of its parent.
   */
  lemma ExportThenImport(p: Provisions, rows: seq<Row>, catalog: Catalog)
    requires KnowsAll(catalog, p) && FromTree(rows, p) && Covers(rows, p)
    ensures ImportedAll(map[], [], rows, catalog).0 == Cleaned(p) <==> AllNamed(p)
  {
    var q := ImportedAll(map[], [], rows, catalog).0;
    if AllNamed(p) {
      Rebuilds(p, rows, catalog);
      forall a
        ensures LookupAt(q, a) == LookupAt(Cleaned(p), a)
      {
        CleanedAt(p, a);
      }
      SameTree(q, Cleaned(p));
    } else {
      var a :| IsNode(p, a) && !HasNames(a);
      OnlyNamedNodes(rows, catalog, a);
      CleanedAt(p, a);
    }
  }

  /** An instance: a family without a name does not come back. */
  lemma UnnamedFamilyIsLost(catalog: Catalog, rows: seq<Row>)
    requires catalog.arches == {"x86_64"} && catalog.families == {""}
    ensures
      var p: Provisions := map["x86_64" := ArchNode(BLANK, map["" := FamilyNode(BLANK, map[])])];
      FromTree(rows, p) && Covers(rows, p) ==> ImportedAll(map[], [], rows, catalog).0 != Cleaned(p)
  {
    var p: Provisions := map["x86_64" := ArchNode(BLANK, map["" := FamilyNode(BLANK, map[])])];
    assert IsNode(p, AtFamily("x86_64", "")) && !HasNames(AtFamily("x86_64", ""));
    if FromTree(rows, p) && Covers(rows, p) {
      ExportThenImport(p, rows, catalog);
    }
  }

  /** What `Export` produces meets the conditions of `ExportThenImport`. */
  lemma ExportCovers(p: Provisions, rows: seq<Row>, nodes: seq<Address>)
    requires RowsOf(p, rows, nodes) && ListsOnce(nodes, p, (a: Address) => true)
    ensures FromTree(rows, p) && Covers(rows, p)
  {
    forall row | row in rows
      ensures IsRowOf(row, p)
    {
      var i :| 0 <= i < |rows| && rows[i] == row;
      assert IsNode(p, nodes[i]) && rows[i] == RowFor(nodes[i], Current(p, nodes[i]));
    }
    forall a | IsNode(p, a)
      ensures RowFor(a, Current(p, a)) in rows
    {
      var i :| 0 <= i < |nodes| && nodes[i] == a;
      assert rows[i] == RowFor(a, Current(p, a));
    }
  }

  lemma PlaceSame(p: Provisions, a: Address)
    requires IsNode(p, a)
    ensures Place(p, a, Current(p, a)) == p
  {
    forall b
      ensures LookupAt(Place(p, a, Current(p, a)), b) == LookupAt(p, b)
    {
      PlacedAt(p, a, Current(p, a), b);
      if IsParent(b, a) {
        ParentIsNode(p, b, a);
      }
    }
    SameTree(Place(p, a, Current(p, a)), p);
  }

  /** Importing the same rows again, in any order, changes nothing and logs nothing. */
  lemma {:induction false} ImportAgain(p: Provisions, log: seq<Activity>, rows: seq<Row>, catalog: Catalog)
    requires AllNamed(p) && KnowsAll(catalog, p) && FromTree(rows, p)
    ensures ImportedAll(Cleaned(p), log, rows, catalog) == (Cleaned(p), log)
    decreases |rows|
  {
    if rows != [] {
      var init, last := rows[..|rows| - 1], rows[|rows| - 1];
      ImportAgain(p, log, init, catalog);
      assert IsRowOf(last, p);
      var b :| IsNode(p, b) && last == RowFor(b, Current(p, b));
      RowFindsNode(b, Current(p, b), catalog);
      CleanedAt(p, b);
      PlaceSame(Cleaned(p), b);
      assert log + Changes(Current(Cleaned(p), b), last, b) == log;
    }
  }
}
