/** What the compiled query of a host filter means. */
module HostFilterMeaning {
  import opened Prelude
  import opened HostFilter
  import opened HostFilterSql

  /* The reading that the query is to have: children that give no condition are left out */

  /** Some descendant gives a condition. */
  predicate Contributes(n: Node, catalog: Catalog) {
    if IsLeaf(n.cls) then LeafClause(n.cls, n.attr, catalog).Some?
    else n.cls == Disk || exists i :: 0 <= i < |n.kids| && Contributes(n.kids[i], catalog)
  }

  /** Inside a disk element every and, or and not counts, and a leaf if it has a value. */
  predicate DiskContributes(n: Node) {
    match n.cls
    case DiskText(_) => HasText(n.attr)
    case DiskNumber(_) => HasNumber(n.attr)
    case _ => true
  }

  predicate IsDiskLeaf(n: Node) {
    n.cls.DiskText? || n.cls.DiskNumber?
  }

  function DiskLeafReading(c: Class, a: Attr, row: Row): Truth
    requires c.DiskText? || c.DiskNumber?
  {
    if c.name !in row then Unknown
    else if c.DiskText? then
      if HasText(a) then Truly(Compare(a.op, row[c.name], Txt(a.text.value))) else Unknown
    else
      if HasNumber(a) then Truly(Compare(a.op, row[c.name], Num(a.number.value))) else Unknown
  }

  function DiskReading(n: Node, row: Row): Truth {
    if IsDiskLeaf(n) then DiskLeafReading(n.cls, n.attr, row)
    else
      var no := exists i :: 0 <= i < |n.kids| && DiskContributes(n.kids[i]) && DiskReading(n.kids[i], row) == No;
      var yes := exists i :: 0 <= i < |n.kids| && DiskContributes(n.kids[i]) && DiskReading(n.kids[i], row) == Yes;
      var unknown :=
        exists i :: 0 <= i < |n.kids| && DiskContributes(n.kids[i]) && DiskReading(n.kids[i], row) == Unknown;
      Connected(n.cls, yes, no, unknown)
  }

  /** The outcome of a connective, from the outcomes that occur among its children. */
  function Connected(c: Class, yes: bool, no: bool, unknown: bool): Truth {
    if c == Or then if yes then Yes else if unknown then Unknown else No
    else if c == Not then if no then Yes else if unknown then Unknown else No
    else if no then No else if unknown then Unknown else Yes
  }

  function Reading(n: Node, catalog: Catalog, r: Record): Truth {
    if IsLeaf(n.cls) then
      match LeafClause(n.cls, n.attr, catalog)
      case None => Unknown
      case Some(c) => Eval(c, r, map[])
    else if n.cls == Disk then
      Truly(exists i :: 0 <= i < |RowsOf(r, Disks)| && DiskReading(n, RowsOf(r, Disks)[i]) == Yes)
    else
      var no :=
        exists i :: 0 <= i < |n.kids| && Contributes(n.kids[i], catalog) && Reading(n.kids[i], catalog, r) == No;
      var yes :=
        exists i :: 0 <= i < |n.kids| && Contributes(n.kids[i], catalog) && Reading(n.kids[i], catalog, r) == Yes;
      var unknown :=
        exists i :: 0 <= i < |n.kids| && Contributes(n.kids[i], catalog) && Reading(n.kids[i], catalog, r) == Unknown;
      Connected(n.cls, yes, no, unknown)
  }

  /** Some leaf, whatever its place among and, or and not, joins the relation. */
  predicate NeedsRel(n: Node, catalog: Catalog, rel: Rel) {
    if IsLeaf(n.cls) then Inner(rel) in LeafJoins(n.cls, n.attr, catalog)
    else n.cls != Disk && exists i :: 0 <= i < |n.kids| && NeedsRel(n.kids[i], catalog, rel)
  }

  /* Conjunctions and disjunctions, by the outcomes that occur among their parts */

  ghost predicate Occurs(parts: seq<Clause>, r: Record, row: Row, t: Truth) {
    exists c :: c in parts && Eval(c, r, row) == t
  }

  ghost function Outcome(c: Class, parts: seq<Clause>, r: Record, row: Row): Truth {
    Connected(c, Occurs(parts, r, row, Yes), Occurs(parts, r, row, No), Occurs(parts, r, row, Unknown))
  }

  lemma {:induction false} EvalAllPrefix(c: Clause, n: nat, r: Record, row: Row)
    requires c.AllOf? && n <= |c.parts|
    ensures EvalAll(c, n, r, row) == Outcome(And, c.parts[..n], r, row)
    decreases n
  {
    if n > 0 {
      EvalAllPrefix(c, n - 1, r, row);
      OneMorePart(c.parts[..n - 1], c.parts[n - 1], r, row);
      assert c.parts[..n] == c.parts[..n - 1] + [c.parts[n - 1]];
    }
  }

  lemma {:induction false} EvalAnyPrefix(c: Clause, n: nat, r: Record, row: Row)
    requires c.AnyOf? && n <= |c.parts|
    ensures EvalAny(c, n, r, row) == Outcome(Or, c.parts[..n], r, row)
    decreases n
  {
    if n > 0 {
      EvalAnyPrefix(c, n - 1, r, row);
      OneMorePart(c.parts[..n - 1], c.parts[n - 1], r, row);
      assert c.parts[..n] == c.parts[..n - 1] + [c.parts[n - 1]];
    }
  }

  lemma OneMorePart(parts: seq<Clause>, c: Clause, r: Record, row: Row)
    ensures forall t :: Occurs(parts + [c], r, row, t) <==> Occurs(parts, r, row, t) || Eval(c, r, row) == t
  {
    forall t
      ensures Occurs(parts + [c], r, row, t) <==> Occurs(parts, r, row, t) || Eval(c, r, row) == t
    {
      assert c in parts + [c];
      assert forall d :: d in parts + [c] <==> d in parts || d == c;
    }
  }

  /** The compiled form of a connective over clauses. */
  function ConnectedClause(c: Class, parts: seq<Clause>): Clause {
    if c == Or then AnyOf(parts) else if c == Not then Negation(AllOf(parts)) else AllOf(parts)
  }

  lemma ConnectedClauseMeans(c: Class, parts: seq<Clause>, r: Record, row: Row)
    ensures
      Eval(ConnectedClause(c, parts), r, row) == Outcome(c, parts, r, row)
  {
    assert parts[..|parts|] == parts;
    if c == Or {
      EvalAnyPrefix(AnyOf(parts), |parts|, r, row);
    } else {
      EvalAllPrefix(AllOf(parts), |parts|, r, row);
      if c == Not {
        assert Eval(Negation(AllOf(parts)), r, row) == Negate(Eval(AllOf(parts), r, row));
      }
    }
  }

  /* Disks */

  lemma {:induction false} DiskClausesAre(n: Node, k: nat, c: Clause)
    requires k <= |n.kids|
    ensures c in DiskClauses(n, k) <==> exists i :: 0 <= i < k && DiskClause(n.kids[i]) == Some(c)
    decreases k
  {
    if k > 0 {
      DiskClausesAre(n, k - 1, c);
    }
  }

  lemma {:induction false} DiskClauseMeans(n: Node, r: Record, row: Row)
    ensures DiskClause(n).Some? <==> DiskContributes(n)
    ensures DiskContributes(n) ==> Eval(DiskClause(n).value, r, row) == DiskReading(n, row)
    decreases n
  {
    if !IsDiskLeaf(n) {
      DiskKidsOccur(n, r, row);
      ConnectedClauseMeans(n.cls, DiskClauses(n, |n.kids|), r, row);
      assert DiskClause(n) == Some(ConnectedClause(n.cls, DiskClauses(n, |n.kids|)));
    }
  }

  lemma {:induction false} DiskKidsOccur(n: Node, r: Record, row: Row)
    ensures
      forall t :: Occurs(DiskClauses(n, |n.kids|), r, row, t) <==>
        exists i :: 0 <= i < |n.kids| && DiskContributes(n.kids[i]) && DiskReading(n.kids[i], row) == t
    decreases n, 0
  {
    forall i | 0 <= i < |n.kids|
      ensures DiskClause(n.kids[i]).Some? <==> DiskContributes(n.kids[i])
      ensures DiskContributes(n.kids[i]) ==> Eval(DiskClause(n.kids[i]).value, r, row) == DiskReading(n.kids[i], row)
    {
      DiskClauseMeans(n.kids[i], r, row);
    }
    forall c
      ensures c in DiskClauses(n, |n.kids|) <==> exists i :: 0 <= i < |n.kids| && DiskClause(n.kids[i]) == Some(c)
    {
      DiskClausesAre(n, |n.kids|, c);
    }
    forall t
      ensures Occurs(DiskClauses(n, |n.kids|), r, row, t) <==>
        exists i :: 0 <= i < |n.kids| && DiskContributes(n.kids[i]) && DiskReading(n.kids[i], row) == t
    {
      if i :| 0 <= i < |n.kids| && DiskContributes(n.kids[i]) && DiskReading(n.kids[i], row) == t {
        assert DiskClause(n.kids[i]).value in DiskClauses(n, |n.kids|);
      }
    }
  }

  /* Whole trees */

  lemma {:induction false} KidClausesAre(n: Node, k: nat, catalog: Catalog, c: Clause)
    requires k <= |n.kids|
    ensures c in KidClauses(n, k, catalog) <==> exists i :: 0 <= i < k && Compiled(n.kids[i], catalog) == Some(c)
    decreases k
  {
    if k > 0 {
      KidClausesAre(n, k - 1, catalog, c);
      var last := Compiled(n.kids[k - 1], catalog);
      assert KidClauses(n, k, catalog) == KidClauses(n, k - 1, catalog) + if last.Some? then [last.value] else [];
    }
  }

  lemma DiskElementMeans(n: Node, catalog: Catalog, r: Record)
    requires n.cls == Disk
    ensures Compiled(n, catalog).Some? && Eval(Compiled(n, catalog).value, r, map[]) == Reading(n, catalog, r)
  {
    var each := AllOf(DiskClauses(n, |n.kids|));
    forall row: Row
      ensures Eval(each, r, row) == DiskReading(n, row)
    {
      DiskKidsOccur(n, r, row);
      ConnectedClauseMeans(Disk, DiskClauses(n, |n.kids|), r, row);
    }
  }

  lemma ConnectiveMeans(n: Node, catalog: Catalog, r: Record)
    requires !IsLeaf(n.cls) && n.cls != Disk
    requires
      forall t :: Occurs(KidClauses(n, |n.kids|, catalog), r, map[], t) <==>
        exists i :: 0 <= i < |n.kids| && Contributes(n.kids[i], catalog) && Reading(n.kids[i], catalog, r) == t
    ensures Compiled(n, catalog).Some? ==> Eval(Compiled(n, catalog).value, r, map[]) == Reading(n, catalog, r)
  {
    ConnectedClauseMeans(n.cls, KidClauses(n, |n.kids|, catalog), r, map[]);
  }

  /** There is a condition exactly when some descendant gives one, and it means what the tree reads as. */
  lemma {:induction false} CompiledMeans(n: Node, catalog: Catalog, r: Record)
    ensures Compiled(n, catalog).Some? <==> Contributes(n, catalog)
    ensures Contributes(n, catalog) ==> Eval(Compiled(n, catalog).value, r, map[]) == Reading(n, catalog, r)
    decreases n
  {
    if n.cls == Disk {
      DiskElementMeans(n, catalog, r);
    } else if !IsLeaf(n.cls) {
      KidsOccur(n, catalog, r);
      ConnectiveMeans(n, catalog, r);
    }
  }

  lemma {:induction false} KidsOccur(n: Node, catalog: Catalog, r: Record)
    ensures KidClauses(n, |n.kids|, catalog) != [] <==> exists i :: 0 <= i < |n.kids| && Contributes(n.kids[i], catalog)
    ensures
      forall t :: Occurs(KidClauses(n, |n.kids|, catalog), r, map[], t) <==>
        exists i :: 0 <= i < |n.kids| && Contributes(n.kids[i], catalog) && Reading(n.kids[i], catalog, r) == t
    decreases n, 0
  {
    var parts := KidClauses(n, |n.kids|, catalog);
    forall i | 0 <= i < |n.kids|
      ensures Compiled(n.kids[i], catalog).Some? <==> Contributes(n.kids[i], catalog)
      ensures Contributes(n.kids[i], catalog) ==>
        Eval(Compiled(n.kids[i], catalog).value, r, map[]) == Reading(n.kids[i], catalog, r)
    {
      CompiledMeans(n.kids[i], catalog, r);
    }
    forall c
      ensures c in parts <==> exists i :: 0 <= i < |n.kids| && Compiled(n.kids[i], catalog) == Some(c)
    {
      KidClausesAre(n, |n.kids|, catalog, c);
    }
    if parts != [] {
      assert parts[0] in parts;
    }
    if i :| 0 <= i < |n.kids| && Contributes(n.kids[i], catalog) {
      assert Compiled(n.kids[i], catalog).value in parts;
    }
    forall t
      ensures Occurs(parts, r, map[], t) <==>
        exists i :: 0 <= i < |n.kids| && Contributes(n.kids[i], catalog) && Reading(n.kids[i], catalog, r) == t
    {
      if i :| 0 <= i < |n.kids| && Contributes(n.kids[i], catalog) && Reading(n.kids[i], catalog, r) == t {
        assert Compiled(n.kids[i], catalog).value in parts;
      }
    }
  }

  lemma {:induction false} KidJoinsAre(n: Node, k: nat, catalog: Catalog, j: Join)
    requires k <= |n.kids|
    ensures j in KidJoins(n, k, catalog) <==> exists i :: 0 <= i < k && j in JoinsOf(n.kids[i], catalog)
    decreases k
  {
    if k > 0 {
      KidJoinsAre(n, k - 1, catalog, j);
    }
  }

  lemma {:induction false} JoinsMean(n: Node, catalog: Catalog, rel: Rel)
    ensures Inner(rel) in JoinsOf(n, catalog) <==> NeedsRel(n, catalog, rel)
    decreases n
  {
    if !IsLeaf(n.cls) && n.cls != Disk {
      KidJoinsAre(n, |n.kids|, catalog, Inner(rel));
      forall i | 0 <= i < |n.kids|
        ensures Inner(rel) in JoinsOf(n.kids[i], catalog) <==> NeedsRel(n.kids[i], catalog, rel)
      {
        JoinsMean(n.kids[i], catalog, rel);
      }
    }
  }

  /**
   The query selects a record exactly when every relation joined by any leaf, whatever its boolean position, exists for
   it, and the tree, read without the children that give no condition, is true of it.
   */
  lemma CompilationPreservesMeaning(n: Node, catalog: Catalog, r: Record)
    ensures
      Selected(n, catalog, r) <==>
      && (forall rel :: NeedsRel(n, catalog, rel) ==> rel in r.rels)
      && (Contributes(n, catalog) ==> Reading(n, catalog, r) == Yes)
  {
    CompiledMeans(n, catalog, r);
    forall rel
      ensures Inner(rel) in JoinsOf(n, catalog) <==> NeedsRel(n, catalog, rel)
    {
      JoinsMean(n, catalog, rel);
    }
  }
}
