/**
 CSV rows that add a system to a pool or take it out, and rows that exclude a distro family or one of its updates from
 it. Every row that changes a collection is recorded in the activity log.
 */
module CsvSets {
  import opened Prelude

  /* The text forms of true and false */

  /** White space as Unicode has it. */
  predicate IsBlank(c: char) {
    var n := c as int;
    || 9 <= n <= 13 || 28 <= n <= 32 || n == 0x85 || n == 0xA0 || n == 0x1680 || 0x2000 <= n <= 0x200A
    || n == 0x2028 || n == 0x2029 || n == 0x202F || n == 0x205F || n == 0x3000
  }

  lemma BlanksAre(c: char)
    ensures
      IsBlank(c) <==>
      c as int in {
        9, 10, 11, 12, 13, 28, 29, 30, 31, 32, 0x85, 0xA0, 0x1680, 0x2000, 0x2001, 0x2002, 0x2003, 0x2004, 0x2005,
        0x2006, 0x2007, 0x2008, 0x2009, 0x200A, 0x2028, 0x2029, 0x202F, 0x205F, 0x3000
      }
  {
  }

  function StripLeft(s: string): string {
    if s != "" && IsBlank(s[0]) then StripLeft(s[1..]) else s
  }

  function StripRight(s: string): string {
    if s != "" && IsBlank(s[|s| - 1]) then StripRight(s[..|s| - 1]) else s
  }

  function LowerChar(c: char): char {
    if 'A' <= c <= 'Z' then (c as int + 32) as char else c
  }

  function Lower(s: string): string {
    seq(|s|, i requires 0 <= i < |s| => LowerChar(s[i]))
  }

  datatype Flag = Truth(b: bool) | Word(s: string)

  /** Text that does not spell a truth value is kept as it is. */
  function SmartBool(s: string): Flag {
    var t := Lower(StripRight(StripLeft(s)));
    if t == "true" then Truth(true) else if t == "false" then Truth(false) else Word(s)
  }

  /** Python's truth value: any non-empty text counts as true. */
  predicate IsTruthy(f: Flag) {
    match f
    case Truth(b) => b
    case Word(s) => s != ""
  }

  /** A `deleted` column asks for deletion unless it is empty or spells false: `no` and `0` delete. */
  lemma DeletesUnlessFalse(s: string)
    ensures IsTruthy(SmartBool(s)) <==> s != "" && Lower(StripRight(StripLeft(s))) != "false"
  {
    if s == "" {
      assert Lower("") == "";
    } else if SmartBool(s).Truth? {
      assert "true" != "false";
    }
  }

  /* Collections and their log */

  datatype Activity<T> = Added(item: T) | Removed(item: T)

  /** What one row asks for: that the item be present, or that it be absent. */
  datatype Effect<T> = Effect(item: T, present: bool)

  function Copies<T>(a: T, n: nat): seq<T> {
    if n == 0 then [] else Copies(a, n - 1) + [a]
  }

  /** An item is added only when absent; taking it out removes, and logs, every occurrence of it. */
  function Apply<T>(ms: multiset<T>, log: seq<Activity<T>>, e: Effect<T>): (multiset<T>, seq<Activity<T>>) {
    if e.present then
      if e.item in ms then (ms, log) else (ms[e.item := 1], log + [Added(e.item)])
    else (ms[e.item := 0], log + Copies(Removed(e.item), ms[e.item]))
  }

  function ApplyAll<T>(ms: multiset<T>, log: seq<Activity<T>>, es: seq<Effect<T>>): (multiset<T>, seq<Activity<T>>)
    decreases |es|
  {
    if es == [] then (ms, log)
    else
      var (ms', log') := ApplyAll(ms, log, es[..|es| - 1]);
      Apply(ms', log', es[|es| - 1])
  }

  /** What the last row naming the item asked for. */
  function LastWord<T(==)>(es: seq<Effect<T>>, item: T): Option<bool>
    decreases |es|
  {
    if es == [] then None
    else if es[|es| - 1].item == item then Some(es[|es| - 1].present)
    else LastWord(es[..|es| - 1], item)
  }

  /** Whether an item is in the collection is decided by the last row naming it, or else by the initial state. */
  lemma {:induction false} LastWriterWins<T>(ms: multiset<T>, log: seq<Activity<T>>, es: seq<Effect<T>>, item: T)
    ensures
      item in ApplyAll(ms, log, es).0 <==>
      match LastWord(es, item) case None => item in ms case Some(present) => present
    decreases |es|
  {
    if es != [] {
      LastWriterWins(ms, log, es[..|es| - 1], item);
    }
  }

  /** Replays a log; it fails on an addition of something present and on a removal of something absent. */
  function Replay<T>(ms: multiset<T>, log: seq<Activity<T>>): Option<multiset<T>>
    decreases |log|
  {
    if log == [] then Some(ms)
    else
      match Replay(ms, log[..|log| - 1])
      case None => None
      case Some(before) =>
        match log[|log| - 1]
        case Added(x) => if x in before then None else Some(before[x := 1])
        case Removed(x) => if x in before then Some(before[x := before[x] - 1]) else None
  }

  lemma ReplayOneMore<T>(ms: multiset<T>, log: seq<Activity<T>>, before: multiset<T>, a: Activity<T>)
    requires Replay(ms, log) == Some(before)
    ensures
      Replay(ms, log + [a]) ==
      match a
      case Added(x) => if x in before then None else Some(before[x := 1])
      case Removed(x) => if x in before then Some(before[x := before[x] - 1]) else None
  {
    assert (log + [a])[..|log|] == log;
  }

  lemma UpdateSame<T>(ms: multiset<T>, x: T)
    ensures ms[x := ms[x]] == ms
  {
  }

  lemma UpdateTwice<T>(ms: multiset<T>, x: T, m: nat, n: nat)
    ensures ms[x := m][x := n] == ms[x := n]
  {
  }

  lemma RemovalStep<T>(ms: multiset<T>, log: seq<Activity<T>>, before: multiset<T>, x: T, n: nat)
    requires 0 < n <= before[x] && Replay(ms, log) == Some(before[x := before[x] - (n - 1)])
    ensures Replay(ms, log + [Removed(x)]) == Some(before[x := before[x] - n])
  {
    ReplayOneMore(ms, log, before[x := before[x] - (n - 1)], Removed(x));
    UpdateTwice(before, x, before[x] - (n - 1), before[x] - n);
  }

  lemma {:induction false} ReplayRemovals<T>(ms: multiset<T>, log: seq<Activity<T>>, before: multiset<T>, x: T, n: nat)
    requires Replay(ms, log) == Some(before) && n <= before[x]
    ensures Replay(ms, log + Copies(Removed(x), n)) == Some(before[x := before[x] - n])
    decreases n
  {
    if n == 0 {
      assert log + Copies(Removed(x), 0) == log;
      UpdateSame(before, x);
    } else {
      ReplayRemovals(ms, log, before, x, n - 1);
      var shorter := log + Copies(Removed(x), n - 1);
      RemovalStep(ms, shorter, before, x, n);
      assert log + Copies(Removed(x), n) == shorter + [Removed(x)];
    }
  }

  /** The log is faithful: replayed from the initial state it never fails, and ends in the final state. */
  lemma {:induction false} LogReplays<T>(ms: multiset<T>, es: seq<Effect<T>>)
    ensures
      var (final, log) := ApplyAll(ms, [], es);
      Replay(ms, log) == Some(final)
    decreases |es|
  {
    if es != [] {
      LogReplays(ms, es[..|es| - 1]);
      var (before, log) := ApplyAll(ms, [], es[..|es| - 1]);
      var e := es[|es| - 1];
      if e.present {
        if e.item !in before {
          ReplayOneMore(ms, log, before, Added(e.item));
        }
      } else {
        ReplayRemovals(ms, log, before, e.item, before[e.item]);
      }
    }
  }

  /* Rows */

  datatype PoolRow = PoolRow(pool: Option<string>, deleted: Option<string>)

  function PoolEffect(row: PoolRow, known: set<string>): Option<Effect<string>> {
    if row.pool.None? || row.pool.value == "" || row.pool.value !in known then None
    else Some(Effect(row.pool.value, !(row.deleted.Some? && IsTruthy(SmartBool(row.deleted.value)))))
  }

  datatype Exclusion = OfFamily(arch: string, family: string) | OfUpdate(arch: string, family: string, update: string)

  datatype ExcludeRow = ExcludeRow(arch: string, family: string, update: string, excluded: string)

  datatype Catalog = Catalog(arches: set<string>, families: set<string>, updates: set<(string, string)>)

  /** The names that a row uses can be looked up. */
  predicate ExcludeRowValid(row: ExcludeRow, catalog: Catalog) {
    && row.arch in catalog.arches
    && (row.family != "" && row.update != "" ==> (row.family, row.update) in catalog.updates)
    && (row.family != "" && row.update == "" ==> row.family in catalog.families)
  }

  /** A row about an update must spell True or False exactly; one about a family may use any case. */
  function ExcludeEffect(row: ExcludeRow, catalog: Catalog): Option<Effect<Exclusion>> {
    if !ExcludeRowValid(row, catalog) || row.family == "" then None
    else if row.update != "" then
      var x := OfUpdate(row.arch, row.family, row.update);
      if row.excluded == "True" then Some(Effect(x, true))
      else if row.excluded == "False" then Some(Effect(x, false))
      else None
    else
      var x := OfFamily(row.arch, row.family);
      if Lower(row.excluded) == "true" then Some(Effect(x, true))
      else if Lower(row.excluded) == "false" then Some(Effect(x, false))
      else None
  }

  lemma NothingToRemove<T>(ms: multiset<T>, log: seq<Activity<T>>, x: T)
    requires x !in ms
    ensures Apply(ms, log, Effect(x, false)) == (ms, log)
  {
    assert ms[x := 0] == ms && log + Copies(Removed(x), 0) == log;
  }

  function AfterEffect<T>(ms: multiset<T>, log: seq<Activity<T>>, e: Option<Effect<T>>)
    : (multiset<T>, seq<Activity<T>>)
  {
    if e.None? then (ms, log) else Apply(ms, log, e.value)
  }

  /* What one row does */

  predicate AllBlank(s: string) {
    forall i :: 0 <= i < |s| ==> IsBlank(s[i])
  }

  /** The word, in any mixture of upper and lower case. */
  predicate SpellsAnyCase(s: string, word: string) {
    |s| == |word| && forall i :: 0 <= i < |s| ==>
      s[i] == word[i] || ('A' <= s[i] <= 'Z' && s[i] as int + 32 == word[i] as int)
  }

  /** The same with white space around it. */
  ghost predicate SpellsBlankly(s: string, word: string) {
    exists left, right, w :: s == left + w + right && AllBlank(left) && AllBlank(right) && SpellsAnyCase(w, word)
  }

  predicate LowerCase(word: string) {
    forall i :: 0 <= i < |word| ==> 'a' <= word[i] <= 'z'
  }

  lemma LowerSpells(s: string, word: string)
    requires LowerCase(word)
    ensures Lower(s) == word <==> SpellsAnyCase(s, word)
  {
    if Lower(s) == word {
      assert forall i :: 0 <= i < |s| ==> LowerChar(s[i]) == word[i];
    }
    if SpellsAnyCase(s, word) {
      assert forall i :: 0 <= i < |s| ==> LowerChar(s[i]) == word[i];
      assert Lower(s) == word;
    }
  }

  lemma {:induction false} StripsLeft(s: string) returns (left: string)
    ensures s == left + StripLeft(s) && AllBlank(left)
    ensures StripLeft(s) != "" ==> !IsBlank(StripLeft(s)[0])
  {
    if s != "" && IsBlank(s[0]) {
      var more := StripsLeft(s[1..]);
      left := [s[0]] + more;
      assert s == [s[0]] + s[1..] && [s[0]] + (more + StripLeft(s[1..])) == left + StripLeft(s[1..]);
    } else {
      left := "";
    }
  }

  lemma {:induction false} StripsRight(s: string) returns (right: string)
    ensures s == StripRight(s) + right && AllBlank(right)
    decreases |s|
  {
    if s != "" && IsBlank(s[|s| - 1]) {
      var (init, c) := (s[..|s| - 1], s[|s| - 1]);
      var before := StripsRight(init);
      right := before + [c];
      assert s == init + [c] && StripRight(init) + before + [c] == StripRight(init) + right;
    } else {
      right := "";
    }
  }

  lemma {:induction false} StripLeftOf(left: string, w: string)
    requires AllBlank(left) && (w != "" ==> !IsBlank(w[0]))
    ensures StripLeft(left + w) == w
  {
    if left == "" {
      assert left + w == w;
    } else {
      assert (left + w)[1..] == left[1..] + w;
      StripLeftOf(left[1..], w);
    }
  }

  lemma {:induction false} StripRightOf(w: string, right: string)
    requires AllBlank(right) && (w != "" ==> !IsBlank(w[|w| - 1]))
    ensures StripRight(w + right) == w
    decreases |right|
  {
    if right == "" {
      assert w + right == w;
    } else {
      assert (w + right)[..|w + right| - 1] == w + right[..|right| - 1];
      StripRightOf(w, right[..|right| - 1]);
    }
  }

  lemma StripsToWord(left: string, w: string, right: string)
    requires AllBlank(left) && AllBlank(right) && w != "" && !IsBlank(w[0]) && !IsBlank(w[|w| - 1])
    ensures StripRight(StripLeft(left + w + right)) == w
  {
    assert left + w + right == left + (w + right) && (w + right)[0] == w[0];
    StripLeftOf(left, w + right);
    StripRightOf(w, right);
  }

  lemma StrippedSpells(s: string, word: string)
    requires LowerCase(word) && word != ""
    ensures Lower(StripRight(StripLeft(s))) == word <==> SpellsBlankly(s, word)
  {
    var t := StripRight(StripLeft(s));
    LowerSpells(t, word);
    if SpellsAnyCase(t, word) {
      var left := StripsLeft(s);
      var right := StripsRight(StripLeft(s));
      assert s == left + t + right;
    }
    if SpellsBlankly(s, word) {
      var left, right, w :|
        s == left + w + right && AllBlank(left) && AllBlank(right) && SpellsAnyCase(w, word);
      StripsToWord(left, w, right);
      LowerSpells(w, word);
    }
  }

  /** A deleted column that asks for deletion: neither empty nor spelling false. */
  ghost predicate AsksDeletion(deleted: Option<string>) {
    deleted.Some? && deleted.value != "" && !SpellsBlankly(deleted.value, "false")
  }

  /** After a pool row the system is in the pool that it names unless deletion is asked for; other pools stay. */
  lemma PoolRowMeans(ms: multiset<string>, log: seq<Activity<string>>, row: PoolRow, known: set<string>, pool: string)
    ensures
      pool in AfterEffect(ms, log, PoolEffect(row, known)).0 <==>
      if row.pool == Some(pool) && pool != "" && pool in known then !AsksDeletion(row.deleted) else pool in ms
  {
    if row.deleted.Some? {
      DeletesUnlessFalse(row.deleted.value);
      StrippedSpells(row.deleted.value, "false");
    }
  }

  /** The names of the exclusion can be looked up, and the row names it. */
  predicate NamesExclusion(row: ExcludeRow, catalog: Catalog, x: Exclusion) {
    && row.arch == x.arch && x.arch in catalog.arches && row.family == x.family && x.family != ""
    && match x
      case OfFamily(_, family) => row.update == "" && family in catalog.families
      case OfUpdate(_, family, update) => row.update == update && update != "" && (family, update) in catalog.updates
  }

  /** A row about a family may spell the word in any case, one about an update only as `True` and `False`. */
  predicate AsksExclusion(row: ExcludeRow, x: Exclusion) {
    if x.OfUpdate? then row.excluded == "True" else SpellsAnyCase(row.excluded, "true")
  }

  predicate AsksInclusion(row: ExcludeRow, x: Exclusion) {
    if x.OfUpdate? then row.excluded == "False" else SpellsAnyCase(row.excluded, "false")
  }

  /** After a row the exclusion that it names is there or not as it asks, if it asks for either; others stay. */
  lemma ExcludeRowMeans(
      ms: multiset<Exclusion>, log: seq<Activity<Exclusion>>, row: ExcludeRow, catalog: Catalog, x: Exclusion)
    ensures
      x in AfterEffect(ms, log, ExcludeEffect(row, catalog)).0 <==>
      if NamesExclusion(row, catalog, x) && AsksExclusion(row, x) then true
      else if NamesExclusion(row, catalog, x) && AsksInclusion(row, x) then false
      else x in ms
  {
    LowerSpells(row.excluded, "true");
    LowerSpells(row.excluded, "false");
    assert "True" != "False";
  }

  function PoolEffects(rows: seq<PoolRow>, known: set<string>): seq<Effect<string>>
    decreases |rows|
  {
    if rows == [] then []
    else
      var last := PoolEffect(rows[|rows| - 1], known);
      PoolEffects(rows[..|rows| - 1], known) + if last.Some? then [last.value] else []
  }

  function ExcludeEffects(rows: seq<ExcludeRow>, catalog: Catalog): seq<Effect<Exclusion>>
    decreases |rows|
  {
    if rows == [] then []
    else
      var last := ExcludeEffect(rows[|rows| - 1], catalog);
      ExcludeEffects(rows[..|rows| - 1], catalog) + if last.Some? then [last.value] else []
  }

  lemma ApplyOneMore<T>(ms: multiset<T>, log: seq<Activity<T>>, es: seq<Effect<T>>, e: Option<Effect<T>>)
    ensures
      var (ms', log') := ApplyAll(ms, log, es);
      ApplyAll(ms, log, es + if e.Some? then [e.value] else []) == AfterEffect(ms', log', e)
  {
    if e.None? {
      assert es + [] == es;
    } else {
      assert (es + [e.value])[..|es|] == es;
    }
  }

  lemma OneMorePool(
      ms: multiset<string>, log: seq<Activity<string>>, rows: seq<PoolRow>, i: nat, known: set<string>)
    requires i < |rows|
    ensures
      var (ms', log') := ApplyAll(ms, log, PoolEffects(rows[..i], known));
      ApplyAll(ms, log, PoolEffects(rows[..i + 1], known)) == AfterEffect(ms', log', PoolEffect(rows[i], known))
  {
    assert rows[..i + 1][..i] == rows[..i];
    ApplyOneMore(ms, log, PoolEffects(rows[..i], known), PoolEffect(rows[i], known));
  }

  lemma OneMoreExclusion(
      ms: multiset<Exclusion>, log: seq<Activity<Exclusion>>, rows: seq<ExcludeRow>, i: nat, catalog: Catalog)
    requires i < |rows|
    ensures
      var (ms', log') := ApplyAll(ms, log, ExcludeEffects(rows[..i], catalog));
      ApplyAll(ms, log, ExcludeEffects(rows[..i + 1], catalog)) ==
      AfterEffect(ms', log', ExcludeEffect(rows[i], catalog))
  {
    assert rows[..i + 1][..i] == rows[..i];
    ApplyOneMore(ms, log, ExcludeEffects(rows[..i], catalog), ExcludeEffect(rows[i], catalog));
  }

  function Without<T(==)>(xs: seq<T>, x: T): seq<T>
    decreases |xs|
  {
    if xs == [] then []
    else Without(xs[..|xs| - 1], x) + if xs[|xs| - 1] == x then [] else [xs[|xs| - 1]]
  }

  function Occurrences<T(==)>(xs: seq<T>, x: T): nat
    decreases |xs|
  {
    if xs == [] then 0 else Occurrences(xs[..|xs| - 1], x) + if xs[|xs| - 1] == x then 1 else 0
  }

  lemma OneMoreEntry<T>(xs: seq<T>, i: nat, x: T)
    requires i < |xs|
    ensures Without(xs[..i + 1], x) == Without(xs[..i], x) + if xs[i] == x then [] else [xs[i]]
    ensures
      Copies(Removed(x), Occurrences(xs[..i + 1], x)) ==
      Copies(Removed(x), Occurrences(xs[..i], x)) + if xs[i] == x then [Removed(x)] else []
  {
    assert xs[..i + 1][..i] == xs[..i];
  }

  lemma {:induction false} OccurrencesCount<T>(xs: seq<T>, x: T)
    ensures Occurrences(xs, x) == multiset(xs)[x]
    decreases |xs|
  {
    if xs != [] {
      OccurrencesCount(xs[..|xs| - 1], x);
      assert xs == xs[..|xs| - 1] + [xs[|xs| - 1]];
    }
  }

  lemma {:induction false} WithoutRemovesAll<T>(xs: seq<T>, x: T)
    ensures multiset(Without(xs, x)) == multiset(xs)[x := 0]
    decreases |xs|
  {
    if xs != [] {
      WithoutRemovesAll(xs[..|xs| - 1], x);
      assert xs == xs[..|xs| - 1] + [xs[|xs| - 1]];
    }
  }

  class System {
    const pools: set<string>
    const catalog: Catalog
    var memberOf: set<string>
    var poolLog: seq<Activity<string>>
    /** Excluded families and excluded updates, two tables in the database; nothing there forbids a repeated entry. */
    var exclusions: seq<Exclusion>
    var exclusionLog: seq<Activity<Exclusion>>

    constructor (pools: set<string>, catalog: Catalog, memberOf: set<string>, exclusions: seq<Exclusion>)
      ensures this.pools == pools && this.catalog == catalog
      ensures this.memberOf == memberOf && this.exclusions == exclusions && poolLog == [] && exclusionLog == []
    {
      this.pools, this.catalog, this.memberOf, this.exclusions := pools, catalog, memberOf, exclusions;
      poolLog, exclusionLog := [], [];
    }

    method ImportPool(row: PoolRow) returns (ok: bool)
      modifies this`memberOf, this`poolLog
      ensures
        (multiset(memberOf), poolLog) == AfterEffect(multiset(old(memberOf)), old(poolLog), PoolEffect(row, pools))
      ensures ok == PoolEffect(row, pools).Some?
    {
      if row.pool.None? || row.pool.value == "" {
        return false;
      }
      var pool := row.pool.value;
      if pool !in pools {
        return false;
      }
      var deleted := row.deleted.Some? && IsTruthy(SmartBool(row.deleted.value));
      if deleted {
        if pool in memberOf {
          poolLog := poolLog + [Removed(pool)];
          memberOf := memberOf - {pool};
        }
        assert Copies(Removed(pool), 1) == [Removed(pool)] && Copies(Removed(pool), 0) == [];
        assert poolLog == old(poolLog) + Copies(Removed(pool), multiset(old(memberOf))[pool]);
        assert multiset(memberOf) == multiset(old(memberOf))[pool := 0];
      } else if pool !in memberOf {
        memberOf := memberOf + {pool};
        poolLog := poolLog + [Added(pool)];
        assert multiset(memberOf) == multiset(old(memberOf))[pool := 1];
      }
      ok := true;
    }

    /** Deletes every entry equal to `x`, logging each. */
    method RemoveExclusions(x: Exclusion)
      modifies this`exclusions, this`exclusionLog
      ensures
        (multiset(exclusions), exclusionLog) == Apply(multiset(old(exclusions)), old(exclusionLog), Effect(x, false))
    {
      var kept: seq<Exclusion> := [];
      for i := 0 to |exclusions|
        invariant exclusions == old(exclusions) && kept == Without(exclusions[..i], x)
        invariant exclusionLog == old(exclusionLog) + Copies(Removed(x), Occurrences(exclusions[..i], x))
      {
        OneMoreEntry(exclusions, i, x);
        if exclusions[i] == x {
          exclusionLog := exclusionLog + [Removed(x)];
        } else {
          kept := kept + [exclusions[i]];
        }
      }
      assert exclusions[..|exclusions|] == exclusions;
      WithoutRemovesAll(exclusions, x);
      OccurrencesCount(exclusions, x);
      exclusions := kept;
    }

    method ImportExclusion(row: ExcludeRow) returns (ok: bool)
      modifies this`exclusions, this`exclusionLog
      ensures
        (multiset(exclusions), exclusionLog) ==
        AfterEffect(multiset(old(exclusions)), old(exclusionLog), ExcludeEffect(row, catalog))
      ensures ok == ExcludeRowValid(row, catalog)
    {
      if row.arch !in catalog.arches {
        return false;
      }
      if row.update != "" && row.family != "" {
        if (row.family, row.update) !in catalog.updates {
          return false;
        }
        var x := OfUpdate(row.arch, row.family, row.update);
        if x !in exclusions {
          NothingToRemove(multiset(exclusions), exclusionLog, x);
          if row.excluded == "True" {
            exclusions := exclusions + [x];
            assert multiset(exclusions) == multiset(old(exclusions))[x := 1];
            exclusionLog := exclusionLog + [Added(x)];
          }
        } else if row.excluded == "False" {
          RemoveExclusions(x);
        }
      }
      if row.update == "" && row.family != "" {
        if row.family !in catalog.families {
          return false;
        }
        var x := OfFamily(row.arch, row.family);
        if x !in exclusions {
          NothingToRemove(multiset(exclusions), exclusionLog, x);
          if Lower(row.excluded) == "true" {
            exclusions := exclusions + [x];
            assert multiset(exclusions) == multiset(old(exclusions))[x := 1];
            exclusionLog := exclusionLog + [Added(x)];
          }
        } else if Lower(row.excluded) == "false" {
          RemoveExclusions(x);
        }
      }
      ok := true;
    }

    method ImportPools(rows: seq<PoolRow>)
      modifies this`memberOf, this`poolLog
      ensures
        (multiset(memberOf), poolLog) == ApplyAll(multiset(old(memberOf)), old(poolLog), PoolEffects(rows, pools))
    {
      for i := 0 to |rows|
        invariant
          (multiset(memberOf), poolLog) ==
          ApplyAll(multiset(old(memberOf)), old(poolLog), PoolEffects(rows[..i], pools))
      {
        OneMorePool(multiset(old(memberOf)), old(poolLog), rows, i, pools);
        var ok := ImportPool(rows[i]);
      }
      assert rows[..|rows|] == rows;
    }

    method ImportExclusions(rows: seq<ExcludeRow>)
      modifies this`exclusions, this`exclusionLog
      ensures
        (multiset(exclusions), exclusionLog) ==
        ApplyAll(multiset(old(exclusions)), old(exclusionLog), ExcludeEffects(rows, catalog))
    {
      for i := 0 to |rows|
        invariant
          (multiset(exclusions), exclusionLog) ==
          ApplyAll(multiset(old(exclusions)), old(exclusionLog), ExcludeEffects(rows[..i], catalog))
      {
        OneMoreExclusion(multiset(old(exclusions)), old(exclusionLog), rows, i, catalog);
        var ok := ImportExclusion(rows[i]);
      }
      assert rows[..|rows|] == rows;
    }
  }
}
