/**
 Layered install options: each layer overrides the ones before it, and a key `!k` in a layer deletes `k`.
 A dict is iterated in an order that is not specified, so every operation takes that order as an argument.
 */
module Layers {
  import opened Prelude
  import opened InstallOptions

  predicate IsMarker(key: string) {
    key != "" && key[0] == '!'
  }

  /** One pair of the overriding dict is applied. */
  function Override(result: Options, key: string, value: OptValue): Options {
    if IsMarker(key) then result - {key[1..]} else result[key := value]
  }

  function OverrideAll(base: Options, other: Options, order: seq<string>): Options
    requires forall k :: k in order ==> k in other
    decreases |order|
  {
    if order == [] then base
    else
      var last := order[|order| - 1];
      Override(OverrideAll(base, other, order[..|order| - 1]), last, other[last])
  }

  method Consolidate(base: Options, other: Options, order: seq<string>) returns (result: Options)
    requires Enumerates(order, other.Keys)
    ensures result == OverrideAll(base, other, order)
    ensures !Conflicted(other) ==> result == Merged(base, other)
  {
    result := base;
    for i := 0 to |order|
      invariant result == OverrideAll(base, other, order[..i])
    {
      var key := order[i];
      if IsMarker(key) {
        result := result - {key[1..]};
      } else {
        result := result[key := other[key]];
      }
      assert order[..i + 1][..i] == order[..i];
    }
    assert order[..|order|] == order;
    if !Conflicted(other) {
      OverrideIsMerge(base, other, order);
    }
  }

  /** The dict both sets and deletes the same ordinary key. */
  ghost predicate Conflicted(d: Options) {
    exists k :: ConflictAt(d, k)
  }

  ghost predicate ConflictAt(d: Options, k: string) {
    !IsMarker(k) && k in d && ("!" + k) in d
  }

  /** Key by key: a setting wins, then a deletion, then the base. */
  function MergedAt(base: Options, other: Options, k: string): Option<OptValue> {
    if !IsMarker(k) && k in other then Some(other[k])
    else if ("!" + k) in other then None
    else Find(base, k)
  }

  function Merged(base: Options, other: Options): Options {
    map k | k in base.Keys + other.Keys && MergedAt(base, other, k).Some? :: MergedAt(base, other, k).value
  }

  lemma MarkerFor(k: string)
    ensures IsMarker("!" + k) && ("!" + k)[1..] == k
    ensures IsMarker(k) ==> "!" + k[1..] == k
  {
  }

  lemma {:induction false} OverrideAllAt(base: Options, other: Options, order: seq<string>, k: string)
    requires forall k :: k in order ==> k in other
    requires k in order && !IsMarker(k) ==> "!" + k !in order
    ensures
      Find(OverrideAll(base, other, order), k) ==
      if !IsMarker(k) && k in order then Some(other[k]) else if "!" + k in order then None else Find(base, k)
    decreases |order|
  {
    if order != [] {
      var init, last := order[..|order| - 1], order[|order| - 1];
      assert order == init + [last];
      OverrideAllAt(base, other, init, k);
      MarkerFor(k);
      MarkerFor(last);
    }
  }

  lemma OverrideIsMerge(base: Options, other: Options, order: seq<string>)
    requires Enumerates(order, other.Keys) && !Conflicted(other)
    ensures OverrideAll(base, other, order) == Merged(base, other)
  {
    forall k
      ensures Find(OverrideAll(base, other, order), k) == Find(Merged(base, other), k)
    {
      assert !ConflictAt(other, k);
      OverrideAllAt(base, other, order, k);
    }
    SameOptions(OverrideAll(base, other, order), Merged(base, other));
  }

  lemma OverrideAllLast(base: Options, other: Options, order: seq<string>, k: string)
    requires (forall x :: x in order ==> x in other) && k in other
    ensures OverrideAll(base, other, order + [k]) == Override(OverrideAll(base, other, order), k, other[k])
  {
    assert (order + [k])[..|order|] == order;
  }

  lemma AppendTwo(rest: seq<string>, s: set<string>, a: string, b: string)
    requires Enumerates(rest, s - {a, b}) && a in s && b in s && a != b
    ensures Enumerates(rest + [a] + [b], s)
  {
    forall x
      ensures x in rest + [a] + [b] <==> x in s
    {
      assert x in rest <==> x in s - {a, b};
    }
  }

  /** A conflict is settled by whichever of the two pairs comes last. */
  lemma ConflictDependsOnOrder(base: Options, other: Options, k: string) returns (o1: seq<string>, o2: seq<string>)
    requires ConflictAt(other, k)
    ensures Enumerates(o1, other.Keys) && Enumerates(o2, other.Keys)
    ensures k !in OverrideAll(base, other, o1) && k in OverrideAll(base, other, o2)
  {
    var marker := "!" + k;
    MarkerFor(k);
    var rest := EnumerationExists(other.Keys - {k, marker});
    assert {k, marker} == {marker, k};
    AppendTwo(rest, other.Keys, k, marker);
    AppendTwo(rest, other.Keys, marker, k);
    o1, o2 := rest + [k] + [marker], rest + [marker] + [k];
    OverrideAllLast(base, other, rest + [k], marker);
    OverrideAllLast(base, other, rest + [marker], k);
  }

  /**
   Overriding gives one result for every iteration order exactly when the overriding dict does not both set and delete
   some key; with such a conflict, over any base at all, two orders give different results.
   */
  lemma OrderIrrelevantIffNoConflict(base: Options, other: Options)
    ensures
      (forall o1, o2 :: Enumerates(o1, other.Keys) && Enumerates(o2, other.Keys) ==>
        OverrideAll(base, other, o1) == OverrideAll(base, other, o2))
      <==> !Conflicted(other)
  {
    if Conflicted(other) {
      var k :| ConflictAt(other, k);
      var o1, o2 := ConflictDependsOnOrder(base, other, k);
      assert OverrideAll(base, other, o1) != OverrideAll(base, other, o2);
    } else {
      forall o1, o2 | Enumerates(o1, other.Keys) && Enumerates(o2, other.Keys)
        ensures OverrideAll(base, other, o1) == OverrideAll(base, other, o2)
      {
        OverrideIsMerge(base, other, o1);
        OverrideIsMerge(base, other, o2);
      }
    }
  }

  /* Three dicts make up the options of one layer. */

  datatype Layer = Layer(ksMeta: Options, kernelOptions: Options, kernelOptionsPost: Options)

  /** The iteration orders of a layer's three dicts. */
  datatype Orders = Orders(ksMeta: seq<string>, kernelOptions: seq<string>, kernelOptionsPost: seq<string>)

  ghost predicate OrdersOf(o: Orders, layer: Layer) {
    && Enumerates(o.ksMeta, layer.ksMeta.Keys)
    && Enumerates(o.kernelOptions, layer.kernelOptions.Keys)
    && Enumerates(o.kernelOptionsPost, layer.kernelOptionsPost.Keys)
  }

  ghost predicate AllOrders(orders: seq<Orders>, layers: seq<Layer>) {
    |orders| == |layers| && forall i :: 0 <= i < |layers| ==> OrdersOf(orders[i], layers[i])
  }

  const NO_OPTIONS := Layer(map[], map[], map[])

  function Combined(base: Layer, other: Layer, o: Orders): Layer
    requires OrdersOf(o, other)
  {
    Layer(
      OverrideAll(base.ksMeta, other.ksMeta, o.ksMeta),
      OverrideAll(base.kernelOptions, other.kernelOptions, o.kernelOptions),
      OverrideAll(base.kernelOptionsPost, other.kernelOptionsPost, o.kernelOptionsPost))
  }

  function Reduced(layers: seq<Layer>, orders: seq<Orders>): Layer
    requires AllOrders(orders, layers)
    decreases |layers|
  {
    if layers == [] then NO_OPTIONS
    else
      var n := |layers| - 1;
      Combined(Reduced(layers[..n], orders[..n]), layers[n], orders[n])
  }

  method CombinedWith(base: Layer, other: Layer, o: Orders) returns (r: Layer)
    requires OrdersOf(o, other)
    ensures r == Combined(base, other, o)
  {
    var ksMeta := Consolidate(base.ksMeta, other.ksMeta, o.ksMeta);
    var kernelOptions := Consolidate(base.kernelOptions, other.kernelOptions, o.kernelOptions);
    var kernelOptionsPost := Consolidate(base.kernelOptionsPost, other.kernelOptionsPost, o.kernelOptionsPost);
    r := Layer(ksMeta, kernelOptions, kernelOptionsPost);
  }

  datatype Part = KsMeta | KernelOptions | KernelOptionsPost

  function PartOf(layer: Layer, p: Part): Options {
    match p
    case KsMeta => layer.ksMeta
    case KernelOptions => layer.kernelOptions
    case KernelOptionsPost => layer.kernelOptionsPost
  }

  function OrderOf(o: Orders, p: Part): seq<string> {
    match p
    case KsMeta => o.ksMeta
    case KernelOptions => o.kernelOptions
    case KernelOptionsPost => o.kernelOptionsPost
  }

  /** The last layer that mentions `k` or `!k` decides: the value it sets, or nothing if it deletes. */
  function LastMention(layers: seq<Layer>, p: Part, k: string): Option<OptValue>
    decreases |layers|
  {
    if layers == [] then None
    else
      var last := PartOf(layers[|layers| - 1], p);
      if k in last then Some(last[k])
      else if "!" + k in last then None
      else LastMention(layers[..|layers| - 1], p, k)
  }

  ghost predicate AllConsistent(layers: seq<Layer>) {
    forall i, p :: 0 <= i < |layers| ==> !Conflicted(PartOf(layers[i], p))
  }

  predicate Mentions(d: Options, k: string) {
    k in d || "!" + k in d
  }

  /** Every layer that both sets and deletes the key is followed by one that mentions it again. */
  ghost predicate Settled(layers: seq<Layer>, p: Part, k: string) {
    forall i :: 0 <= i < |layers| && ConflictAt(PartOf(layers[i], p), k) ==> MentionedAfter(layers, p, k, i)
  }

  ghost predicate MentionedAfter(layers: seq<Layer>, p: Part, k: string, i: int) {
    exists j :: i < j < |layers| && 0 <= j && Mentions(PartOf(layers[j], p), k)
  }

  ghost predicate AllSettled(layers: seq<Layer>) {
    forall p, k :: Settled(layers, p, k)
  }

  /** What a reduced stack of layers holds: only ordinary keys, each as last mentioned. */
  ghost predicate HoldsLastMentions(r: Layer, layers: seq<Layer>) {
    && (forall p, k :: k in PartOf(r, p) ==> !IsMarker(k))
    && (forall p, k :: !IsMarker(k) ==> Find(PartOf(r, p), k) == LastMention(layers, p, k))
  }

  method Reduce(layers: seq<Layer>, orders: seq<Orders>) returns (r: Layer)
    requires AllOrders(orders, layers)
    ensures r == Reduced(layers, orders)
  {
    r := NO_OPTIONS;
    for i := 0 to |layers|
      invariant r == Reduced(layers[..i], orders[..i])
    {
      r := CombinedWith(r, layers[i], orders[i]);
      assert layers[..i + 1][..i] == layers[..i] && orders[..i + 1][..i] == orders[..i];
    }
    assert layers[..|layers|] == layers && orders[..|layers|] == orders;
  }

  lemma SettledBefore(layers: seq<Layer>, p: Part, k: string)
    requires layers != [] && Settled(layers, p, k)
    ensures
      var n := |layers| - 1;
      && !ConflictAt(PartOf(layers[n], p), k)
      && (!Mentions(PartOf(layers[n], p), k) ==> Settled(layers[..n], p, k))
  {
    var n := |layers| - 1;
    assert !MentionedAfter(layers, p, k, n);
    if !Mentions(PartOf(layers[n], p), k) {
      forall i | 0 <= i < n && ConflictAt(PartOf(layers[..n][i], p), k)
        ensures MentionedAfter(layers[..n], p, k, i)
      {
        assert MentionedAfter(layers, p, k, i);
        var j :| i < j < |layers| && 0 <= j && Mentions(PartOf(layers[j], p), k);
        assert layers[..n][j] == layers[j];
      }
    }
  }

  lemma {:induction false} ReducedAt(layers: seq<Layer>, orders: seq<Orders>, p: Part, k: string)
    requires AllOrders(orders, layers) && (IsMarker(k) || Settled(layers, p, k))
    ensures Find(PartOf(Reduced(layers, orders), p), k) == if IsMarker(k) then None else LastMention(layers, p, k)
    decreases |layers|
  {
    if layers != [] {
      var n := |layers| - 1;
      if !IsMarker(k) {
        SettledBefore(layers, p, k);
      }
      OverrideAllAt(
        PartOf(Reduced(layers[..n], orders[..n]), p), PartOf(layers[n], p), OrderOf(orders[n], p), k);
      if IsMarker(k) || !Mentions(PartOf(layers[n], p), k) {
        ReducedAt(layers[..n], orders[..n], p, k);
      }
    }
  }

  /**
   Whatever the iteration orders, reducing layers in which every conflict is settled later is decided key by key by the
   last mention, and no deletion marker is left in the result.
   */
  lemma ReducedIsLastMention(layers: seq<Layer>, orders: seq<Orders>)
    requires AllOrders(orders, layers) && AllSettled(layers)
    ensures HoldsLastMentions(Reduced(layers, orders), layers)
  {
    forall p, k
      ensures k in PartOf(Reduced(layers, orders), p) ==> !IsMarker(k)
      ensures !IsMarker(k) ==> Find(PartOf(Reduced(layers, orders), p), k) == LastMention(layers, p, k)
    {
      ReducedAt(layers, orders, p, k);
    }
  }

  /** In particular there is nothing to settle among layers without conflicts. */
  lemma ConsistentIsSettled(layers: seq<Layer>)
    requires AllConsistent(layers)
    ensures AllSettled(layers)
  {
    forall p, k, i | 0 <= i < |layers|
      ensures !ConflictAt(PartOf(layers[i], p), k)
    {
      assert !Conflicted(PartOf(layers[i], p));
    }
  }

  /** Two reductions that both hold the last mentions are equal, however the dicts were iterated. */
  lemma LastMentionsDetermine(r1: Layer, r2: Layer, layers: seq<Layer>)
    requires HoldsLastMentions(r1, layers) && HoldsLastMentions(r2, layers)
    ensures r1 == r2
  {
    forall p
      ensures PartOf(r1, p) == PartOf(r2, p)
    {
      forall k
        ensures Find(PartOf(r1, p), k) == Find(PartOf(r2, p), k)
      {
        if IsMarker(k) {
          assert k !in PartOf(r1, p) && k !in PartOf(r2, p);
        }
      }
      SameOptions(PartOf(r1, p), PartOf(r2, p));
    }
    assert PartOf(r1, KsMeta) == PartOf(r2, KsMeta);
    assert PartOf(r1, KernelOptions) == PartOf(r2, KernelOptions);
    assert PartOf(r1, KernelOptionsPost) == PartOf(r2, KernelOptionsPost);
  }

  /* Exactly when the iteration orders do not matter */

  lemma {:induction false} SomeOrders(layers: seq<Layer>) returns (orders: seq<Orders>)
    ensures AllOrders(orders, layers)
    decreases |layers|
  {
    if layers == [] {
      orders := [];
    } else {
      var n := |layers| - 1;
      var more := SomeOrders(layers[..n]);
      var ksMeta := EnumerationExists(layers[n].ksMeta.Keys);
      var kernelOptions := EnumerationExists(layers[n].kernelOptions.Keys);
      var kernelOptionsPost := EnumerationExists(layers[n].kernelOptionsPost.Keys);
      orders := more + [Orders(ksMeta, kernelOptions, kernelOptionsPost)];
    }
  }

  function WithOrder(o: Orders, p: Part, order: seq<string>): Orders {
    match p
    case KsMeta => o.(ksMeta := order)
    case KernelOptions => o.(kernelOptions := order)
    case KernelOptionsPost => o.(kernelOptionsPost := order)
  }

  lemma UnmentionedOnce(layers: seq<Layer>, orders: seq<Orders>, p: Part, k: string)
    requires AllOrders(orders, layers) && layers != []
    requires !Mentions(PartOf(layers[|layers| - 1], p), k)
    ensures
      var n := |layers| - 1;
      Find(PartOf(Reduced(layers, orders), p), k) == Find(PartOf(Reduced(layers[..n], orders[..n]), p), k)
  {
    var n := |layers| - 1;
    OverrideAllAt(PartOf(Reduced(layers[..n], orders[..n]), p), PartOf(layers[n], p), OrderOf(orders[n], p), k);
  }

  /** A key that no layer after the first `m` mentions is as those left it. */
  lemma {:induction false} UnmentionedStays(layers: seq<Layer>, orders: seq<Orders>, p: Part, k: string, m: nat)
    requires AllOrders(orders, layers) && m <= |layers|
    requires forall j :: m <= j < |layers| ==> !Mentions(PartOf(layers[j], p), k)
    ensures
      Find(PartOf(Reduced(layers, orders), p), k) == Find(PartOf(Reduced(layers[..m], orders[..m]), p), k)
    decreases |layers|
  {
    var n := |layers| - 1;
    if m == |layers| {
      assert layers[..m] == layers && orders[..m] == orders;
    } else {
      UnmentionedOnce(layers, orders, p, k);
      UnmentionedStays(layers[..n], orders[..n], p, k, m);
      assert layers[..n][..m] == layers[..m] && orders[..n][..m] == orders[..m];
    }
  }

  lemma ReducedWithOrder(
      layers: seq<Layer>, orders: seq<Orders>, p: Part, k: string, i: nat, order: seq<string>)
    returns (changed: seq<Orders>)
    requires AllOrders(orders, layers) && i < |layers| && Enumerates(order, PartOf(layers[i], p).Keys)
    requires forall j :: i < j < |layers| ==> !Mentions(PartOf(layers[j], p), k)
    ensures AllOrders(changed, layers)
    ensures
      var base := PartOf(Reduced(layers[..i], orders[..i]), p);
      Find(PartOf(Reduced(layers, changed), p), k) == Find(OverrideAll(base, PartOf(layers[i], p), order), k)
  {
    changed := orders[i := WithOrder(orders[i], p, order)];
    UnmentionedStays(layers, changed, p, k, i + 1);
    assert layers[..i + 1][..i] == layers[..i] && changed[..i + 1][..i] == orders[..i];
    assert OrderOf(changed[i], p) == order;
  }

  /** A conflict that no later layer settles makes the result depend on an iteration order. */
  lemma UnsettledDependsOnOrder(layers: seq<Layer>, p: Part, k: string, i: nat)
    returns (o1: seq<Orders>, o2: seq<Orders>)
    requires i < |layers| && ConflictAt(PartOf(layers[i], p), k) && !MentionedAfter(layers, p, k, i)
    ensures AllOrders(o1, layers) && AllOrders(o2, layers)
    ensures Reduced(layers, o1) != Reduced(layers, o2)
  {
    var orders := SomeOrders(layers);
    var base := PartOf(Reduced(layers[..i], orders[..i]), p);
    var without, with := ConflictDependsOnOrder(base, PartOf(layers[i], p), k);
    o1 := ReducedWithOrder(layers, orders, p, k, i, without);
    o2 := ReducedWithOrder(layers, orders, p, k, i, with);
  }

  /**
   Reducing layers gives one result for all iteration orders exactly when every key that a layer both sets and deletes
   is mentioned again in a later layer.
   */
  lemma ReducedOrderFreeIffSettled(layers: seq<Layer>)
    ensures
      (forall o1, o2 :: AllOrders(o1, layers) && AllOrders(o2, layers) ==> Reduced(layers, o1) == Reduced(layers, o2))
      <==> AllSettled(layers)
  {
    if AllSettled(layers) {
      forall o1, o2 | AllOrders(o1, layers) && AllOrders(o2, layers)
        ensures Reduced(layers, o1) == Reduced(layers, o2)
      {
        ReducedIsLastMention(layers, o1);
        ReducedIsLastMention(layers, o2);
        LastMentionsDetermine(Reduced(layers, o1), Reduced(layers, o2), layers);
      }
    } else {
      var p, k :| !Settled(layers, p, k);
      var i :| 0 <= i < |layers| && ConflictAt(PartOf(layers[i], p), k) && !MentionedAfter(layers, p, k, i);
      var o1, o2 := UnsettledDependsOnOrder(layers, p, k, i);
      assert Reduced(layers, o1) != Reduced(layers, o2);
    }
  }

  /* Exactly when grouping does not matter */

  /** The deletion of the key is still there once `c` has been applied to `b`. */
  predicate KeepsDeletion(b: Options, c: Options, k: string) {
    "!" + k in b && "!" + ("!" + k) !in c
  }

  /**
   The key comes out the same either way: if `c` sets it, no deletion of it must be left beside; if `b` or `c` deletes
   it, the deletion must be left to be applied to `a`, or `a` must have nothing to delete.
   */
  predicate GroupsAlike(a: Options, b: Options, c: Options, k: string) {
    if !IsMarker(k) && k in c then !KeepsDeletion(b, c, k)
    else "!" + k in b || "!" + k in c ==> KeepsDeletion(b, c, k) || k !in a
  }

  ghost predicate AreOrders(b: Options, c: Options, ob: seq<string>, oc: seq<string>, obc: seq<string>) {
    && Enumerates(ob, b.Keys) && Enumerates(oc, c.Keys)
    && Enumerates(obc, OverrideAll(b, c, oc).Keys)
  }

  function Leftwards(a: Options, b: Options, c: Options, ob: seq<string>, oc: seq<string>): Options
    requires (forall k :: k in ob ==> k in b) && (forall k :: k in oc ==> k in c)
  {
    OverrideAll(OverrideAll(a, b, ob), c, oc)
  }

  function Rightwards(a: Options, b: Options, c: Options, oc: seq<string>, obc: seq<string>): Options
    requires (forall k :: k in oc ==> k in c) && (forall k :: k in obc ==> k in OverrideAll(b, c, oc))
  {
    OverrideAll(a, OverrideAll(b, c, oc), obc)
  }

  /** The keys of `b` combined with `c`. */
  lemma CombinedKeys(b: Options, c: Options, oc: seq<string>, k: string)
    requires !Conflicted(b) && !Conflicted(c) && Enumerates(oc, c.Keys)
    ensures
      var bc := OverrideAll(b, c, oc);
      && ("!" + k in bc <==> KeepsDeletion(b, c, k))
      && (!IsMarker(k) && k in c ==> k in bc && bc[k] == c[k])
      && (!IsMarker(k) && k !in c ==> Find(bc, k) == if "!" + k in c then None else Find(b, k))
      && (ConflictAt(bc, k) <==> !IsMarker(k) && k in c && KeepsDeletion(b, c, k))
  {
    assert !ConflictAt(c, k) && !ConflictAt(c, "!" + k) && !ConflictAt(b, k);
    MarkerFor(k);
    OverrideAllAt(b, c, oc, k);
    OverrideAllAt(b, c, oc, "!" + k);
  }

  lemma LeftwardsAt(a: Options, b: Options, c: Options, ob: seq<string>, oc: seq<string>, k: string)
    requires !Conflicted(b) && !Conflicted(c) && Enumerates(ob, b.Keys) && Enumerates(oc, c.Keys)
    ensures Find(Leftwards(a, b, c, ob, oc), k) == MergedAt(OverrideAll(a, b, ob), c, k)
    ensures Find(OverrideAll(a, b, ob), k) == MergedAt(a, b, k)
  {
    assert !ConflictAt(b, k) && !ConflictAt(c, k);
    OverrideAllAt(a, b, ob, k);
    OverrideAllAt(OverrideAll(a, b, ob), c, oc, k);
  }

  lemma GroupingAt(
      a: Options, b: Options, c: Options, ob: seq<string>, oc: seq<string>, obc: seq<string>, k: string)
    requires !Conflicted(b) && !Conflicted(c) && AreOrders(b, c, ob, oc, obc)
    requires !ConflictAt(OverrideAll(b, c, oc), k)
    ensures
      Find(Leftwards(a, b, c, ob, oc), k) == Find(Rightwards(a, b, c, oc, obc), k) <==> GroupsAlike(a, b, c, k)
  {
    assert !ConflictAt(b, k);
    LeftwardsAt(a, b, c, ob, oc, k);
    CombinedKeys(b, c, oc, k);
    OverrideAllAt(a, OverrideAll(b, c, oc), obc, k);
  }

  lemma UnlikeGrouping(a: Options, b: Options, c: Options, k: string)
    returns (ob: seq<string>, oc: seq<string>, obc: seq<string>)
    requires !Conflicted(b) && !Conflicted(c) && !GroupsAlike(a, b, c, k)
    ensures AreOrders(b, c, ob, oc, obc)
    ensures Leftwards(a, b, c, ob, oc) != Rightwards(a, b, c, oc, obc)
  {
    ob := EnumerationExists(b.Keys);
    oc := EnumerationExists(c.Keys);
    var bc := OverrideAll(b, c, oc);
    if ConflictAt(bc, k) {
      var o1, o2 := ConflictDependsOnOrder(a, bc, k);
      obc := if Leftwards(a, b, c, ob, oc) != OverrideAll(a, bc, o1) then o1 else o2;
    } else {
      obc := EnumerationExists(bc.Keys);
      GroupingAt(a, b, c, ob, oc, obc, k);
    }
  }

  /**
   For overriding dicts without conflicts, combining to the left and to the right give the same result in all iteration
   orders exactly when every key comes out the same.
   */
  lemma AssociativeIffAlike(a: Options, b: Options, c: Options)
    requires !Conflicted(b) && !Conflicted(c)
    ensures
      (forall ob, oc, obc ::
        AreOrders(b, c, ob, oc, obc) ==> Leftwards(a, b, c, ob, oc) == Rightwards(a, b, c, oc, obc))
      <==> forall k :: GroupsAlike(a, b, c, k)
  {
    if forall k :: GroupsAlike(a, b, c, k) {
      forall ob, oc, obc | AreOrders(b, c, ob, oc, obc)
        ensures Leftwards(a, b, c, ob, oc) == Rightwards(a, b, c, oc, obc)
      {
        forall k
          ensures Find(Leftwards(a, b, c, ob, oc), k) == Find(Rightwards(a, b, c, oc, obc), k)
        {
          CombinedKeys(b, c, oc, k);
          assert GroupsAlike(a, b, c, k);
          GroupingAt(a, b, c, ob, oc, obc, k);
        }
        SameOptions(Leftwards(a, b, c, ob, oc), Rightwards(a, b, c, oc, obc));
      }
    } else {
      var k :| !GroupsAlike(a, b, c, k);
      var ob, oc, obc := UnlikeGrouping(a, b, c, k);
    }
  }

  /** An instance: a deletion is consumed by the dict it is applied to, even if there was nothing to delete. */
  lemma NotAssociative(v: OptValue)
    ensures
      var a: Options := map["k" := v];
      var b: Options := map[];
      var c: Options := map["!k" := NoValue];
      && AreOrders(b, c, [], ["!k"], [])
      && Leftwards(a, b, c, [], ["!k"]) == map[]
      && Rightwards(a, b, c, ["!k"], []) == a
  {
    var c: Options := map["!k" := NoValue];
    assert ["!k"][..0] == [] && IsMarker("!k") && "!k"[1..] == "k";
    assert OverrideAll(map[], c, ["!k"]) == Override(OverrideAll(map[], c, []), "!k", NoValue);
    assert OverrideAll(map[], c, ["!k"]) == map[];
    assert OverrideAll(map["k" := v], c, ["!k"]) == map[];
  }
}
