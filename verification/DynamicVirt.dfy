/**
 The life of a virtual machine with its own network: resources are created in steps, undone if any step fails, and
 destroyed from what was recorded. Any call to the cloud may fail; a failing call changes nothing.
 */
module DynamicVirt {
  import opened Prelude

  datatype Resource =
    | Router(id: nat)
    | Network(id: nat)
    | Subnet(id: nat, network: nat)
    | Interface(router: nat, subnet: nat)
    | FloatingIp(id: nat, address: nat)
    | Instance(id: nat, network: nat)

  predicate Older(x: Resource, next: nat) {
    match x
    case Router(id) => id < next
    case Network(id) => id < next
    case Subnet(id, network) => id < next && network < next
    case Interface(router, subnet) => router < next && subnet < next
    case FloatingIp(id, address) => id < next && address < next
    case Instance(id, network) => id < next && network < next
  }

  /** The calls that create and delete nothing. */
  datatype Call =
    | FindExternalNetwork
    | WaitForBuild(instance: nat) | AssignAddress(fip: nat, instance: nat)
    | Stop(instance: nat) | WaitForStop(instance: nat)
    | FindServer(instance: nat) | ListFloatingIps(address: nat)

  /** The networking and compute services. Names and addresses are handed out once. */
  class Cloud {
    var store: set<Resource>
    var next: nat
    /** How many deletions failed for a reason of the cloud's own. */
    ghost var faults: nat
    /** How many other calls failed: creations, reads, and waits for an instance to be built or stopped. */
    ghost var failed: nat
    /** How many accepted deletions of an instance left it lingering. */
    ghost var slow: nat
    /** How many waits for an instance to go ended before it was gone. */
    ghost var lingered: nat
    /** The resources whose deletion was asked for since the last call of the manager began. */
    ghost var asked: set<Resource>
    /** The calls of that kind, in order. */
    ghost var calls: seq<Call>

    ghost predicate Valid()
      reads this
    {
      forall x :: x in store ==> Older(x, next)
    }

    constructor ()
      ensures Valid() && store == {} && asked == {} && faults == failed == slow == lingered == 0 && calls == []
    {
      store, next, asked, calls := {}, 0, {}, [];
      faults, failed, slow, lingered := 0, 0, 0, 0;
    }

    ghost method BeginCall()
      modifies this`asked
      ensures asked == {}
    {
      asked := {};
    }

    method Fresh() returns (id: nat)
      modifies this`next
      ensures id == old(next) && next == id + 1
    {
      id := next;
      next := next + 1;
    }

    method CreateRouter() returns (r: Option<nat>)
      requires Valid()
      modifies this`store, this`next, this`failed
      ensures Valid() && next >= old(next)
      ensures failed >= old(failed) && (r.Some? <==> failed == old(failed))
      ensures r.None? ==> store == old(store)
      ensures r.Some? ==> r.value >= old(next) && store == old(store) + {Router(r.value)}
    {
      if * {
        failed := failed + 1;
        return None;
      }
      var id := Fresh();
      store := store + {Router(id)};
      r := Some(id);
    }

    method CreateNetwork() returns (r: Option<nat>)
      requires Valid()
      modifies this`store, this`next, this`failed
      ensures Valid() && next >= old(next)
      ensures failed >= old(failed) && (r.Some? <==> failed == old(failed))
      ensures r.None? ==> store == old(store)
      ensures r.Some? ==> r.value >= old(next) && store == old(store) + {Network(r.value)}
    {
      if * {
        failed := failed + 1;
        return None;
      }
      var id := Fresh();
      store := store + {Network(id)};
      r := Some(id);
    }

    method CreateSubnet(network: nat) returns (r: Option<nat>)
      requires Valid() && Network(network) in store
      modifies this`store, this`next, this`failed
      ensures Valid() && next >= old(next)
      ensures failed >= old(failed) && (r.Some? <==> failed == old(failed))
      ensures r.None? ==> store == old(store)
      ensures r.Some? ==> r.value >= old(next) && store == old(store) + {Subnet(r.value, network)}
    {
      if * {
        failed := failed + 1;
        return None;
      }
      assert Older(Network(network), next);
      var id := Fresh();
      store := store + {Subnet(id, network)};
      r := Some(id);
    }

    method AddInterface(router: nat, subnet: nat, ghost network: nat) returns (ok: bool)
      requires Valid() && Router(router) in store && Subnet(subnet, network) in store
      modifies this`store, this`failed
      ensures Valid() && failed >= old(failed) && (ok <==> failed == old(failed))
      ensures store == if ok then old(store) + {Interface(router, subnet)} else old(store)
    {
      if * {
        failed := failed + 1;
        return false;
      }
      assert Older(Router(router), next) && Older(Subnet(subnet, network), next);
      store := store + {Interface(router, subnet)};
      ok := true;
    }

    method CreateFloatingIp() returns (r: Option<(nat, nat)>)
      requires Valid()
      modifies this`store, this`next, this`failed
      ensures Valid() && next >= old(next)
      ensures failed >= old(failed) && (r.Some? <==> failed == old(failed))
      ensures r.None? ==> store == old(store)
      ensures r.Some? ==> r.value.0 >= old(next) && r.value.1 >= old(next)
      ensures r.Some? ==> store == old(store) + {FloatingIp(r.value.0, r.value.1)}
    {
      if * {
        failed := failed + 1;
        return None;
      }
      var id := Fresh();
      var address := Fresh();
      store := store + {FloatingIp(id, address)};
      r := Some((id, address));
    }

    method CreateServer(network: nat) returns (r: Option<nat>)
      requires Valid() && Network(network) in store
      modifies this`store, this`next, this`failed
      ensures Valid() && next >= old(next)
      ensures failed >= old(failed) && (r.Some? <==> failed == old(failed))
      ensures r.None? ==> store == old(store)
      ensures r.Some? ==> r.value >= old(next) && store == old(store) + {Instance(r.value, network)}
    {
      if * {
        failed := failed + 1;
        return None;
      }
      assert Older(Network(network), next);
      var id := Fresh();
      store := store + {Instance(id, network)};
      r := Some(id);
    }

    /** A step that creates nothing and may fail: a wait, an assignment, a stop, a read. */
    method Attempt(ghost call: Call) returns (ok: bool)
      modifies this`failed, this`calls
      ensures failed >= old(failed) && (ok <==> failed == old(failed))
      ensures calls == old(calls) + [call]
    {
      calls := calls + [call];
      ok := *;
      if !ok {
        failed := failed + 1;
      }
    }

    /**
     Deletes resources of which `main` must exist, unless something still stands in the way. A deletion that is in order
     can still fail. No deletion may be asked for twice in one call of the manager.
     */
    method Delete(main: Resource, all: set<Resource>, blocked: bool) returns (ok: bool)
      requires Valid() && main !in asked
      modifies this`store, this`faults, this`asked
      ensures Valid()
      ensures main in old(store) && !blocked ==> (ok <==> faults == old(faults))
      ensures main !in old(store) || blocked ==> !ok && faults == old(faults)
      ensures faults >= old(faults)
      ensures store == if ok then old(store) - all else old(store)
      ensures asked == old(asked) + {main}
    {
      asked := asked + {main};
      if main !in store || blocked {
        return false;
      }
      if * {
        faults := faults + 1;
        return false;
      }
      store := store - all;
      ok := true;
    }

    /**
     Waits for an instance to be gone, but not for ever. Any error in looking at it, not only its absence, ends the wait
     as if it were gone.
     */
    method AwaitDeletion(instance: Resource) returns (passed: bool, ghost gone: bool)
      requires Valid()
      modifies this`store, this`lingered
      ensures Valid() && store == if gone then old(store) - {instance} else old(store)
      ensures lingered >= old(lingered) && (gone <==> lingered == old(lingered))
      ensures gone ==> passed
      ensures instance !in old(store) ==> gone
    {
      gone := instance !in store;
      if * {
        gone := true;
        store := store - {instance};
      }
      passed := *;
      if instance !in store {
        passed := true;
      }
      if !gone {
        lingered := lingered + 1;
      }
      assert store == if gone then old(store) - {instance} else old(store);
    }

    /** Asks for an instance to be deleted. If the cloud accepts, the instance may still linger for a while. */
    method RequestDeletion(instance: Resource) returns (ok: bool, ghost lingers: bool)
      requires Valid() && instance in store && instance !in asked
      modifies this`store, this`faults, this`asked, this`slow
      ensures Valid() && faults >= old(faults)
      ensures ok <==> faults == old(faults)
      ensures lingers ==> ok
      ensures slow >= old(slow) && (lingers <==> slow > old(slow))
      ensures store == if ok && !lingers then old(store) - {instance} else old(store)
      ensures asked == old(asked) + {instance}
    {
      lingers := false;
      if * {
        lingers, slow := true, slow + 1;
        asked := asked + {instance};
        return true, lingers;
      }
      ok := Delete(instance, {instance}, false);
    }
  }

  /** An interface is attached to the router. */
  predicate RouterInUse(store: set<Resource>, router: nat) {
    exists x :: x in store && x.Interface? && x.router == router
  }

  /** An instance runs in the network, or one of its subnets has an interface. */
  predicate NetworkInUse(store: set<Resource>, network: nat) {
    || (exists x :: x in store && x.Instance? && x.network == network)
    || (exists x, y ::
      x in store && y in store && x.Subnet? && x.network == network && y.Interface? && y.subnet == x.id)
  }

  /** A network goes with its subnets. */
  function WithSubnets(store: set<Resource>, network: nat): set<Resource> {
    set x | x in store && (x == Network(network) || (x.Subnet? && x.network == network))
  }

  /** The fields of a network under construction; an interface is known by its subnet. */
  datatype Ids = Ids(
    router: Option<nat>, network: Option<nat>, subnet: Option<nat>, interfaced: bool, floatingIp: Option<(nat, nat)>)

  const NO_IDS := Ids(None, None, None, false, None)

  /** The fields are set in the order of the steps. */
  predicate InOrder(ids: Ids) {
    && (ids.floatingIp.Some? ==> ids.interfaced)
    && (ids.interfaced ==> ids.subnet.Some?)
    && (ids.subnet.Some? ==> ids.network.Some?)
    && (ids.network.Some? ==> ids.router.Some?)
  }

  function OwnRouter(ids: Ids): set<Resource> {
    if ids.router.Some? then {Router(ids.router.value)} else {}
  }

  function OwnNetwork(ids: Ids): set<Resource> {
    (if ids.network.Some? then {Network(ids.network.value)} else {}) +
    (if ids.subnet.Some? && ids.network.Some? then {Subnet(ids.subnet.value, ids.network.value)} else {})
  }

  function OwnInterface(ids: Ids): set<Resource> {
    if ids.interfaced && ids.router.Some? && ids.subnet.Some?
    then {Interface(ids.router.value, ids.subnet.value)} else {}
  }

  function OwnFloatingIp(ids: Ids): set<Resource> {
    if ids.floatingIp.Some? then {FloatingIp(ids.floatingIp.value.0, ids.floatingIp.value.1)} else {}
  }

  /** The resources that the fields record. */
  function Owned(ids: Ids): set<Resource> {
    OwnInterface(ids) + OwnRouter(ids) + OwnNetwork(ids) + OwnFloatingIp(ids)
  }

  /** The resource depends on the router, subnet or network. */
  predicate DependsOn(x: Resource, ids: Ids) {
    match x
    case Interface(router, subnet) => Some(router) == ids.router || Some(subnet) == ids.subnet
    case Subnet(_, network) => Some(network) == ids.network
    case Instance(_, network) => Some(network) == ids.network
    case _ => false
  }

  /** What the network owns exists, and nothing else in the cloud depends on it. */
  ghost predicate Separate(store: set<Resource>, ids: Ids) {
    && InOrder(ids) && Owned(ids) <= store
    && forall x :: x in store && DependsOn(x, ids) ==> x in Owned(ids)
  }

  /** All recorded numbers were handed out after `first`. */
  predicate FreshSince(ids: Ids, first: nat) {
    && (ids.router.Some? ==> ids.router.value >= first)
    && (ids.network.Some? ==> ids.network.value >= first)
    && (ids.subnet.Some? ==> ids.subnet.value >= first)
    && (ids.floatingIp.Some? ==> ids.floatingIp.value.0 >= first && ids.floatingIp.value.1 >= first)
  }

  lemma FreshIsSeparate(before: set<Resource>, ids: Ids, first: nat)
    requires InOrder(ids) && FreshSince(ids, first)
    requires forall x :: x in before ==> Older(x, first)
    ensures Separate(before + Owned(ids), ids) && Owned(ids) !! before
  {
    forall x | x in before
      ensures !DependsOn(x, ids) && x !in Owned(ids)
    {
      assert Older(x, first);
    }
  }

  /** What the network owns exists, and nothing else in the cloud depends on it but instances. */
  ghost predicate SeparateButInstances(store: set<Resource>, ids: Ids) {
    && InOrder(ids) && Owned(ids) <= store
    && forall x :: x in store && DependsOn(x, ids) ==> x in Owned(ids) || x.Instance?
  }

  predicate HasInstance(store: set<Resource>, ids: Ids) {
    exists x :: x in store && x.Instance? && Some(x.network) == ids.network
  }

  /** In the order of the clean-up, nothing stands in the way of any step but an instance in the network. */
  lemma CleanupIsFree(store: set<Resource>, ids: Ids)
    requires SeparateButInstances(store, ids)
    ensures
      var s1 := store - OwnInterface(ids);
      var s2 := s1 - OwnRouter(ids);
      && (ids.router.Some? ==> !RouterInUse(s1, ids.router.value))
      && (ids.network.Some? ==> (NetworkInUse(s2, ids.network.value) <==> HasInstance(store, ids)))
      && (ids.network.Some? ==> WithSubnets(s2, ids.network.value) == OwnNetwork(ids))
  {
    var s2 := store - OwnInterface(ids) - OwnRouter(ids);
    if ids.network.Some? {
      var network := ids.network.value;
      forall x, y | x in s2 && y in s2 && x.Subnet? && x.network == network && y.Interface?
        ensures y.subnet != x.id
      {
        assert DependsOn(x, ids) && x in Owned(ids);
        assert y.subnet == x.id ==> DependsOn(y, ids);
      }
      forall x | x in WithSubnets(s2, network)
        ensures x in OwnNetwork(ids)
      {
        assert x.Subnet? ==> DependsOn(x, ids);
      }
      if HasInstance(store, ids) {
        var x :| x in store && x.Instance? && Some(x.network) == ids.network;
        assert x in s2;
      }
    }
  }

  /** The context manager that sets a network up and, when something goes wrong, takes it down. */
  class VirtNetwork {
    const cloud: Cloud
    var ids: Ids

    constructor (cloud: Cloud)
      ensures this.cloud == cloud && ids == NO_IDS
    {
      this.cloud, ids := cloud, NO_IDS;
    }

    method ConfigureNetwork() returns (ok: bool)
      requires cloud.Valid() && ids == NO_IDS
      modifies this`ids, cloud`store, cloud`next, cloud`failed, cloud`calls
      ensures cloud.Valid() && cloud.next >= old(cloud.next)
      ensures cloud.calls == old(cloud.calls) + [FindExternalNetwork]
      ensures InOrder(ids) && FreshSince(ids, old(cloud.next))
      ensures cloud.store == old(cloud.store) + Owned(ids)
      ensures ok ==> ids.floatingIp.Some?
      ensures cloud.failed >= old(cloud.failed) && (ok <==> cloud.failed == old(cloud.failed))
    {
      var external := cloud.Attempt(FindExternalNetwork);
      if !external {
        return false;
      }
      var router := cloud.CreateRouter();
      if router.None? {
        return false;
      }
      ids := ids.(router := router);
      var network := cloud.CreateNetwork();
      if network.None? {
        return false;
      }
      ids := ids.(network := network);
      var subnet := cloud.CreateSubnet(network.value);
      if subnet.None? {
        return false;
      }
      ids := ids.(subnet := subnet);
      var added := cloud.AddInterface(router.value, subnet.value, network.value);
      if !added {
        return false;
      }
      ids := ids.(interfaced := true);
      var floatingIp := cloud.CreateFloatingIp();
      if floatingIp.None? {
        return false;
      }
      ids := ids.(floatingIp := floatingIp);
      ok := true;
    }

    /**
     Takes the network down, step by step; the first failure is logged and ends it. If nothing but instances depends on
     the network, then exactly what the network owns is removed unless a deletion fails or an instance is left in the
     network, and then something is left. If only an instance stands in the way, then it is the network that is left,
     and the floating IP with it.
     */
    method Cleanup()
      requires cloud.Valid() && InOrder(ids) && Owned(ids) <= cloud.store && Owned(ids) !! cloud.asked
      requires forall x :: x in cloud.store && x.Subnet? && Some(x.network) == ids.network ==> x in Owned(ids)
      modifies cloud`store, cloud`faults, cloud`asked
      ensures cloud.Valid() && cloud.faults >= old(cloud.faults)
      ensures old(cloud.store) - Owned(ids) <= cloud.store <= old(cloud.store)
      ensures
        SeparateButInstances(old(cloud.store), ids) ==>
          (cloud.faults == old(cloud.faults) && !HasInstance(old(cloud.store), ids) <==>
          cloud.store == old(cloud.store) - Owned(ids))
      ensures
        SeparateButInstances(old(cloud.store), ids) && HasInstance(old(cloud.store), ids) &&
        cloud.faults == old(cloud.faults) ==>
          cloud.store == old(cloud.store) - OwnInterface(ids) - OwnRouter(ids)
      ensures cloud.asked <= old(cloud.asked) + Owned(ids)
    {
      ghost var first := cloud.store;
      if SeparateButInstances(first, ids) {
        CleanupIsFree(first, ids);
      }
      if ids.interfaced {
        var x := Interface(ids.router.value, ids.subnet.value);
        var ok := cloud.Delete(x, {x}, false);
        if !ok {
          assert x in cloud.store && x in Owned(ids);
          return;
        }
      }
      assert cloud.store == first - OwnInterface(ids);
      if ids.router.Some? {
        var x := Router(ids.router.value);
        var ok := cloud.Delete(x, {x}, RouterInUse(cloud.store, ids.router.value));
        if !ok {
          assert x in cloud.store && x in Owned(ids);
          return;
        }
      }
      assert cloud.store == first - OwnInterface(ids) - OwnRouter(ids);
      if ids.network.Some? {
        var network := ids.network.value;
        var x := Network(network);
        var ok := cloud.Delete(x, WithSubnets(cloud.store, network), NetworkInUse(cloud.store, network));
        if !ok {
          assert x in cloud.store && x in Owned(ids);
          return;
        }
      }
      assert SeparateButInstances(first, ids) ==>
        cloud.store == first - OwnInterface(ids) - OwnRouter(ids) - OwnNetwork(ids);
      if ids.floatingIp.Some? {
        var x := FloatingIp(ids.floatingIp.value.0, ids.floatingIp.value.1);
        var ok := cloud.Delete(x, {x}, false);
        if !ok {
          assert x in cloud.store && x in Owned(ids);
          return;
        }
      }
    }
  }

  /** What the database remembers of a virtual machine. Of its floating IP only the address is recorded. */
  datatype VirtResource = VirtResource(instance: nat, network: nat, subnet: nat, router: nat, address: nat)

  function IdsOf(vm: VirtResource, fip: nat): Ids {
    Ids(Some(vm.router), Some(vm.network), Some(vm.subnet), true, Some((fip, vm.address)))
  }

  function ResourcesOf(vm: VirtResource, fip: nat): set<Resource> {
    Owned(IdsOf(vm, fip)) + {Instance(vm.instance, vm.network)}
  }

  /** The machine's resources exist, nothing else depends on them, and no other floating IP has its address. */
  ghost predicate Provisioned(store: set<Resource>, vm: VirtResource, fip: nat) {
    var instance := Instance(vm.instance, vm.network);
    && instance in store && Separate(store - {instance}, IdsOf(vm, fip))
    && forall x :: x in store && x.FloatingIp? && x.address == vm.address ==> x == FloatingIp(fip, vm.address)
  }

  /**
   How the destruction of a machine ended: the machine could not be looked up, the instance was not gone in time, it was
   wrongly taken to be gone, the floating IPs could not be listed, a deletion failed, or all went well.
   */
  datatype Fate = Unread | TimedOut | Misjudged | Unlisted | Faulted | Destroyed

  /** What is gone after some of the four deletions of the network; the instance may still be there. */
  function Removed(vm: VirtResource, fip: nat, lingers: bool, steps: nat): set<Resource> {
    (if lingers then {} else {Instance(vm.instance, vm.network)}) + NetworkRemoved(IdsOf(vm, fip), steps)
  }

  function NetworkRemoved(ids: Ids, steps: nat): set<Resource> {
    (if steps >= 1 then OwnInterface(ids) else {}) +
    (if steps >= 2 then OwnRouter(ids) else {}) +
    (if steps >= 3 then OwnNetwork(ids) else {}) +
    (if steps >= 4 then OwnFloatingIp(ids) else {})
  }

  /** How far each failure lets the destruction get, and whether the instance is still there. */
  predicate FateFits(fate: Fate, lingers: bool, steps: nat) {
    match fate
    case Unread => lingers && steps == 0
    case TimedOut => lingers && steps == 0
    case Misjudged => lingers && steps == 2
    case Unlisted => !lingers && steps == 3
    case Faulted => steps < 4 && (steps == 3 ==> !lingers)
    case Destroyed => !lingers && steps == 4
  }

  lemma RemovedAll(vm: VirtResource, fip: nat)
    ensures Removed(vm, fip, false, 4) == ResourcesOf(vm, fip)
  {
  }

  lemma SeparateIsAlone(store: set<Resource>, ids: Ids)
    requires Separate(store, ids)
    ensures SeparateButInstances(store, ids) && !HasInstance(store, ids)
  {
    forall x | x in store && x.Instance?
      ensures Some(x.network) != ids.network
    {
      assert x !in Owned(ids);
    }
  }

  lemma WithInstance(store: set<Resource>, ids: Ids, x: Resource)
    requires Separate(store, ids) && x.Instance? && Some(x.network) == ids.network
    ensures SeparateButInstances(store + {x}, ids) && HasInstance(store + {x}, ids)
  {
    assert x in store + {x};
  }

  /** What is done with an instance before it is handed out. */
  function StartingCalls(instance: nat, fip: nat): seq<Call> {
    [WaitForBuild(instance), AssignAddress(fip, instance), Stop(instance), WaitForStop(instance)]
  }

  class VirtManager {
    const cloud: Cloud

    constructor (cloud: Cloud)
      ensures this.cloud == cloud
    {
      this.cloud := cloud;
    }

    /** The steps after the instance was created, in order; the first to fail is the last to be made. */
    method StartAndStop(ghost instance: nat, ghost fip: nat) returns (ok: bool)
      modifies cloud`failed, cloud`calls
      ensures cloud.failed >= old(cloud.failed) && (ok <==> cloud.failed == old(cloud.failed))
      ensures ok ==> cloud.calls == old(cloud.calls) + StartingCalls(instance, fip)
      ensures StartingCalls(instance, fip) ==
        [WaitForBuild(instance), AssignAddress(fip, instance), Stop(instance), WaitForStop(instance)]
      ensures !ok ==> exists k :: 0 < k <= 4 && cloud.calls == old(cloud.calls) + StartingCalls(instance, fip)[..k]
    {
      ghost var steps := StartingCalls(instance, fip);
      for step := 0 to 4
        invariant cloud.failed == old(cloud.failed) && cloud.calls == old(cloud.calls) + steps[..step]
      {
        ok := cloud.Attempt(steps[step]);
        assert steps[..step + 1] == steps[..step] + [steps[step]];
        if !ok {
          return;
        }
      }
      assert steps[..4] == steps;
      ok := true;
    }

    /** Asks for the instance to be deleted, and takes its network down without waiting for that. */
    method AbandonInstance(net: VirtNetwork, instance: nat, ghost before: set<Resource>)
      returns (ghost lingering: set<Resource>)
      requires cloud == net.cloud && cloud.Valid() && net.ids.network.Some?
      requires
        var server := Instance(instance, net.ids.network.value);
        server !in before + Owned(net.ids) && cloud.store == before + Owned(net.ids) + {server}
      requires Owned(net.ids) !! before && Separate(before + Owned(net.ids), net.ids) && cloud.asked == {}
      modifies cloud`store, cloud`faults, cloud`asked, cloud`slow
      ensures cloud.Valid() && cloud.faults >= old(cloud.faults) && before <= cloud.store
      ensures cloud.slow >= old(cloud.slow)
      ensures
        lingering == if cloud.slow > old(cloud.slow) then {Instance(instance, net.ids.network.value)} else {}
      ensures cloud.faults == old(cloud.faults) && cloud.slow == old(cloud.slow) <==> cloud.store == before
      ensures lingering != {} && cloud.faults == old(cloud.faults) ==>
        cloud.store == before + OwnNetwork(net.ids) + OwnFloatingIp(net.ids) + lingering
      ensures cloud.asked <= Owned(net.ids) + {Instance(instance, net.ids.network.value)}
    {
      ghost var lingers;
      var x := Instance(instance, net.ids.network.value);
      var ok;
      ok, lingers := cloud.RequestDeletion(x);
      ghost var left := cloud.store;
      WithInstance(before + Owned(net.ids), net.ids, x);
      SeparateIsAlone(before + Owned(net.ids), net.ids);
      assert left == before + Owned(net.ids) || left == before + Owned(net.ids) + {x};
      net.Cleanup();
      lingering := if lingers then {x} else {};
      assert x in left ==> x in cloud.store;
    }

    /**
     Creates a machine with its own network and floating IP. Whatever step fails, everything created is taken down
     again, and the cloud is as it was exactly when no deletion failed and no instance was left lingering: its deletion
     is not waited for before the network is taken down. A lingering instance leaks its network and its floating IP.
     */
    method CreateVm() returns (vm: Option<VirtResource>, ghost fip: nat, ghost ids: Ids, ghost lingering: set<Resource>)
      requires cloud.Valid()
      modifies cloud
      ensures cloud.Valid() && old(cloud.store) <= cloud.store && cloud.faults >= old(cloud.faults)
      ensures cloud.failed >= old(cloud.failed) && (vm.Some? <==> cloud.failed == old(cloud.failed))
      ensures cloud.slow >= old(cloud.slow) && cloud.lingered == old(cloud.lingered)
      ensures vm.Some? ==> cloud.faults == old(cloud.faults) && cloud.slow == old(cloud.slow)
      ensures vm.None? ==>
        (cloud.faults == old(cloud.faults) && cloud.slow == old(cloud.slow) <==> cloud.store == old(cloud.store))
      ensures lingering == {} <==> cloud.slow == old(cloud.slow)
      ensures vm.None? && lingering != {} && cloud.faults == old(cloud.faults) ==>
        && cloud.store == old(cloud.store) + OwnNetwork(ids) + OwnFloatingIp(ids) + lingering
        && OwnNetwork(ids) + OwnFloatingIp(ids) !! old(cloud.store) && ids.network.Some? && ids.floatingIp.Some?
      ensures vm.Some? ==> cloud.store == old(cloud.store) + ResourcesOf(vm.value, fip) && lingering == {}
      ensures vm.Some? ==>
        cloud.calls == old(cloud.calls) + [FindExternalNetwork] + StartingCalls(vm.value.instance, fip)
      ensures vm.Some? ==> ResourcesOf(vm.value, fip) !! old(cloud.store) && Provisioned(cloud.store, vm.value, fip)
      ensures cloud.asked !! old(cloud.store)
    {
      ghost var before, first := cloud.store, cloud.next;
      fip, lingering := 0, {};
      cloud.BeginCall();
      var net := new VirtNetwork(cloud);
      var ok := net.ConfigureNetwork();
      ids := net.ids;
      FreshIsSeparate(before, net.ids, first);
      SeparateIsAlone(before + Owned(net.ids), net.ids);
      if !ok {
        net.Cleanup();
        return None, fip, ids, lingering;
      }
      var network := net.ids.network.value;
      var instance := cloud.CreateServer(network);
      if instance.None? {
        net.Cleanup();
        return None, fip, ids, lingering;
      }
      ghost var withNet := before + Owned(net.ids);
      ghost var server := Instance(instance.value, network);
      assert server !in withNet by {
        assert server in before ==> Older(server, first);
      }
      assert cloud.store - {server} == withNet;
      ok := StartAndStop(instance.value, net.ids.floatingIp.value.0);
      if !ok {
        lingering := AbandonInstance(net, instance.value, before);
        return None, fip, ids, lingering;
      }
      fip := net.ids.floatingIp.value.0;
      var record := VirtResource(
        instance.value, network, net.ids.subnet.value, net.ids.router.value, net.ids.floatingIp.value.1);
      assert IdsOf(record, fip) == net.ids;
      forall x | x in cloud.store && x.FloatingIp? && x.address == record.address
        ensures x == FloatingIp(fip, record.address)
      {
        assert x in before ==> Older(x, first);
      }
      vm := Some(record);
    }

    /** Deletes every floating IP with the address, of which there is only one. */
    method DeleteFloatingIps(address: nat, ghost fip: nat) returns (ok: bool)
      requires cloud.Valid() && FloatingIp(fip, address) in cloud.store && FloatingIp(fip, address) !in cloud.asked
      requires forall x :: x in cloud.store && x.FloatingIp? && x.address == address ==> x == FloatingIp(fip, address)
      modifies cloud`store, cloud`faults, cloud`asked
      ensures cloud.Valid() && cloud.faults >= old(cloud.faults) && (ok <==> cloud.faults == old(cloud.faults))
      ensures cloud.store == if ok then old(cloud.store) - {FloatingIp(fip, address)} else old(cloud.store)
      ensures cloud.asked == old(cloud.asked) + {FloatingIp(fip, address)}
    {
      ghost var only := FloatingIp(fip, address);
      var fips := set y | y in cloud.store && y.FloatingIp? && y.address == address;
      assert fips == {only};
      ok := true;
      while fips != {}
        invariant cloud.Valid() && cloud.faults == old(cloud.faults) && ok && fips <= {only}
        invariant cloud.store == if fips == {} then old(cloud.store) - {only} else old(cloud.store)
        invariant cloud.asked == if fips == {} then old(cloud.asked) + {only} else old(cloud.asked)
        decreases fips
      {
        var y :| y in fips;
        ok := cloud.Delete(y, {y}, false);
        if !ok {
          return;
        }
        fips := fips - {y};
      }
    }

    /** Takes down a recorded network. An instance that is still in it keeps the network from being deleted. */
    method DestroyNetwork(vm: VirtResource, ghost fip: nat) returns (ok: bool, ghost fate: Fate, ghost steps: nat)
      requires cloud.Valid() && SeparateButInstances(cloud.store, IdsOf(vm, fip))
      requires Owned(IdsOf(vm, fip)) !! cloud.asked
      requires forall x ::
        x in cloud.store && x.FloatingIp? && x.address == vm.address ==> x == FloatingIp(fip, vm.address)
      modifies cloud`store, cloud`faults, cloud`asked, cloud`failed, cloud`calls
      ensures cloud.Valid() && (ok <==> fate == Destroyed)
      ensures cloud.calls == old(cloud.calls) + if steps >= 3 then [ListFloatingIps(vm.address)] else []
      ensures cloud.faults >= old(cloud.faults) && cloud.failed >= old(cloud.failed)
      ensures cloud.faults > old(cloud.faults) <==> fate == Faulted
      ensures cloud.failed > old(cloud.failed) <==> fate == Unlisted
      ensures fate !in {Unread, TimedOut} && FateFits(fate, HasInstance(old(cloud.store), IdsOf(vm, fip)), steps)
      ensures cloud.store == old(cloud.store) - NetworkRemoved(IdsOf(vm, fip), steps)
      ensures old(cloud.asked) <= cloud.asked <= old(cloud.asked) + Owned(IdsOf(vm, fip))
    {
      ghost var start, ids := cloud.store, IdsOf(vm, fip);
      CleanupIsFree(start, ids);
      fate, steps := Faulted, 0;
      var x := Interface(vm.router, vm.subnet);
      ok := cloud.Delete(x, {x}, false);
      if !ok {
        return;
      }
      steps := 1;
      x := Router(vm.router);
      ok := cloud.Delete(x, {x}, RouterInUse(cloud.store, vm.router));
      if !ok {
        return;
      }
      steps := 2;
      assert cloud.store == start - OwnInterface(ids) - OwnRouter(ids);
      x := Network(vm.network);
      ok := cloud.Delete(x, WithSubnets(cloud.store, vm.network), NetworkInUse(cloud.store, vm.network));
      if !ok {
        if HasInstance(start, ids) {
          fate := Misjudged;
        }
        return;
      }
      steps := 3;
      ok := cloud.Attempt(ListFloatingIps(vm.address));
      if !ok {
        fate := Unlisted;
        return;
      }
      ok := DeleteFloatingIps(vm.address, fip);
      if ok {
        fate, steps := Destroyed, 4;
      }
    }

    /**
     Destroys a recorded machine. It succeeds, and removes exactly the machine's resources, if no deletion and no read
     fails and the instance is really gone; otherwise `fate` says what went wrong, and what is left.
     */
    method DestroyVm(vm: VirtResource, ghost fip: nat)
      returns (ok: bool, ghost fate: Fate, ghost lingers: bool, ghost steps: nat)
      requires cloud.Valid() && Provisioned(cloud.store, vm, fip)
      modifies cloud`store, cloud`faults, cloud`asked, cloud`failed, cloud`slow, cloud`lingered, cloud`calls
      ensures cloud.Valid()
      ensures ok <==> fate == Destroyed
      ensures
        ok <==>
        cloud.faults == old(cloud.faults) && cloud.failed == old(cloud.failed) && cloud.lingered == old(cloud.lingered)
      ensures cloud.faults > old(cloud.faults) <==> fate == Faulted
      ensures cloud.failed > old(cloud.failed) <==> fate in {Unread, Unlisted}
      ensures
        cloud.lingered > old(cloud.lingered) && cloud.faults == old(cloud.faults) <==> fate in {TimedOut, Misjudged}
      ensures cloud.faults >= old(cloud.faults) && cloud.failed >= old(cloud.failed)
      ensures cloud.lingered >= old(cloud.lingered)
      ensures fate == Unread <==> cloud.asked == {}
      ensures
        cloud.calls ==
        old(cloud.calls) + [FindServer(vm.instance)] + if steps >= 3 then [ListFloatingIps(vm.address)] else []
      ensures fate == TimedOut ==> cloud.asked == {Instance(vm.instance, vm.network)}
      ensures cloud.store == old(cloud.store) - Removed(vm, fip, lingers, steps)
      ensures FateFits(fate, lingers, steps)
      ensures ok ==> cloud.store == old(cloud.store) - ResourcesOf(vm, fip)
      ensures cloud.asked <= ResourcesOf(vm, fip)
    {
      cloud.BeginCall();
      ghost var before, ids, first := cloud.store, IdsOf(vm, fip), cloud.store - {Instance(vm.instance, vm.network)};
      RemovedAll(vm, fip);
      fate, lingers, steps := Unread, true, 0;
      ok := cloud.Attempt(FindServer(vm.instance));
      if !ok {
        return;
      }
      var x := Instance(vm.instance, vm.network);
      ok, lingers := cloud.RequestDeletion(x);
      if !ok {
        fate, lingers := Faulted, true;
        return;
      }
      ghost var gone;
      ok, gone := cloud.AwaitDeletion(x);
      lingers := !gone;
      if !ok {
        fate := TimedOut;
        return;
      }
      SeparateIsAlone(first, ids);
      WithInstance(first, ids, x);
      assert first + {x} == before;
      assert cloud.store == if lingers then before else first;
      ok, fate, steps := DestroyNetwork(vm, fip);
    }

    /**
     A whole life: a machine is created and destroyed exactly when no call fails, no deletion fails and the instance is
     gone in time, and then the cloud is as it was.
     */
    method CreateThenDestroy() returns (created: bool, destroyed: bool)
      requires cloud.Valid()
      modifies cloud
      ensures
        created && destroyed <==>
        cloud.failed == old(cloud.failed) && cloud.faults == old(cloud.faults) && cloud.lingered == old(cloud.lingered)
      ensures created && destroyed ==> cloud.store == old(cloud.store)
      ensures !created ==>
        (cloud.faults == old(cloud.faults) && cloud.slow == old(cloud.slow) <==> cloud.store == old(cloud.store))
    {
      var vm;
      ghost var fip, ids, lingering, fate, lingers, steps;
      vm, fip, ids, lingering := CreateVm();
      created, destroyed := vm.Some?, false;
      if created {
        destroyed, fate, lingers, steps := DestroyVm(vm.value, fip);
      }
    }
  }
}
