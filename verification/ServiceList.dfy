/**
 The linked list of registered services, as `registerServiceIo` builds it and the receive loop walks it.
 Sequential view; the walk interleaved with registrations is a part of the PacketIo machine.
 */
module ServiceList {

  class ServiceNode {
    const id: nat
    var stopped: bool
    var next: ServiceNode?
    var inbox: seq<nat>  // packets given to ioInput

    constructor (id: nat)
      ensures this.id == id && stopped && next == null && inbox == []
    {
      this.id, stopped, next, inbox := id, true, null, [];
    }

    predicate Takes(serviceId: nat)
      reads this
    {
      id == serviceId && !stopped
    }
  }

  class Registry {
    var first: ServiceNode?
    ghost var list: seq<ServiceNode>

    /** The pointers spell out `list`, without repetition and in registration order. */
    ghost predicate Chain()
      reads this, list
    {
      && (list == [] ==> first == null) && (list != [] ==> first == list[0])
      && (forall i :: 0 <= i < |list| - 1 ==> list[i].next == list[i + 1])
      && (forall i, j :: 0 <= i < j < |list| ==> list[i] != list[j])
    }

    /** And they end there: the list is finite and acyclic. */
    ghost predicate Valid()
      reads this, list
    {
      Chain() && (list != [] ==> list[|list| - 1].next == null)
    }

    /** The nodes of `list` still follow one another, and the last one leads back to `service`. */
    ghost predicate Closes(service: ServiceNode)
      reads this, list
    {
      && service in list && list[|list| - 1].next == service
      && (forall i :: 0 <= i < |list| - 1 ==> list[i].next == list[i + 1])
    }

    constructor ()
      ensures Valid() && list == []
    {
      first, list := null, [];
    }

    /**
     Appends behind the last node, whatever the service's own next pointer says: the list ends with a new service
     iff that pointer is null. A service that is listed already is not refused, and the list becomes a cycle.
     */
    method Register(service: ServiceNode)
      requires Valid()
      modifies this, list
      ensures service !in old(list) ==>
        Chain() && list == old(list) + [service] && service.next == old(service.next) && (Valid() <==> service.next == null)
      ensures service in old(list) ==> list == old(list) && first == old(first) && Closes(service)
      ensures forall s :: s in old(list) ==> s.stopped == old(s.stopped) && s.inbox == old(s.inbox)
    {
      ghost var again := service in list;
      if first == null {
        first := service;
      } else {
        var last: ServiceNode := first;
        ghost var i := 0;
        while last.next != null
          invariant Valid() && 0 <= i < |list| && last == list[i]
          invariant i < |list| - 1 ==> last.next == list[i + 1]
          decreases |list| - i
        {
          last := last.next;
          i := i + 1;
        }
        assert i == |list| - 1;
        last.next := service;
        assert forall j :: 0 <= j < |list| - 1 ==> list[j].next == list[j + 1];
      }
      if !again {
        list := list + [service];
        assert forall j :: 0 <= j < |list| - 1 ==> list[j].next == list[j + 1];
      }
    }

    /** Gives the packet to the first running service with its id; tells whether there was one. */
    method Dispatch(serviceId: nat, packet: nat) returns (delivered: bool, ghost taker: nat)
      requires Valid()
      modifies list
      ensures Valid() && list == old(list)
      ensures delivered <==> exists i :: 0 <= i < |list| && old(list[i].Takes(serviceId))
      ensures delivered ==>
        && taker < |list| && old(list[taker].Takes(serviceId))
        && (forall i :: 0 <= i < taker ==> !old(list[i].Takes(serviceId)))
      ensures forall i :: 0 <= i < |list| ==>
        && list[i].stopped == old(list[i].stopped)
        && list[i].inbox == old(list[i].inbox) + if delivered && i == taker then [packet] else []
    {
      delivered, taker := false, 0;
      var service := first;
      while service != null
        invariant Valid() && 0 <= taker <= |list| && !delivered
        invariant if taker < |list| then service == list[taker] else service == null
        invariant forall i :: 0 <= i < taker ==> !list[i].Takes(serviceId)
        decreases |list| - taker
      {
        if service.id == serviceId && !service.stopped {
          service.inbox := service.inbox + [packet];
          delivered := true;
          return;
        }
        service := service.next;
        taker := taker + 1;
      }
    }
  }

  // ---------------------------------------------------------------- why each service registers once

  type Links = map<nat, nat>  // a node without an entry has a null next pointer

  /** A walk from `n` can follow `k` next pointers. */
  predicate Continues(next: Links, n: nat, k: nat)
    decreases k
  {
    k == 0 || (n in next && Continues(next, next[n], k - 1))
  }

  predicate Spells(next: Links, list: seq<nat>) {
    && (forall i :: 0 <= i < |list| ==> (list[i] in next <==> i + 1 < |list|))
    && (forall i :: 0 <= i < |list| - 1 ==> next[list[i]] == list[i + 1])
  }

  lemma {:induction false} CycleGoesOn(next: Links, list: seq<nat>, i: nat, j: nat, k: nat)
    requires Spells(next, list) && i < |list| && j < |list|
    ensures Continues(next[list[|list| - 1] := list[i]], list[j], k)
    decreases k
  {
    if k > 0 {
      if j + 1 < |list| && list[j] != list[|list| - 1] {
        CycleGoesOn(next, list, i, j + 1, k - 1);
      } else {
        CycleGoesOn(next, list, i, i, k - 1);
      }
    }
  }

  lemma {:induction false} WalkReaches(next: Links, list: seq<nat>, j: nat)
    requires Spells(next, list) && j < |list|
    ensures !Continues(next, list[j], |list| - j)
    decreases |list| - j
  {
    if j + 1 < |list| {
      WalkReaches(next, list, j + 1);
    }
  }

  /** Appending a node to the list ends the walk exactly when the node was not in the list already. */
  lemma AppendEndsIffNew(next: Links, list: seq<nat>, service: nat)
    requires list != [] && Spells(next, list) && (service !in next || service in list)
    ensures var next' := next[list[|list| - 1] := service];
      service !in list <==> exists k: nat :: !Continues(next', list[0], k)
  {
    var last := |list| - 1;
    var next' := next[list[last] := service];
    if service in list {
      var i :| 0 <= i < |list| && list[i] == service;
      forall k: nat ensures Continues(next', list[0], k) {
        CycleGoesOn(next, list, i, 0, k);
      }
    } else {
      WalkReaches(next', list + [service], 0);
    }
  }
}
