/** libcurl's c-ares resolver: one look-up waits for several queries; each completed query
    splices its addresses in front of the list gathered so far, and the whole list is
    handed to the connection when no query is pending any more. */
module ResolverAres {
  import opened Basics
  import opened Multisets

  /** What c-ares reports for a query; its failures are told apart by a number. */
  datatype Status = Success | NotFound | Cancelled | Destruction | Failure(code: int)

  /** A completed query: its status and the addresses of its host entry. */
  datatype Completion = Completion(status: Status, addresses: seq<nat>)

  // ------------------------------------------------------- what the completions mean

  /** The addresses of the successful queries, those of the latest first. */
  function Gathered(events: seq<Completion>): seq<nat> {
    if events == [] then []
    else
      var last := events[|events| - 1];
      Own(last) + Gathered(events[..|events| - 1])
  }

  /** The status kept: a success overwrites any error, and is itself never overwritten. */
  function LastStatus(events: seq<Completion>): Status {
    if events == [] then NotFound
    else
      var before := LastStatus(events[..|events| - 1]);
      if before == Success then Success else events[|events| - 1].status
  }

  predicate SomeSucceeded(events: seq<Completion>) {
    exists i | 0 <= i < |events| :: events[i].status == Success
  }

  lemma {:induction false} SuccessIsKept(events: seq<Completion>)
    ensures LastStatus(events) == Success <==> SomeSucceeded(events)
  {
    if events != [] {
      var n := |events| - 1;
      SuccessIsKept(events[..n]);
      if SomeSucceeded(events) {
        var i :| 0 <= i < |events| && events[i].status == Success;
        assert i < n ==> events[..n][i].status == Success;
      }
    }
  }

  /** What one completion adds. */
  function Own(event: Completion): seq<nat> {
    if event.status == Success then event.addresses else []
  }

  /** A success adds all the addresses of its host entry, anything else none. */
  lemma GatheredOne(event: Completion)
    ensures Gathered([event]) == if event.status == Success then event.addresses else []
  {
    assert [event][..0] == [];
    assert Gathered([]) == [];
    assert Own(event) + [] == Own(event);
  }

  /** The address at every place of the gathered list: the latest successful completion comes
      first, whole and in order, and behind it what was gathered before. */
  lemma GatheredFrom(events: seq<Completion>, event: Completion, more: seq<Completion>)
    requires forall i | 0 <= i < |more| :: more[i].status != Success
    ensures Gathered(events + [event] + more) ==
            (if event.status == Success then event.addresses else []) + Gathered(events)
  {
    GatheredSplits(events + [event], more);
    GatheredSplits(events, [event]);
    GatheredOne(event);
    NoneGathered(more);
    hide Gathered;
    assert [] + Gathered(events + [event]) == Gathered(events + [event]);
  }

  lemma {:induction false} NoneGathered(events: seq<Completion>)
    requires forall i | 0 <= i < |events| :: events[i].status != Success
    ensures Gathered(events) == []
    decreases |events|
  {
    if events != [] {
      NoneGathered(events[..|events| - 1]);
    }
  }

  /** Without a success the status is that of the latest completion, "not found" at first. */
  lemma {:induction false} FailureIsLatest(events: seq<Completion>)
    requires forall i | 0 <= i < |events| :: events[i].status != Success
    ensures LastStatus(events) == if events == [] then NotFound else events[|events| - 1].status
    decreases |events|
  {
    if events != [] {
      var n := |events| - 1;
      FailureIsLatest(events[..n]);
      assert n > 0 ==> LastStatus(events[..n]) == events[..n][n - 1].status;
    }
  }

  lemma GatheredMore(events: seq<Completion>, event: Completion)
    ensures Gathered(events + [event]) == Own(event) + Gathered(events)
    ensures LastStatus(events + [event]) == if LastStatus(events) == Success then Success else event.status
  {
    assert (events + [event])[..|events|] == events;
  }

  lemma {:induction false} GatheredSplits(events: seq<Completion>, more: seq<Completion>)
    ensures Gathered(events + more) == Gathered(more) + Gathered(events)
    decreases |more|
  {
    if more == [] {
      assert events + more == events;
      assert Gathered(more) + Gathered(events) == Gathered(events);
    } else {
      hide Gathered, Own;
      var n := |more| - 1;
      GatheredSplits(events, more[..n]);
      GatheredMore(more[..n], more[n]);
      GatheredMore(events + more[..n], more[n]);
      LastOff(events, more);
      Regroup(Own(more[n]), Gathered(more[..n]), Gathered(events));
    }
  }

  lemma LastOff(events: seq<Completion>, more: seq<Completion>)
    requires more != []
    ensures more[..|more| - 1] + [more[|more| - 1]] == more
    ensures events + more[..|more| - 1] + [more[|more| - 1]] == events + more
  {
  }

  lemma {:induction false} NothingGathered(events: seq<Completion>)
    requires LastStatus(events) != Success
    ensures Gathered(events) == []
  {
    if events != [] {
      NothingGathered(events[..|events| - 1]);
    }
  }

  /** In whatever order the queries complete, the same addresses are gathered, and the
      look-up succeeds or fails alike. */
  lemma {:induction false} OrderIsImmaterial(events: seq<Completion>, others: seq<Completion>)
    requires multiset(events) == multiset(others)
    ensures multiset(Gathered(events)) == multiset(Gathered(others))
    ensures LastStatus(events) == Success <==> LastStatus(others) == Success
  {
    SuccessIsKept(events);
    SuccessIsKept(others);
    SameMembers(events, others);
    SameMembers(others, events);
    SameGathered(events, others);
  }

  lemma SameMembers(events: seq<Completion>, others: seq<Completion>)
    requires multiset(events) == multiset(others)
    ensures SomeSucceeded(events) ==> SomeSucceeded(others)
  {
    if SomeSucceeded(events) {
      var i :| 0 <= i < |events| && events[i].status == Success;
      assert events[i] in multiset(events);
      assert events[i] in others;
    }
  }

  lemma {:induction false} SameGathered(events: seq<Completion>, others: seq<Completion>)
    requires multiset(events) == multiset(others)
    ensures multiset(Gathered(events)) == multiset(Gathered(others))
    decreases |events|
  {
    hide Own;
    if events == [] {
      assert |multiset(others)| == 0;
    } else {
      var first, before, behind := TakeTwin(events, others);
      SameGathered(first, before + behind);
      GatheredMore(first, events[|events| - 1]);
      GatheredInsert(before, events[|events| - 1], behind);
    }
  }

  /** The last completion of `events`, found in `others`. */
  lemma TakeTwin(events: seq<Completion>, others: seq<Completion>)
      returns (first: seq<Completion>, before: seq<Completion>, behind: seq<Completion>)
    requires multiset(events) == multiset(others) && events != []
    ensures |first| < |events| && events == first + [events[|events| - 1]]
    ensures others == before + [events[|events| - 1]] + behind
    ensures multiset(first) == multiset(before + behind)
  {
    var event := events[|events| - 1];
    first := events[..|events| - 1];
    assert events == first + [event];
    assert event in multiset(events);
    assert event in others;
    var k :| 0 <= k < |others| && others[k] == event;
    before, behind := others[..k], others[k + 1..];
    OneOut(others, k);
    assert others == before + [event] + behind;
    Cancel(multiset(first), multiset(before + behind), multiset{event});
  }

  lemma GatheredInsert(before: seq<Completion>, event: Completion, behind: seq<Completion>)
    ensures multiset(Gathered(before + [event] + behind)) ==
            multiset(Own(event)) + multiset(Gathered(before + behind))
  {
    hide Gathered, Own;
    GatheredSplits(before + [event], behind);
    GatheredSplits(before, behind);
    GatheredMore(before, event);
  }

  // --------------------------------------------------------------------- linked lists

  class AddrInfo {
    const address: nat
    var next: AddrInfo?

    constructor (address: nat)
      ensures this.address == address && next == null
    {
      this.address := address;
      next := null;
    }
  }

  /** `p` is the first of exactly these nodes, linked in this order. */
  ghost predicate IsList(p: AddrInfo?, nodes: seq<AddrInfo>)
    reads nodes
  {
    if nodes == [] then p == null
    else
      p == nodes[0] && nodes[|nodes| - 1].next == null
      && forall i | 0 <= i < |nodes| - 1 :: nodes[i].next == nodes[i + 1]
  }

  ghost function Addresses(nodes: seq<AddrInfo>): (r: seq<nat>)
    ensures |r| == |nodes|
  {
    if nodes == [] then [] else Addresses(nodes[..|nodes| - 1]) + [nodes[|nodes| - 1].address]
  }

  lemma {:induction false} AddressesSplit(a: seq<AddrInfo>, b: seq<AddrInfo>)
    ensures Addresses(a + b) == Addresses(a) + Addresses(b)
  {
    if b == [] {
      assert a + b == a;
    } else {
      AddressesSplit(a, b[..|b| - 1]);
      assert (a + b)[..|a + b| - 1] == a + b[..|b| - 1];
    }
  }

  /** The addresses of the nodes, in the order of the list. */
  lemma {:induction false} AddressesAt(nodes: seq<AddrInfo>, i: nat)
    requires i < |nodes|
    ensures Addresses(nodes)[i] == nodes[i].address
    decreases |nodes|
  {
    if i < |nodes| - 1 {
      AddressesAt(nodes[..|nodes| - 1], i);
    }
  }

  lemma LastIsOnce(p: AddrInfo?, nodes: seq<AddrInfo>)
    requires IsList(p, nodes)
    ensures forall i | 0 <= i < |nodes| - 1 :: nodes[i] != nodes[|nodes| - 1]
  {
    forall i | 0 <= i < |nodes| - 1
      ensures nodes[i] != nodes[|nodes| - 1]
    {
      assert nodes[i].next == nodes[i + 1];
    }
  }

  lemma NoneIsNull(p: AddrInfo?, nodes: seq<AddrInfo>)
    requires IsList(p, nodes)
    ensures nodes != [] ==> p != null
    ensures forall i | 0 <= i < |nodes| - 1 :: nodes[i].next != null
  {
    if nodes != [] {
      var n: AddrInfo := nodes[0];
      assert p == n;
    }
    forall i | 0 <= i < |nodes| - 1
      ensures nodes[i].next != null
    {
      var n: AddrInfo := nodes[i + 1];
      assert nodes[i].next == n;
    }
  }

  /** `Curl_he2ai`: a new list of the addresses of a host entry, null if it has none. */
  method FromHost(addresses: seq<nat>) returns (first: AddrInfo?, ghost nodes: seq<AddrInfo>)
    ensures IsList(first, nodes) && fresh(nodes) && Addresses(nodes) == addresses
  {
    first, nodes := null, [];
    var last: AddrInfo? := null;
    var i := 0;
    while i < |addresses|
      invariant 0 <= i <= |addresses| && fresh(nodes)
      invariant IsList(first, nodes) && Addresses(nodes) == addresses[..i]
      invariant last == if nodes == [] then null else nodes[|nodes| - 1]
    {
      var ai := new AddrInfo(addresses[i]);
      LastIsOnce(first, nodes);
      if first == null {
        first := ai;
      }
      if last != null {
        last.next := ai;
      }
      last := ai;
      AddressesSplit(nodes, [ai]);
      nodes := nodes + [ai];
      i := i + 1;
    }
  }

  // ------------------------------------------------------------------------- a look-up

  /** What the connection's callback is given: the status and the whole list. */
  datatype HandOver = HandOver(status: Status, addresses: seq<nat>)

  /** The look-up of one connection: its `ResolverResults`, as long as `active`, and a
      history of the completions counted, the lists handed over and the lists freed. */
  class Lookup {
    var pending: int
    var tempAi: AddrInfo?
    var lastStatus: Status
    var active: bool
    ghost var nodes: seq<AddrInfo>
    ghost const queries: nat
    ghost var events: seq<Completion>
    ghost var handed: seq<HandOver>
    ghost var freed: seq<seq<nat>>

    /** While the look-up is active it holds what its completed queries amount to and has
        given nothing away; afterwards it holds nothing: the whole list has been handed over
        once, with every query completed, or it has been freed once. */
    ghost predicate Valid()
      reads this, nodes
    {
      && IsList(tempAi, nodes)
      && if active then
           pending == queries - |events| && pending >= 0
           && Addresses(nodes) == Gathered(events) && lastStatus == LastStatus(events)
           && handed == [] && freed == []
         else
           nodes == []
           && ((handed == [HandOver(LastStatus(events), Gathered(events))] && |events| == queries && freed == [])
               || (handed == [] && freed == if Gathered(events) == [] then [] else [Gathered(events)]))
    }

    /** `Curl_resolver_getaddrinfo` once its queries are under way. */
    constructor (queries: nat)
      ensures Valid() && active && pending == queries == this.queries && events == [] && handed == [] && freed == []
    {
      pending, tempAi, lastStatus, active := queries, null, NotFound, true;
      nodes, events, handed, freed := [], [], [], [];
      this.queries := queries;
    }

    /** `compound_results`: the new list, walked to its tail, in front of the old one. */
    method Compound(ai: AddrInfo?, ghost added: seq<AddrInfo>)
      requires IsList(tempAi, nodes) && IsList(ai, added) && forall n :: n in added ==> n !in nodes
      modifies this`tempAi, this`nodes, added
      ensures nodes == added + old(nodes) && IsList(tempAi, nodes)
    {
      NoneIsNull(ai, added);
      if ai == null {
        assert added + nodes == nodes;
        return;
      }
      var tail: AddrInfo := ai;
      ghost var k := 0;
      while tail.next != null
        invariant 0 <= k < |added| && tail == added[k]
        decreases |added| - k
      {
        assert k < |added| - 1;
        tail := tail.next;
        k := k + 1;
      }
      LastIsOnce(ai, added);
      tail.next := tempAi;
      tempAi := ai;
      ghost var rest := nodes;
      nodes := added + nodes;
      forall i | 0 <= i < |nodes| - 1
        ensures nodes[i].next == nodes[i + 1]
      {
        if i >= |added| {
          assert nodes[i] == rest[i - |added|];
        }
      }
      if rest != [] {
        assert nodes[|nodes| - 1] == rest[|rest| - 1];
        assert rest[|rest| - 1] !in added && tail in added;
      }
    }

    /** A new list of these addresses, if there are any, spliced in front. */
    method Splice(addresses: seq<nat>)
      requires IsList(tempAi, nodes)
      modifies this`tempAi, this`nodes
      ensures IsList(tempAi, nodes) && Addresses(nodes) == addresses + old(Addresses(nodes))
      ensures fresh(set n | n in nodes && n !in old(nodes))
    {
      var ai, added := FromHost(addresses);
      AddressesSplit(added, nodes);
      if ai != null {
        Compound(ai, added);
      } else {
        assert addresses + Addresses(nodes) == Addresses(nodes);
      }
    }

    /** `query_completed_cb`. */
    method QueryCompleted(event: Completion)
      requires Valid() && active
      requires event.status != Destruction ==> pending > 0
      modifies this
      ensures Valid() && active
      ensures handed == old(handed) && freed == old(freed)
      ensures if event.status == Destruction then events == old(events) && pending == old(pending)
              else events == old(events) + [event] && pending == old(pending) - 1
      ensures event.status == Success ==> Addresses(nodes) == event.addresses + old(Addresses(nodes))
      ensures event.status != Success ==> nodes == old(nodes) && tempAi == old(tempAi)
      ensures lastStatus ==
              if event.status == Destruction || old(lastStatus) == Success then old(lastStatus) else event.status
      ensures fresh(set n | n in nodes && n !in old(nodes))
    {
      hide Gathered, LastStatus, IsList, Addresses;
      if event.status == Destruction {
        return;
      }
      GatheredMore(events, event);
      pending := pending - 1;
      if event.status == Success {
        Splice(event.addresses);
      } else {
        assert [] + Addresses(nodes) == Addresses(nodes);
      }
      if lastStatus != Success {
        lastStatus := event.status;
      }
      events := events + [event];
    }
  
    /** The callbacks that `waitperform` runs, one for each query completed meanwhile. */
    method Arrive(arrived: seq<Completion>)
      requires Valid() && Possible(arrived)
      modifies this
      ensures Valid() && active == old(active) && events == old(events) + arrived
      ensures active ==> pending == old(pending) - |arrived|
      ensures !active ==> handed == old(handed) && freed == old(freed)
    {
      hide Valid;
      var i := 0;
      assert events + [] == events;
      while i < |arrived|
        invariant 0 <= i <= |arrived|
        invariant Valid() && active == old(active) && events == old(events) + arrived[..i]
        invariant active ==> pending == old(pending) - i
        invariant !active ==> handed == old(handed) && freed == old(freed)
      {
        assert arrived[i].status != Destruction;
        QueryCompleted(arrived[i]);
        i := i + 1;
      }
    }

    /** Only pending queries complete. */
    ghost predicate Possible(arrived: seq<Completion>)
      reads this
    {
      (arrived == [] || (active && |arrived| <= pending))
      && forall i | 0 <= i < |arrived| :: arrived[i].status != Destruction
    }

    /** `destroy_async_data`. */
    method Destroy()
      requires Valid()
      modifies this
      ensures Valid() && !active && events == old(events) && handed == old(handed)
    {
      if active {
        if tempAi != null {
          freed := freed + [Addresses(nodes)];
          tempAi, nodes := null, [];
        }
        active := false;
      }
    }

    /** `Curl_resolver_is_resolved`, while `arrived` completes: the list is handed over
        when nothing is pending any more, and not before. */
    method IsResolved(arrived: seq<Completion>) returns (entry: bool)
      requires Valid() && Possible(arrived)
      modifies this
      ensures Valid() && events == old(events) + arrived
      ensures old(active) ==> if |events| == queries
                              then !active && handed == [HandOver(LastStatus(events), Gathered(events))]
                              else active
      ensures !old(active) ==> !active && handed == old(handed) && freed == old(freed)
      ensures entry <==> old(active) && !active && LastStatus(events) == Success && Gathered(events) != []
    {
      entry := false;
      Arrive(arrived);
      if active && pending == 0 {
        handed := handed + [HandOver(lastStatus, Addresses(nodes))];
        entry := lastStatus == Success && tempAi != null;
        tempAi, nodes := null, [];
        active := false;
      }
    }
  
    /** `ares_cancel`: every pending query completes as cancelled. */
    method CancelQueries()
      requires Valid()
      modifies this
      ensures Valid() && active == old(active) && (active ==> pending == 0)
      ensures handed == old(handed) && freed == old(freed)
      ensures old(events) <= events && forall i | |old(events)| <= i < |events| :: events[i].status == Cancelled
    {
      assert active ==> pending >= 0;
      hide Valid;
      while active && pending > 0
        invariant Valid() && active == old(active) && (active ==> pending >= 0)
        invariant handed == old(handed) && freed == old(freed)
        invariant old(events) <= events && forall i | |old(events)| <= i < |events| :: events[i].status == Cancelled
        decreases pending
      {
        QueryCompleted(Completion(Cancelled, []));
      }
    }

    /** `Curl_resolver_cancel`. */
    method Cancel()
      requires Valid()
      modifies this
      ensures Valid() && !active && handed == old(handed)
      ensures old(active) ==> freed == if Gathered(old(events)) == [] then [] else [Gathered(old(events))]
    {
      CancelQueries();
      CancelledAddNothing(old(events), events);
      Destroy();
    }

    /** The loop of `Curl_resolver_wait_resolv`. Its environment: in each round the queries
        that complete while it waits and while it asks, whether the application aborts, and
        the time spent, of which at least 1 ms is deducted. It ends within `timeout` rounds,
        and then the list has been handed over or no query is pending. */
    method WaitResolv(timeout: int, round: nat -> Round) returns (ghost rounds: nat, aborted: bool)
      requires Valid() && active
               && forall k, i | 0 <= i < |round(k).arrived| :: round(k).arrived[i].status != Destruction
      modifies this
      ensures Valid() && rounds <= if timeout < 0 then 1 else timeout + 1
      ensures if active then pending == 0 && handed == [] && freed == []
              else handed == [HandOver(LastStatus(events), Gathered(events))] && |events| == queries
      ensures aborted ==> active
    {
      var left, k := timeout, 0;
      aborted := false;
      while true
        invariant Valid() && active && !aborted
        invariant k == 0 || left >= 0
        invariant k + left <= timeout
        decreases left
      {
        var arrived := round(k).arrived;
        if |arrived| > pending {
          arrived := arrived[..pending];
        }
        var entry := IsResolved(arrived);
        if !active {
          break;
        }
        if round(k).aborts {
          aborted, left := true, -1;
        } else {
          left := left - if round(k).spent != 0 then round(k).spent else 1;
        }
        k := k + 1;
        if left < 0 {
          CancelQueries();
          break;
        }
      }
      rounds := k;
    }
  }

  /** What happens in one round of waiting. */
  datatype Round = Round(arrived: seq<Completion>, aborts: bool, spent: nat)

  lemma {:induction false} CancelledAddNothing(events: seq<Completion>, more: seq<Completion>)
    requires events <= more && forall i | |events| <= i < |more| :: more[i].status == Cancelled
    ensures Gathered(more) == Gathered(events)
    decreases |more|
  {
    if |more| == |events| {
      assert more == events;
    } else {
      CancelledAddNothing(events, more[..|more| - 1]);
    }
  }
}
