/**
 * The first phase of `applyAssignments`: one round-robin queue of slot indices
 * per endpoint host, and the locality pass that sends each region hosted on a
 * slot's host to the slot at the head of that host's queue, rotating the queue.
 * Regions are visited in `order`, the iteration order of the unordered set the
 * source builds (any permutation of the region indices).
 */
module Locality {
  import opened SlotLists
  import opened JavaInts

  type Host = string

  /** Every region index `order` visits names a region. */
  predicate ValidOrder(order: seq<nat>, regionCount: nat)
  {
    forall t :: 0 <= t < |order| ==> order[t] < regionCount
  }

  // ---------------------------------------------------------------------
  // Host queues

  /** The slot indices whose endpoint address is `h`, ascending: the queue built for `h`. */
  function SlotsOn(endpoints: seq<Host>, h: Host): seq<nat>
  {
    if endpoints == [] then []
    else SlotsOn(endpoints[..|endpoints| - 1], h)
         + (if endpoints[|endpoints| - 1] == h then [|endpoints| - 1] else [])
  }

  /** A slot's place in its host's queue: how many earlier slots share its host. */
  function Pos(endpoints: seq<Host>, s: nat): nat
    requires s < |endpoints|
  {
    |SlotsOn(endpoints[..s], endpoints[s])|
  }

  lemma {:induction false} SlotsOnPrefix(endpoints: seq<Host>, k: nat, h: Host)
    requires k <= |endpoints|
    ensures |SlotsOn(endpoints[..k], h)| <= |SlotsOn(endpoints, h)|
    ensures SlotsOn(endpoints[..k], h) == SlotsOn(endpoints, h)[..|SlotsOn(endpoints[..k], h)|]
    decreases |endpoints|
  {
    assert endpoints[..|endpoints|] == endpoints;
    if k < |endpoints| {
      var n := |endpoints| - 1;
      assert endpoints[..n][..k] == endpoints[..k];
      SlotsOnPrefix(endpoints[..n], k, h);
    }
  }

  /** The queue of a host holds exactly the slots on that host, each below N, strictly ascending. */
  lemma {:induction false} SlotsOnMembers(endpoints: seq<Host>, h: Host)
    ensures forall j :: 0 <= j < |SlotsOn(endpoints, h)| ==>
              SlotsOn(endpoints, h)[j] < |endpoints| && endpoints[SlotsOn(endpoints, h)[j]] == h
    ensures forall j, j' :: 0 <= j < j' < |SlotsOn(endpoints, h)| ==> SlotsOn(endpoints, h)[j] < SlotsOn(endpoints, h)[j']
  {
    if endpoints != [] {
      var n := |endpoints| - 1;
      SlotsOnMembers(endpoints[..n], h);
    }
  }

  /** A slot stands in its host's queue at position `Pos`. */
  lemma SlotsOnAtPos(endpoints: seq<Host>, s: nat)
    requires s < |endpoints|
    ensures Pos(endpoints, s) < |SlotsOn(endpoints, endpoints[s])|
    ensures SlotsOn(endpoints, endpoints[s])[Pos(endpoints, s)] == s
  {
    var h := endpoints[s];
    assert endpoints[..s + 1][..s] == endpoints[..s];
    assert SlotsOn(endpoints[..s + 1], h) == SlotsOn(endpoints[..s], h) + [s];
    SlotsOnPrefix(endpoints, s + 1, h);
  }

  /** The slot at position j of a host's queue has position j. */
  lemma PosOfQueueEntry(endpoints: seq<Host>, h: Host, j: nat)
    requires j < |SlotsOn(endpoints, h)|
    ensures SlotsOn(endpoints, h)[j] < |endpoints| && endpoints[SlotsOn(endpoints, h)[j]] == h
    ensures Pos(endpoints, SlotsOn(endpoints, h)[j]) == j
  {
    SlotsOnMembers(endpoints, h);
    var s := SlotsOn(endpoints, h)[j];
    SlotsOnAtPos(endpoints, s);
  }

  lemma {:induction false} SlotsOnEmpty(endpoints: seq<Host>, h: Host)
    ensures SlotsOn(endpoints, h) == [] <==> h !in endpoints
  {
    if endpoints != [] {
      var n := |endpoints| - 1;
      SlotsOnEmpty(endpoints[..n], h);
      assert endpoints == endpoints[..n] + [endpoints[n]];
    }
  }

  /**
   * Lines 246-255: one empty list per slot, and for each distinct endpoint
   * address a queue of the slots on it, in ascending slot order.
   */
  method BuildHostQueues(endpoints: seq<Host>) returns (lists: seq<seq<nat>>, queues: map<Host, seq<nat>>)
    ensures |lists| == |endpoints| && forall s :: 0 <= s < |lists| ==> lists[s] == []
    ensures forall h :: h in queues <==> h in endpoints
    ensures forall h :: h in queues ==> queues[h] == SlotsOn(endpoints, h)
  {
    lists, queues := [], map[];
    for i := 0 to |endpoints|
      invariant |lists| == i && forall s :: 0 <= s < i ==> lists[s] == []
      invariant forall h :: h in queues <==> h in endpoints[..i]
      invariant forall h :: h in queues ==> queues[h] == SlotsOn(endpoints[..i], h)
    {
      lists := lists + [[]];
      var hostname := endpoints[i];
      assert endpoints[..i + 1][..i] == endpoints[..i];
      assert endpoints[..i + 1] == endpoints[..i] + [hostname];
      if hostname !in queues {
        SlotsOnEmpty(endpoints[..i], hostname);
        queues := queues[hostname := []];
      }
      queues := queues[hostname := queues[hostname] + [i]];
    }
    assert endpoints[..|endpoints|] == endpoints;
  }

  // ---------------------------------------------------------------------
  // Round robin

  /** How many of the visited regions are hosted on `h`. */
  function Count(hosts: seq<Host>, rs: seq<nat>, h: Host): nat
    requires ValidOrder(rs, |hosts|)
  {
    if rs == [] then 0
    else Count(hosts, rs[..|rs| - 1], h) + (if hosts[rs[|rs| - 1]] == h then 1 else 0)
  }

  /** The share of k regions that the slot at position j of an m-slot round robin receives. */
  function RoundRobinShare(k: nat, m: nat, j: nat): nat
    requires m > 0
  {
    k / m + (if j < k % m then 1 else 0)
  }

  /**
   * The regions that the slot at queue position j of host h receives, in visiting
   * order: the host's regions whose rank among the host's regions is j modulo m.
   */
  function Assigned(hosts: seq<Host>, rs: seq<nat>, h: Host, m: nat, j: nat): seq<nat>
    requires ValidOrder(rs, |hosts|)
  {
    if rs == [] then []
    else
      var pre := rs[..|rs| - 1];
      var r := rs[|rs| - 1];
      Assigned(hosts, pre, h, m, j)
        + (if hosts[r] == h && m > 0 && Count(hosts, pre, h) % m == j then [r] else [])
  }

  /** The regions whose host runs no slot, in visiting order: what the locality pass leaves unassigned. */
  function Remote(hosts: seq<Host>, rs: seq<nat>, endpoints: seq<Host>): seq<nat>
    requires ValidOrder(rs, |hosts|)
  {
    if rs == [] then []
    else
      var pre := rs[..|rs| - 1];
      var r := rs[|rs| - 1];
      Remote(hosts, pre, endpoints) + (if hosts[r] in endpoints then [] else [r])
  }

  /** The slot lists after the locality pass. */
  function LocalAssignment(hosts: seq<Host>, order: seq<nat>, endpoints: seq<Host>): seq<seq<nat>>
    requires ValidOrder(order, |hosts|)
  {
    seq(|endpoints|, s requires 0 <= s < |endpoints| =>
      Assigned(hosts, order, endpoints[s], |SlotsOn(endpoints, endpoints[s])|, Pos(endpoints, s)))
  }

  /** The queue rotated left by r places. */
  function Rotate(q: seq<nat>, r: nat): seq<nat>
    requires r <= |q|
  {
    q[r..] + q[..r]
  }

  lemma RotateStep(q: seq<nat>, r: nat)
    requires r < |q|
    ensures Rotate(q, r) != [] && Rotate(q, r)[0] == q[r]
    ensures Rotate(q, r)[1..] + [q[r]] == Rotate(q, if r + 1 == |q| then 0 else r + 1)
  {
    var rot := Rotate(q, r);
    assert rot[1..] == q[r + 1..] + q[..r];
    if r + 1 < |q| {
      assert q[..r + 1] == q[..r] + [q[r]];
    } else {
      assert q[r + 1..] == [];
      assert q[..r] + [q[r]] == q;
      assert Rotate(q, 0) == q;
    }
  }

  lemma DivModUnique(a: nat, m: nat, q: nat, r: nat)
    requires m > 0 && r < m && a == m * q + r
    ensures a / m == q && a % m == r
  {
    var q', r' := a / m, a % m;
    assert a == m * q' + r';
    if q' > q {
      assert m * q' == m * q + m * (q' - q);
      MulAtLeast(q' - q, m);
    } else if q' < q {
      assert m * q == m * q' + m * (q - q');
      MulAtLeast(q - q', m);
    }
  }

  /** One more region moves the round robin by one position, wrapping after m. */
  lemma ModStep(c: nat, m: nat)
    requires m > 0
    ensures (c + 1) % m == if c % m + 1 == m then 0 else c % m + 1
    ensures (c + 1) / m == if c % m + 1 == m then c / m + 1 else c / m
  {
    var q, r := c / m, c % m;
    assert c == m * q + r;
    if r + 1 < m {
      DivModUnique(c + 1, m, q, r + 1);
    } else {
      assert c + 1 == m * (q + 1) + 0;
      DivModUnique(c + 1, m, q + 1, 0);
    }
  }

  /** The (k+1)-th region of a round robin goes to the slot at position k mod m. */
  lemma RoundRobinStep(k: nat, m: nat, j: nat)
    requires m > 0 && j < m
    ensures RoundRobinShare(k + 1, m, j) == RoundRobinShare(k, m, j) + (if j == k % m then 1 else 0)
  {
    ModStep(k, m);
  }

  /** A slot's locality share has the round-robin size. */
  lemma {:induction false} AssignedSize(hosts: seq<Host>, rs: seq<nat>, h: Host, m: nat, j: nat)
    requires ValidOrder(rs, |hosts|) && m > 0 && j < m
    ensures |Assigned(hosts, rs, h, m, j)| == RoundRobinShare(Count(hosts, rs, h), m, j)
  {
    if rs != [] {
      var pre := rs[..|rs| - 1];
      AssignedSize(hosts, pre, h, m, j);
      if hosts[rs[|rs| - 1]] == h {
        RoundRobinStep(Count(hosts, pre, h), m, j);
      }
    }
  }

  /** Every region of a slot's locality share is hosted on that slot's host. */
  lemma {:induction false} AssignedHosts(hosts: seq<Host>, rs: seq<nat>, h: Host, m: nat, j: nat)
    requires ValidOrder(rs, |hosts|)
    ensures forall x :: x in Assigned(hosts, rs, h, m, j) ==> x < |hosts| && hosts[x] == h
  {
    if rs != [] {
      AssignedHosts(hosts, rs[..|rs| - 1], h, m, j);
    }
  }

  /** No region the locality pass leaves behind is hosted on a slot's host. */
  lemma {:induction false} RemoteHosts(hosts: seq<Host>, rs: seq<nat>, endpoints: seq<Host>)
    requires ValidOrder(rs, |hosts|)
    ensures forall x :: x in Remote(hosts, rs, endpoints) ==> x < |hosts| && hosts[x] !in endpoints
  {
    if rs != [] {
      RemoteHosts(hosts, rs[..|rs| - 1], endpoints);
    }
  }

  lemma SnocSlice(s: seq<nat>, t: nat)
    requires t < |s|
    ensures s[..t + 1] == s[..t] + [s[t]]
  {
  }

  lemma SnocPrefix(rs: seq<nat>, r: nat)
    ensures (rs + [r])[..|rs|] == rs && (rs + [r])[|rs|] == r
  {
  }

  /** The locality pass's step for a region whose host runs slots. */
  lemma LocalStep(endpoints: seq<Host>, hosts: seq<Host>, rs: seq<nat>, region: nat, lists: seq<seq<nat>>)
    returns (slotIndex: nat)
    requires ValidOrder(rs, |hosts|) && region < |hosts| && hosts[region] in endpoints
    requires |lists| == |endpoints|
    requires forall s :: 0 <= s < |endpoints| ==>
               lists[s] == Assigned(hosts, rs, endpoints[s], |SlotsOn(endpoints, endpoints[s])|, Pos(endpoints, s))
    ensures var all := SlotsOn(endpoints, hosts[region]);
      all != [] && slotIndex == all[Count(hosts, rs, hosts[region]) % |all|]
    ensures slotIndex < |endpoints| && endpoints[slotIndex] == hosts[region]
    ensures ValidOrder(rs + [region], |hosts|)
    ensures forall s :: 0 <= s < |endpoints| ==>
              lists[slotIndex := lists[slotIndex] + [region]][s]
              == Assigned(hosts, rs + [region], endpoints[s], |SlotsOn(endpoints, endpoints[s])|, Pos(endpoints, s))
    ensures forall h :: Count(hosts, rs + [region], h) == Count(hosts, rs, h) + (if h == hosts[region] then 1 else 0)
    ensures Remote(hosts, rs + [region], endpoints) == Remote(hosts, rs, endpoints)
  {
    var h := hosts[region];
    var all := SlotsOn(endpoints, h);
    SlotsOnEmpty(endpoints, h);
    var c := Count(hosts, rs, h);
    slotIndex := all[c % |all|];
    PosOfQueueEntry(endpoints, h, c % |all|);
    LocalLists(endpoints, hosts, rs, region, lists, slotIndex);
    CountRemoteSnoc(endpoints, hosts, rs, region);
  }

  /** Appending the region to the slot at the head of its host's queue extends exactly that slot's share. */
  lemma LocalLists(endpoints: seq<Host>, hosts: seq<Host>, rs: seq<nat>, region: nat, lists: seq<seq<nat>>, slotIndex: nat)
    requires ValidOrder(rs, |hosts|) && region < |hosts|
    requires |lists| == |endpoints|
    requires forall s :: 0 <= s < |endpoints| ==>
               lists[s] == Assigned(hosts, rs, endpoints[s], |SlotsOn(endpoints, endpoints[s])|, Pos(endpoints, s))
    requires slotIndex < |endpoints| && endpoints[slotIndex] == hosts[region]
    requires SlotsOn(endpoints, hosts[region]) != []
    requires Pos(endpoints, slotIndex) == Count(hosts, rs, hosts[region]) % |SlotsOn(endpoints, hosts[region])|
    ensures ValidOrder(rs + [region], |hosts|)
    ensures forall s :: 0 <= s < |endpoints| ==>
              lists[slotIndex := lists[slotIndex] + [region]][s]
              == Assigned(hosts, rs + [region], endpoints[s], |SlotsOn(endpoints, endpoints[s])|, Pos(endpoints, s))
  {
    SnocPrefix(rs, region);
    SlotsOnAtPos(endpoints, slotIndex);
    forall s | 0 <= s < |endpoints|
      ensures lists[slotIndex := lists[slotIndex] + [region]][s]
              == Assigned(hosts, rs + [region], endpoints[s], |SlotsOn(endpoints, endpoints[s])|, Pos(endpoints, s))
    {
      AssignedSnoc(hosts, rs, region, endpoints[s], |SlotsOn(endpoints, endpoints[s])|, Pos(endpoints, s));
      if s != slotIndex && endpoints[s] == hosts[region] {
        SlotsOnAtPos(endpoints, s);
      }
    }
  }

  /** Visiting one more region counts it for its host, and adds it to the remote list exactly when its host runs no slot. */
  lemma CountRemoteSnoc(endpoints: seq<Host>, hosts: seq<Host>, rs: seq<nat>, region: nat)
    requires ValidOrder(rs, |hosts|) && region < |hosts|
    ensures ValidOrder(rs + [region], |hosts|)
    ensures forall h :: Count(hosts, rs + [region], h) == Count(hosts, rs, h) + (if h == hosts[region] then 1 else 0)
    ensures Remote(hosts, rs + [region], endpoints)
         == Remote(hosts, rs, endpoints) + (if hosts[region] in endpoints then [] else [region])
  {
    SnocPrefix(rs, region);
  }

  lemma AssignedSnoc(hosts: seq<Host>, rs: seq<nat>, region: nat, h: Host, m: nat, j: nat)
    requires ValidOrder(rs, |hosts|) && region < |hosts|
    ensures ValidOrder(rs + [region], |hosts|)
    ensures Assigned(hosts, rs + [region], h, m, j)
         == Assigned(hosts, rs, h, m, j) + (if hosts[region] == h && m > 0 && Count(hosts, rs, h) % m == j then [region] else [])
  {
    SnocPrefix(rs, region);
  }

  /** The locality pass's step for a region whose host runs no slot. */
  lemma RemoteStep(endpoints: seq<Host>, hosts: seq<Host>, rs: seq<nat>, region: nat, lists: seq<seq<nat>>)
    requires ValidOrder(rs, |hosts|) && region < |hosts| && hosts[region] !in endpoints
    requires |lists| == |endpoints|
    requires forall s :: 0 <= s < |endpoints| ==>
               lists[s] == Assigned(hosts, rs, endpoints[s], |SlotsOn(endpoints, endpoints[s])|, Pos(endpoints, s))
    ensures ValidOrder(rs + [region], |hosts|)
    ensures forall s :: 0 <= s < |endpoints| ==>
              lists[s] == Assigned(hosts, rs + [region], endpoints[s], |SlotsOn(endpoints, endpoints[s])|, Pos(endpoints, s))
    ensures forall h :: h in endpoints ==> Count(hosts, rs + [region], h) == Count(hosts, rs, h)
    ensures Remote(hosts, rs + [region], endpoints) == Remote(hosts, rs, endpoints) + [region]
  {
    SnocPrefix(rs, region);
    assert forall s :: 0 <= s < |endpoints| ==> endpoints[s] in endpoints;
  }

  /** Rotating the head of one host's queue to its tail keeps every queue at its round-robin rotation. */
  lemma QueueStep(endpoints: seq<Host>, hosts: seq<Host>, rs: seq<nat>, region: nat, queues: map<Host, seq<nat>>)
    requires ValidOrder(rs, |hosts|) && region < |hosts| && hosts[region] in queues
    requires forall h :: h in queues ==>
               (SlotsOn(endpoints, h) != []
                && queues[h] == Rotate(SlotsOn(endpoints, h), Count(hosts, rs, h) % |SlotsOn(endpoints, h)|))
    requires forall h :: Count(hosts, rs + [region], h) == Count(hosts, rs, h) + (if h == hosts[region] then 1 else 0)
    ensures ValidOrder(rs + [region], |hosts|)
    ensures var q := queues[hosts[region]];
      q != [] &&
      var queues' := queues[hosts[region] := q[1..] + [q[0]]];
      forall h :: h in queues' ==>
        (SlotsOn(endpoints, h) != []
         && queues'[h] == Rotate(SlotsOn(endpoints, h), Count(hosts, rs + [region], h) % |SlotsOn(endpoints, h)|))
  {
    var hostname := hosts[region];
    var all := SlotsOn(endpoints, hostname);
    var c := Count(hosts, rs, hostname);
    var q := queues[hostname];
    RotateStep(all, c % |all|);
    ModStep(c, |all|);
    assert q[1..] + [q[0]] == Rotate(all, (c + 1) % |all|);
    var queues' := queues[hostname := q[1..] + [q[0]]];
    forall h | h in queues'
      ensures SlotsOn(endpoints, h) != []
      ensures queues'[h] == Rotate(SlotsOn(endpoints, h), Count(hosts, rs + [region], h) % |SlotsOn(endpoints, h)|)
    {
      if h != hostname {
        assert queues'[h] == queues[h];
      }
    }
  }

  /** What the locality pass has established after visiting the regions `rs`. */
  ghost predicate PassInvariant(endpoints: seq<Host>, hosts: seq<Host>, rs: seq<nat>,
                          lists: seq<seq<nat>>, unassigned: seq<nat>, queues: map<Host, seq<nat>>)
    requires ValidOrder(rs, |hosts|)
  {
    && |lists| == |endpoints|
    && (forall s :: 0 <= s < |endpoints| ==>
          lists[s] == Assigned(hosts, rs, endpoints[s], |SlotsOn(endpoints, endpoints[s])|, Pos(endpoints, s)))
    && unassigned == Remote(hosts, rs, endpoints)
    && multiset(Flatten(lists)) + multiset(unassigned) == multiset(rs)
    && (forall h :: h in queues <==> h in endpoints)
    && (forall h :: h in queues ==>
          (SlotsOn(endpoints, h) != []
           && queues[h] == Rotate(SlotsOn(endpoints, h), Count(hosts, rs, h) % |SlotsOn(endpoints, h)|)))
  }

  lemma BagStep(rs: seq<nat>, lists: multiset<nat>, unassigned: multiset<nat>, region: nat)
    requires lists + unassigned == multiset(rs)
    ensures (lists + multiset{region}) + unassigned == multiset(rs + [region])
    ensures lists + (unassigned + multiset{region}) == multiset(rs + [region])
  {
    assert multiset(rs + [region]) == multiset(rs) + multiset{region};
  }

  /** One step of the locality pass, for a region whose host has a queue. */
  lemma PassStepLocal(endpoints: seq<Host>, hosts: seq<Host>, rs: seq<nat>, region: nat,
                      lists: seq<seq<nat>>, unassigned: seq<nat>, queues: map<Host, seq<nat>>)
    requires ValidOrder(rs, |hosts|) && region < |hosts| && hosts[region] in queues
    requires PassInvariant(endpoints, hosts, rs, lists, unassigned, queues)
    ensures ValidOrder(rs + [region], |hosts|)
    ensures var q := queues[hosts[region]];
      q != [] && q[0] < |lists|
      && PassInvariant(endpoints, hosts, rs + [region], lists[q[0] := lists[q[0]] + [region]], unassigned,
                       queues[hosts[region] := q[1..] + [q[0]]])
  {
    var hostname := hosts[region];
    var q := queues[hostname];
    var all := SlotsOn(endpoints, hostname);
    var c := Count(hosts, rs, hostname);
    RotateStep(all, c % |all|);
    var slotIndex := LocalStep(endpoints, hosts, rs, region, lists);
    assert slotIndex == q[0];
    QueueStep(endpoints, hosts, rs, region, queues);
    FlattenAppend(lists, slotIndex, region);
    BagStep(rs, multiset(Flatten(lists)), multiset(unassigned), region);
    var rs' := rs + [region];
    var lists' := lists[slotIndex := lists[slotIndex] + [region]];
    var queues' := queues[hostname := q[1..] + [q[0]]];
    assert |lists'| == |endpoints|;
    assert forall s :: 0 <= s < |endpoints| ==>
          lists'[s] == Assigned(hosts, rs', endpoints[s], |SlotsOn(endpoints, endpoints[s])|, Pos(endpoints, s));
    assert unassigned == Remote(hosts, rs', endpoints);
    assert multiset(Flatten(lists')) + multiset(unassigned) == multiset(rs');
    assert forall h :: h in queues' <==> h in endpoints;
    assert forall h :: h in queues' ==>
          (SlotsOn(endpoints, h) != []
           && queues'[h] == Rotate(SlotsOn(endpoints, h), Count(hosts, rs', h) % |SlotsOn(endpoints, h)|));
    assert PassInvariant(endpoints, hosts, rs', lists', unassigned, queues');
  }

  /** One step of the locality pass, for a region whose host has no queue. */
  lemma PassStepRemote(endpoints: seq<Host>, hosts: seq<Host>, rs: seq<nat>, region: nat,
                       lists: seq<seq<nat>>, unassigned: seq<nat>, queues: map<Host, seq<nat>>)
    requires ValidOrder(rs, |hosts|) && region < |hosts| && hosts[region] !in queues
    requires PassInvariant(endpoints, hosts, rs, lists, unassigned, queues)
    ensures ValidOrder(rs + [region], |hosts|)
    ensures PassInvariant(endpoints, hosts, rs + [region], lists, unassigned + [region], queues)
  {
    RemoteStep(endpoints, hosts, rs, region, lists);
    BagStep(rs, multiset(Flatten(lists)), multiset(unassigned), region);
  }

  /** Lines 258-276, one iteration: the region goes to the head slot of its host's queue, or stays unassigned. */
  method VisitRegion(endpoints: seq<Host>, hosts: seq<Host>, done: seq<nat>, region: nat,
                     lists: seq<seq<nat>>, unassigned: seq<nat>, queues: map<Host, seq<nat>>)
    returns (lists': seq<seq<nat>>, unassigned': seq<nat>, queues': map<Host, seq<nat>>)
    requires ValidOrder(done, |hosts|) && region < |hosts|
    requires PassInvariant(endpoints, hosts, done, lists, unassigned, queues)
    ensures ValidOrder(done + [region], |hosts|)
    ensures PassInvariant(endpoints, hosts, done + [region], lists', unassigned', queues')
  {
    var hostname := hosts[region];
    if hostname in queues {
      PassStepLocal(endpoints, hosts, done, region, lists, unassigned, queues);
      var q := queues[hostname];
      var slotIndex := q[0];
      lists' := lists[slotIndex := lists[slotIndex] + [region]];
      unassigned' := unassigned;
      queues' := queues[hostname := q[1..] + [slotIndex]];
    } else {
      PassStepRemote(endpoints, hosts, done, region, lists, unassigned, queues);
      lists', queues' := lists, queues;
      unassigned' := unassigned + [region];
    }
  }

  lemma PassStart(endpoints: seq<Host>, hosts: seq<Host>, lists0: seq<seq<nat>>, queues0: map<Host, seq<nat>>)
    requires |lists0| == |endpoints| && forall s :: 0 <= s < |lists0| ==> lists0[s] == []
    requires forall h :: h in queues0 <==> h in endpoints
    requires forall h :: h in queues0 ==> queues0[h] == SlotsOn(endpoints, h)
    ensures PassInvariant(endpoints, hosts, [], lists0, [], queues0)
  {
    forall h | h in queues0
      ensures SlotsOn(endpoints, h) != []
      ensures queues0[h] == Rotate(SlotsOn(endpoints, h), Count(hosts, [], h) % |SlotsOn(endpoints, h)|)
    {
      SlotsOnEmpty(endpoints, h);
      var all := SlotsOn(endpoints, h);
      assert Count(hosts, [], h) == 0;
      assert 0 % |all| == 0;
      assert all[0..] + all[..0] == all;
    }
    assert multiset(Flatten(lists0)) == multiset{} by {
      FlattenLength(lists0);
      EmptyListsTotal(lists0);
    }
    assert forall s :: 0 <= s < |endpoints| ==>
          lists0[s] == Assigned(hosts, [], endpoints[s], |SlotsOn(endpoints, endpoints[s])|, Pos(endpoints, s));
    assert [] == Remote(hosts, [], endpoints);
    assert multiset(Flatten(lists0)) + multiset([]) == multiset([]);
    assert forall h :: h in queues0 ==>
          (SlotsOn(endpoints, h) != []
           && queues0[h] == Rotate(SlotsOn(endpoints, h), Count(hosts, [], h) % |SlotsOn(endpoints, h)|));
  }

  /**
   * Lines 257-277. Each region whose host has a queue is appended to the slot at
   * that queue's head, and the slot goes to the queue's tail; the others stay in
   * the unassigned set.
   */
  method LocalityPass(endpoints: seq<Host>, hosts: seq<Host>, order: seq<nat>,
                      lists0: seq<seq<nat>>, queues0: map<Host, seq<nat>>)
    returns (lists: seq<seq<nat>>, unassigned: seq<nat>, queues: map<Host, seq<nat>>)
    requires ValidOrder(order, |hosts|)
    requires |lists0| == |endpoints| && forall s :: 0 <= s < |lists0| ==> lists0[s] == []
    requires forall h :: h in queues0 <==> h in endpoints
    requires forall h :: h in queues0 ==> queues0[h] == SlotsOn(endpoints, h)
    ensures lists == LocalAssignment(hosts, order, endpoints)
    ensures unassigned == Remote(hosts, order, endpoints)
    ensures multiset(Flatten(lists)) + multiset(unassigned) == multiset(order)
    ensures forall h :: h in queues <==> h in endpoints
    ensures forall h :: h in queues ==>
              (SlotsOn(endpoints, h) != []
               && queues[h] == Rotate(SlotsOn(endpoints, h), Count(hosts, order, h) % |SlotsOn(endpoints, h)|))
  {
    lists, unassigned, queues := lists0, [], queues0;
    PassStart(endpoints, hosts, lists0, queues0);
    assert order[..0] == [];
    for t := 0 to |order|
      invariant PassInvariant(endpoints, hosts, order[..t], lists, unassigned, queues)
    {
      SnocSlice(order, t);
      lists, unassigned, queues := VisitRegion(endpoints, hosts, order[..t], order[t], lists, unassigned, queues);
    }
    assert order[..|order|] == order;
    PassFinish(endpoints, hosts, order, lists, unassigned, queues);
  }

  lemma PassFinish(endpoints: seq<Host>, hosts: seq<Host>, order: seq<nat>,
                   lists: seq<seq<nat>>, unassigned: seq<nat>, queues: map<Host, seq<nat>>)
    requires ValidOrder(order, |hosts|)
    requires PassInvariant(endpoints, hosts, order, lists, unassigned, queues)
    ensures lists == LocalAssignment(hosts, order, endpoints)
    ensures unassigned == Remote(hosts, order, endpoints)
    ensures multiset(Flatten(lists)) + multiset(unassigned) == multiset(order)
    ensures forall h :: h in queues <==> h in endpoints
    ensures forall h :: h in queues ==>
              (SlotsOn(endpoints, h) != []
               && queues[h] == Rotate(SlotsOn(endpoints, h), Count(hosts, order, h) % |SlotsOn(endpoints, h)|))
  {
  }

  lemma {:induction false} EmptyListsTotal(lists: seq<seq<nat>>)
    requires forall s :: 0 <= s < |lists| ==> lists[s] == []
    ensures TotalSize(lists) == 0
  {
    if lists != [] {
      EmptyListsTotal(lists[..|lists| - 1]);
    }
  }
}
