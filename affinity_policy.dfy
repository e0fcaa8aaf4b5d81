/** The CPU selection policy of src/affinity.cpp, stated on values. The allocator
    class in module `Affinity` is proved to follow these functions step by step.
    The operating system parts (CPU count probe, NUMA discovery, the thread affinity
    calls, the memory-policy query behind a memory hint) are inputs. All counters are
    C++ `unsigned`, modelled as 32-bit values that wrap around. */
module AffinityPolicy {
  import opened Ints
  import opened Wrappers

  /** The `std::errc` values and system error codes the code reports. */
  datatype Errc =
    | NoSuchDevice
    | InvalidArgument
    | FunctionNotSupported
    | ResourceUnavailableTryAgain
    | SystemError(code: int)

  datatype ThreadPriority = Normal | HighFrequency | MarketData | CriticalPath

  datatype CpuAllocationStrategy = RoundRobin | NumaLocal | LoadBalanced | IsolatedCritical

  /** A topology snapshot: per-node CPU lists, the CPU-to-node map, per-node memory
      in megabytes, and whether real NUMA information was available. */
  datatype NumaTopology = NumaTopology(
    nodeCount: uint32,
    nodeCpus: seq<seq<uint32>>,
    cpuToNode: seq<uint32>,
    nodeMemorySizes: seq<nat>,
    isNumaAvailable: bool)

  // ------------------------------------------------------ CPU count and binding

  /** The memoised probe of `get_cpu_count`: a non-positive `sysconf` answer becomes
      0, any other is truncated to `unsigned`. */
  function CpuCountFromProbe(probed: int): (r: uint32)
    ensures probed <= 0 ==> r == 0
    ensures 0 < probed < TWO_32 ==> r == probed
    ensures (probed - r) % TWO_32 == 0 || probed <= 0
  {
    if probed <= 0 then 0 else Wrap32(probed)
  }

  /** `get_cpu_count`: the count, with `no_such_device` exactly when it is 0. */
  function GetCpuCount(cpuCount: uint32): (r: Result<uint32, Errc>)
    ensures r.Err? <==> cpuCount == 0
    ensures r.Err? ==> r.error == NoSuchDevice
    ensures r.Ok? ==> r.value == cpuCount
  {
    if cpuCount == 0 then Err(NoSuchDevice) else Ok(cpuCount)
  }

  /** `set_affinity`: the count error first, then the index check, then the outcome
      of the platform call (`None` for success, the system error code otherwise). */
  function SetAffinity(cpuCount: uint32, cpuIndex: uint32, osFailure: Option<int>): (r: Result<(), Errc>)
    ensures cpuCount == 0 ==> r == Err(NoSuchDevice)
    ensures cpuCount > 0 && cpuIndex >= cpuCount ==> r == Err(InvalidArgument)
    ensures r.Ok? <==> cpuIndex < cpuCount && osFailure.None?
    ensures cpuIndex < cpuCount && osFailure.Some? ==> r == Err(SystemError(osFailure.value))
  {
    match GetCpuCount(cpuCount)
    case Err(e) => Err(e)
    case Ok(count) =>
      if cpuIndex >= count then Err(InvalidArgument)
      else if osFailure.Some? then Err(SystemError(osFailure.value))
      else Ok(())
  }

  // -------------------------------------------------------------- round robin

  /** The reverse round-robin index for ticket `ticket` (the counter's old value). */
  function RoundRobinIndex(cpuCount: uint32, ticket: uint32): (r: uint32)
    requires cpuCount > 0
    ensures r < cpuCount
  {
    cpuCount - 1 - ticket % cpuCount
  }

  /** The first ticket gets the last CPU. */
  lemma {:induction false} RoundRobinStartsAtLast(cpuCount: uint32)
    requires cpuCount > 0
    ensures RoundRobinIndex(cpuCount, 0) == cpuCount - 1
  {
  }

  /** Successive tickets count down K-1, K-2, ..., 0 and start again at K-1. */
  lemma {:induction false} RoundRobinCountsDown(cpuCount: uint32, ticket: uint32)
    requires cpuCount > 0 && ticket < UINT_MAX
    ensures var i := RoundRobinIndex(cpuCount, ticket);
            RoundRobinIndex(cpuCount, ticket + 1) == if i == 0 then cpuCount - 1 else i - 1
  {
    var q, r := ticket / cpuCount, ticket % cpuCount;
    if r + 1 < cpuCount {
      DivModUnique(ticket + 1, cpuCount, q, r + 1);
    } else {
      DivModUnique(ticket + 1, cpuCount, q + 1, 0);
    }
  }

  /** When the 32-bit counter wraps around and K does not divide 2^32, the cycle
      breaks: with three CPUs the tickets 2^32-1 and 0 both get CPU 2. */
  lemma {:induction false} RoundRobinRepeatsAtWrap()
    ensures RoundRobinIndex(3, UINT_MAX) == 2
    ensures Wrap32(UINT_MAX + 1) == 0 && RoundRobinIndex(3, 0) == 2
  {
  }

  // ------------------------------------------------------ fallback topology

  /** The CPUs 0, 1, ..., n-1 in order. */
  function CpuRange(n: nat): (r: seq<uint32>)
    requires n <= TWO_32
    ensures |r| == n && forall i :: 0 <= i < n ==> r[i] == i
  {
    seq(n, i requires 0 <= i < n => i as uint32)
  }

  /** The synthetic single-node topology of platforms without NUMA support. */
  function FallbackTopology(totalCpus: uint32): NumaTopology {
    NumaTopology(1, [CpuRange(totalCpus)], seq(totalCpus, _ => 0), [0], false)
  }

  // --------------------------------------------------------- topology shape

  /** One CPU list per node. Every topology `get_numa_topology` returns has this shape. */
  predicate WellFormed(t: NumaTopology) {
    |t.nodeCpus| == t.nodeCount
  }

  predicate NoCpus(t: NumaTopology) {
    forall n :: 0 <= n < |t.nodeCpus| ==> t.nodeCpus[n] == []
  }

  /** Every listed CPU is mapped back to its node, and no list repeats a CPU. */
  predicate Consistent(t: NumaTopology) {
    && WellFormed(t)
    && (forall n, i :: 0 <= n < |t.nodeCpus| && 0 <= i < |t.nodeCpus[n]| ==>
          t.nodeCpus[n][i] < |t.cpuToNode| && t.cpuToNode[t.nodeCpus[n][i]] == n)
    && (forall n, i, j :: 0 <= n < |t.nodeCpus| && 0 <= i < j < |t.nodeCpus[n]| ==>
          t.nodeCpus[n][i] != t.nodeCpus[n][j])
  }

  /** The fallback topology has one node holding every CPU, each mapped to node 0,
      so each CPU appears in the list of its mapped node. */
  lemma {:induction false} FallbackTopologyIsConsistent(totalCpus: uint32)
    ensures var t := FallbackTopology(totalCpus);
            && Consistent(t) && t.nodeCount == 1 && !t.isNumaAvailable
            && (forall c :: 0 <= c < |t.cpuToNode| ==> t.cpuToNode[c] == 0 && c as uint32 in t.nodeCpus[t.cpuToNode[c]])
            && |t.cpuToNode| == totalCpus
  {
    var t := FallbackTopology(totalCpus);
    forall c | 0 <= c < |t.cpuToNode|
      ensures t.cpuToNode[c] == 0 && c as uint32 in t.nodeCpus[t.cpuToNode[c]]
    {
      assert t.nodeCpus[0][c] == c;
    }
  }

  // ------------------------------------------------- isolated CPU reservation

  function Last(cpus: seq<uint32>): uint32
    requires cpus != []
  {
    cpus[|cpus| - 1]
  }

  /** The isolation table after the constructor's loop has visited nodes [0, n):
      the last CPU of each visited non-empty list is flagged if it is in range. */
  function ReserveLastCpus(t: NumaTopology, n: nat): (flags: seq<bool>)
    requires n <= |t.nodeCpus|
    ensures |flags| == |t.cpuToNode|
  {
    if n == 0 then seq(|t.cpuToNode|, _ => false)
    else
      var flags := ReserveLastCpus(t, n - 1);
      var cpus := t.nodeCpus[n - 1];
      if cpus != [] && Last(cpus) < |flags| then flags[Last(cpus) := true] else flags
  }

  predicate IsLastOfSomeNode(t: NumaTopology, n: nat, cpu: int)
    requires n <= |t.nodeCpus|
  {
    exists k :: 0 <= k < n && t.nodeCpus[k] != [] && Last(t.nodeCpus[k]) == cpu
  }

  /** Exactly the last CPU of each non-empty node list is flagged. */
  lemma {:induction false} ReserveLastCpusFlagsExactlyLast(t: NumaTopology, n: nat)
    requires n <= |t.nodeCpus|
    ensures forall c :: 0 <= c < |t.cpuToNode| ==> (ReserveLastCpus(t, n)[c] <==> IsLastOfSomeNode(t, n, c))
  {
    if n > 0 {
      ReserveLastCpusFlagsExactlyLast(t, n - 1);
      forall c | 0 <= c < |t.cpuToNode|
        ensures ReserveLastCpus(t, n)[c] <==> IsLastOfSomeNode(t, n, c)
      {
        if IsLastOfSomeNode(t, n, c) && !IsLastOfSomeNode(t, n - 1, c) {
          assert t.nodeCpus[n - 1] != [] && Last(t.nodeCpus[n - 1]) == c;
        }
        if IsLastOfSomeNode(t, n - 1, c) {
          var k :| 0 <= k < n - 1 && t.nodeCpus[k] != [] && Last(t.nodeCpus[k]) == c;
          assert 0 <= k < n;
        }
      }
    }
  }

  predicate IsIsolated(isolated: seq<bool>, cpu: uint32) {
    cpu < |isolated| && isolated[cpu]
  }

  predicate IsOrdinary(isolated: seq<bool>, cpu: uint32) {
    cpu < |isolated| && !isolated[cpu]
  }

  /** In a consistent topology the table flags a node's last CPU and no other CPU
      of that node. */
  lemma {:induction false} ReservedCpusOfNode(t: NumaTopology, n: nat)
    requires Consistent(t) && n < |t.nodeCpus| && t.nodeCpus[n] != []
    ensures IsIsolated(ReserveLastCpus(t, t.nodeCount), Last(t.nodeCpus[n]))
    ensures forall i :: 0 <= i < |t.nodeCpus[n]| - 1 ==>
              IsOrdinary(ReserveLastCpus(t, t.nodeCount), t.nodeCpus[n][i])
  {
    var table := ReserveLastCpus(t, t.nodeCount);
    ReserveLastCpusFlagsExactlyLast(t, t.nodeCount);
    assert Last(t.nodeCpus[n]) == t.nodeCpus[n][|t.nodeCpus[n]| - 1];
    assert IsLastOfSomeNode(t, t.nodeCount, Last(t.nodeCpus[n]));
    forall i | 0 <= i < |t.nodeCpus[n]| - 1
      ensures IsOrdinary(table, t.nodeCpus[n][i])
    {
      var c := t.nodeCpus[n][i];
      if table[c] {
        assert false;
      }
    }
  }

  // --------------------------------------------------------- choice on a node

  /** The node's CPUs that are in the table's range and not isolated, in list order. */
  function Available(cpus: seq<uint32>, isolated: seq<bool>): (a: seq<uint32>)
    ensures forall c :: c in a <==> c in cpus && IsOrdinary(isolated, c)
    ensures |a| <= |cpus|
  {
    if cpus == [] then []
    else
      var front := cpus[..|cpus| - 1];
      assert cpus == front + [Last(cpus)];
      Available(front, isolated) + (if IsOrdinary(isolated, Last(cpus)) then [Last(cpus)] else [])
  }

  /** The ordinary choice on a node for a node counter value `counter`. */
  function OnNodeChoice(cpus: seq<uint32>, isolated: seq<bool>, counter: uint32): (cpu: uint32)
    requires cpus != []
    ensures cpu in cpus
    ensures Available(cpus, isolated) != [] <==> IsOrdinary(isolated, cpu)
  {
    var a := Available(cpus, isolated);
    if a == [] then cpus[counter % |cpus|] else a[counter % |a|]
  }

  /** The last CPU of the list that is flagged isolated (`UINT_MAX` in the code
      when none is). */
  function LastIsolated(cpus: seq<uint32>, isolated: seq<bool>): (r: Option<uint32>)
    ensures r.None? <==> forall c :: c in cpus ==> !IsIsolated(isolated, c)
    ensures r.Some? ==> (exists i :: 0 <= i < |cpus| && cpus[i] == r.value && IsIsolated(isolated, r.value)
                           && forall j :: i < j < |cpus| ==> !IsIsolated(isolated, cpus[j]))
  {
    if cpus == [] then None
    else if IsIsolated(isolated, Last(cpus)) then Some(Last(cpus))
    else
      var front := cpus[..|cpus| - 1];
      assert cpus == front + [Last(cpus)];
      LastIsolated(front, isolated)
  }

  /** The reverse scan passes a CPU that is not flagged. */
  lemma {:induction false} LastIsolatedSkip(cpus: seq<uint32>, isolated: seq<bool>, i: nat)
    requires 0 < i <= |cpus| && !IsIsolated(isolated, cpus[i - 1])
    ensures LastIsolated(cpus[..i - 1], isolated) == LastIsolated(cpus[..i], isolated)
  {
    assert cpus[..i][..i - 1] == cpus[..i - 1];
  }

  /** The reverse scan stops at a flagged CPU. */
  lemma {:induction false} LastIsolatedHit(cpus: seq<uint32>, isolated: seq<bool>, i: nat)
    requires 0 < i <= |cpus| && IsIsolated(isolated, cpus[i - 1])
    ensures LastIsolated(cpus[..i], isolated) == Some(cpus[i - 1])
  {
  }

  /** With the constructor's table on a consistent topology, the isolated scan of a
      non-empty node finds exactly its reserved last CPU, and a node with at least two
      CPUs has an ordinary CPU, so its ordinary choice is never an isolated CPU. */
  lemma {:induction false} ReservationSeparatesChoices(t: NumaTopology, n: nat, counter: uint32)
    requires Consistent(t) && n < |t.nodeCpus| && t.nodeCpus[n] != []
    ensures LastIsolated(t.nodeCpus[n], ReserveLastCpus(t, t.nodeCount)) == Some(Last(t.nodeCpus[n]))
    ensures |t.nodeCpus[n]| >= 2 ==>
              IsOrdinary(ReserveLastCpus(t, t.nodeCount), OnNodeChoice(t.nodeCpus[n], ReserveLastCpus(t, t.nodeCount), counter))
  {
    var table := ReserveLastCpus(t, t.nodeCount);
    ReservedCpusOfNode(t, n);
    if |t.nodeCpus[n]| >= 2 {
      assert t.nodeCpus[n][0] in Available(t.nodeCpus[n], table);
    }
  }

  // --------------------------------------------------------- least loaded node

  /** The first index of a minimum among `counters[..n]`. */
  function ArgMinFrom(counters: seq<uint32>, n: nat): (k: nat)
    requires 0 < n <= |counters|
    ensures k < n
    ensures forall j :: 0 <= j < n ==> counters[k] <= counters[j]
    ensures forall j :: 0 <= j < k ==> counters[j] > counters[k]
  {
    if n == 1 then 0
    else
      var k := ArgMinFrom(counters, n - 1);
      if counters[n - 1] < counters[k] then n - 1 else k
  }

  /** `get_least_loaded_node_impl`: node 0 for at most one node, otherwise the first
      node with the smallest counter. */
  function LeastLoaded(t: NumaTopology, counters: seq<uint32>): (node: uint32)
    requires t.nodeCount <= 1 || |counters| >= t.nodeCount
    ensures t.nodeCount <= 1 ==> node == 0
    ensures t.nodeCount > 1 ==> (node < t.nodeCount
              && (forall j :: 0 <= j < t.nodeCount ==> counters[node] <= counters[j])
              && (forall j :: 0 <= j < node ==> counters[j] > counters[node]))
  {
    if t.nodeCount <= 1 then 0 else ArgMinFrom(counters, t.nodeCount) as uint32
  }

  // ----------------------------------------------------- allocation as steps

  /** The mutable part of an allocator: `node_allocation_counters` (empty when the
      constructor skipped initialisation), the two totals, and the shared round-robin
      counter of `get_next_cpu_index_simple`. */
  datatype AllocatorState = AllocatorState(
    nodeCounters: seq<uint32>,
    totalAllocations: uint32,
    isolatedAllocations: uint32,
    ticket: uint32)

  datatype Outcome = Outcome(cpu: uint32, state: AllocatorState)

  /** The counters exist exactly when some code path can reach them: an allocator
      left uninitialised has no CPUs in its lists and is never on the NUMA path. */
  predicate Fits(t: NumaTopology, counters: seq<uint32>) {
    && WellFormed(t)
    && (counters == [] ==> NoCpus(t))
    && (counters != [] ==> |counters| == t.nodeCount)
    && (t.isNumaAvailable && t.nodeCount > 1 ==> counters != [])
  }

  /** `get_next_cpu_index_simple`: 0 without a CPU count, otherwise the reverse
      round-robin index of the next ticket. */
  function SimpleStep(cpuCount: uint32, s: AllocatorState): (o: Outcome)
    ensures cpuCount == 0 ==> o == Outcome(0, s)
    ensures cpuCount > 0 ==> o.cpu < cpuCount && o.state == s.(ticket := Wrap32(s.ticket + 1))
  {
    if cpuCount == 0 then Outcome(0, s)
    else Outcome(RoundRobinIndex(cpuCount, s.ticket), s.(ticket := Wrap32(s.ticket + 1)))
  }

  predicate OnNodeFallsBack(t: NumaTopology, node: uint32)
    requires WellFormed(t)
  {
    node >= t.nodeCount || t.nodeCpus[node] == []
  }

  /** `allocate_cpu_on_node_impl`: round robin for a bad or empty node, otherwise the
      ordinary choice for the node's counter, which is then incremented. */
  function OnNodeStep(t: NumaTopology, isolated: seq<bool>, cpuCount: uint32, s: AllocatorState, node: uint32): (o: Outcome)
    requires Fits(t, s.nodeCounters)
    ensures OnNodeFallsBack(t, node) ==> o == SimpleStep(cpuCount, s)
    ensures !OnNodeFallsBack(t, node) ==>
              && o.cpu in t.nodeCpus[node]
              && o.state == s.(nodeCounters := s.nodeCounters[node := Wrap32(s.nodeCounters[node] as int + 1)])
              && (Available(t.nodeCpus[node], isolated) != [] ==> IsOrdinary(isolated, o.cpu))
  {
    if OnNodeFallsBack(t, node) then SimpleStep(cpuCount, s)
    else
      var counter := s.nodeCounters[node];
      Outcome(OnNodeChoice(t.nodeCpus[node], isolated, counter),
              s.(nodeCounters := s.nodeCounters[node := Wrap32(counter as int + 1)]))
  }

  /** The node a memory hint resolves to; no hint means the least-loaded node and a
      failed lookup means node 0. */
  datatype MemoryHint = NoHint | Hint(node: Result<uint32, Errc>)

  function TargetNode(t: NumaTopology, counters: seq<uint32>, hint: MemoryHint): uint32
    requires t.nodeCount <= 1 || |counters| >= t.nodeCount
  {
    match hint
    case NoHint => LeastLoaded(t, counters)
    case Hint(Ok(node)) => node
    case Hint(Err(_)) => 0
  }

  predicate WantsIsolation(priority: ThreadPriority) {
    priority == CriticalPath || priority == HighFrequency
  }

  /** `try_allocate_isolated_cpu_on_node`. */
  function IsolatedOnNode(t: NumaTopology, isolated: seq<bool>, node: nat): Option<uint32>
    requires WellFormed(t)
  {
    if node >= t.nodeCount then None else LastIsolated(t.nodeCpus[node], isolated)
  }

  /** `allocate_optimal_cpu_impl`. */
  function OptimalStep(t: NumaTopology, isolated: seq<bool>, cpuCount: uint32, s: AllocatorState,
                       priority: ThreadPriority, hint: MemoryHint): (o: Outcome)
    requires Fits(t, s.nodeCounters)
    ensures o.state.totalAllocations == Wrap32(s.totalAllocations + 1)
    ensures o.state.isolatedAllocations == s.isolatedAllocations
            || (o.state.isolatedAllocations == Wrap32(s.isolatedAllocations + 1)
                && WantsIsolation(priority) && IsIsolated(isolated, o.cpu))
  {
    var s1 := s.(totalAllocations := Wrap32(s.totalAllocations + 1));
    if !t.isNumaAvailable || t.nodeCount <= 1 then SimpleStep(cpuCount, s1)
    else
      var target := TargetNode(t, s1.nodeCounters, hint);
      var iso := if WantsIsolation(priority) then IsolatedOnNode(t, isolated, target) else None;
      if iso.Some? then
        assert IsIsolated(isolated, iso.value);
        Outcome(iso.value, s1.(isolatedAllocations := Wrap32(s1.isolatedAllocations + 1)))
      else
        OnNodeStep(t, isolated, cpuCount, s1, target)
  }

  /** On a NUMA topology whose nodes all hold at least two CPUs, with the
      constructor's table, a request that does not ask for isolation and gives no
      memory hint is never served an isolated CPU. */
  lemma {:induction false} OrdinaryRequestsAvoidIsolatedCpus(t: NumaTopology, cpuCount: uint32, s: AllocatorState, priority: ThreadPriority)
    requires Consistent(t) && Fits(t, s.nodeCounters)
    requires t.isNumaAvailable && t.nodeCount > 1
    requires forall n :: 0 <= n < t.nodeCount ==> |t.nodeCpus[n]| >= 2
    requires !WantsIsolation(priority)
    ensures var table := ReserveLastCpus(t, t.nodeCount);
            IsOrdinary(table, OptimalStep(t, table, cpuCount, s, priority, NoHint).cpu)
  {
    var table := ReserveLastCpus(t, t.nodeCount);
    var target := LeastLoaded(t, s.nodeCounters);
    ReservationSeparatesChoices(t, target as nat, s.nodeCounters[target]);
  }

  /** No node counter is more than one ahead of another. */
  predicate Balanced(counters: seq<uint32>) {
    forall i, j :: 0 <= i < |counters| && 0 <= j < |counters| ==> counters[i] as int <= counters[j] as int + 1
  }

  /** Without hints, ordinary requests keep the node counters balanced, since each
      goes to the least-loaded node (until a counter would wrap around). */
  lemma {:induction false} OrdinaryRequestsKeepNodesBalanced(t: NumaTopology, isolated: seq<bool>, cpuCount: uint32,
                                          s: AllocatorState, priority: ThreadPriority)
    requires Fits(t, s.nodeCounters) && t.isNumaAvailable && t.nodeCount > 1
    requires forall n :: 0 <= n < t.nodeCount ==> t.nodeCpus[n] != []
    requires !WantsIsolation(priority)
    requires Balanced(s.nodeCounters) && forall n :: 0 <= n < |s.nodeCounters| ==> s.nodeCounters[n] < UINT_MAX
    ensures var o := OptimalStep(t, isolated, cpuCount, s, priority, NoHint);
            Balanced(o.state.nodeCounters) && |o.state.nodeCounters| == |s.nodeCounters|
  {
    var c := s.nodeCounters;
    var m := LeastLoaded(t, c);
    var c' := OptimalStep(t, isolated, cpuCount, s, priority, NoHint).state.nodeCounters;
    assert c' == c[m := c[m] as int + 1];
    forall i, j | 0 <= i < |c'| && 0 <= j < |c'|
      ensures c'[i] as int <= c'[j] as int + 1
    {
      assert c[m] <= c[j] && c[m] <= c[i];
    }
  }

  // ------------------------------------------------- isolated CPU on any node

  /** The fallback scan of `allocate_isolated_cpu` over nodes n, n+1, ... skipping
      the node already tried. */
  function IsolatedScan(t: NumaTopology, isolated: seq<bool>, skip: uint32, n: nat): (r: Option<uint32>)
    requires WellFormed(t)
    ensures r.None? <==> forall m :: n <= m < t.nodeCount && m != skip ==> IsolatedOnNode(t, isolated, m).None?
    ensures r.Some? ==> exists m :: n <= m < t.nodeCount && m != skip && IsolatedOnNode(t, isolated, m) == r
    decreases t.nodeCount - n
  {
    if n >= t.nodeCount then None
    else if n != skip && IsolatedOnNode(t, isolated, n).Some? then IsolatedOnNode(t, isolated, n)
    else IsolatedScan(t, isolated, skip, n + 1)
  }

  /** `allocate_isolated_cpu`: the least-loaded node first, then the others by index. */
  function IsolatedPick(t: NumaTopology, isolated: seq<bool>, counters: seq<uint32>): (r: Option<uint32>)
    requires WellFormed(t) && (t.nodeCount <= 1 || |counters| >= t.nodeCount)
    ensures r.None? <==> forall m :: 0 <= m < t.nodeCount ==> IsolatedOnNode(t, isolated, m).None?
    ensures r.Some? ==> (IsIsolated(isolated, r.value)
                           && exists m :: 0 <= m < t.nodeCount && r.value in t.nodeCpus[m])
  {
    var first := LeastLoaded(t, counters);
    var own := IsolatedOnNode(t, isolated, first);
    if own.Some? then own else IsolatedScan(t, isolated, first, 0)
  }

  /** What `allocate_isolated_cpu` returns and does to the isolated-allocation count
      given the CPU its scan picks: the CPU and one more isolated allocation, or
      `resource_unavailable_try_again` and no change. */
  predicate IsolatedOutcome(pick: Option<uint32>, r: Result<uint32, Errc>, before: uint32, after: uint32) {
    match pick
    case Some(c) => r == Ok(c) && after == Wrap32(before as int + 1)
    case None => r == Err(ResourceUnavailableTryAgain) && after == before
  }

  /** With the constructor's table on a consistent topology, an isolated CPU can be
      found whenever some node has a CPU. */
  lemma {:induction false} IsolatedPickSucceeds(t: NumaTopology, counters: seq<uint32>, n: nat)
    requires Consistent(t) && (t.nodeCount <= 1 || |counters| >= t.nodeCount)
    requires n < t.nodeCount && t.nodeCpus[n] != []
    ensures IsolatedPick(t, ReserveLastCpus(t, t.nodeCount), counters).Some?
  {
    ReservationSeparatesChoices(t, n, 0);
    assert IsolatedOnNode(t, ReserveLastCpus(t, t.nodeCount), n).Some?;
  }
}
