/** The stateful side of src/affinity.cpp: the round-robin counters, the
    single-node topology of platforms without NUMA support, and
    `NumaAwareCpuAllocator::Impl` with the public members that forward to it. Each
    allocator method is proved to act as the matching step function of module
    `AffinityPolicy` on the allocator's counters. */
module Affinity {
  import opened Ints
  import opened Wrappers
  import opened AffinityPolicy

  /** A function-local `static std::atomic<unsigned>` used as a round-robin counter. */
  class RoundRobinCounter {
    var next: uint32

    constructor ()
      ensures next == 0
    {
      next := 0;
    }

    /** `fetch_add(1)`: the previous value, the counter advanced modulo 2^32. */
    method FetchAdd() returns (ticket: uint32)
      modifies this
      ensures ticket == old(next) && next == Wrap32(old(next) as int + 1)
    {
      ticket := next;
      next := Wrap32(next as int + 1);
    }
  }

  /** `get_next_cpu_index`, drawing on its own counter: without a CPU count it
      reports the error and leaves the counter alone. */
  method GetNextCpuIndex(cpuCount: uint32, counter: RoundRobinCounter) returns (r: Result<uint32, Errc>)
    modifies counter
    ensures cpuCount == 0 ==> r == Err(NoSuchDevice) && counter.next == old(counter.next)
    ensures cpuCount > 0 ==> (r == Ok(RoundRobinIndex(cpuCount, old(counter.next)))
                              && counter.next == Wrap32(old(counter.next) as int + 1))
  {
    var count := GetCpuCount(cpuCount);
    if count.Err? {
      return Err(count.error);
    }
    var ticket := counter.FetchAdd();
    return Ok(count.value - 1 - ticket % count.value);
  }

  /** The branch of `get_numa_topology` for platforms without NUMA support: one node
      holding every CPU, or, when the CPU count fails, one empty node and the error. */
  method GetFallbackTopology(cpuCount: uint32) returns (topology: NumaTopology, ec: Option<Errc>)
    ensures cpuCount == 0 ==> topology == NumaTopology(1, [[]], [], [0], false) && ec == Some(NoSuchDevice)
    ensures cpuCount > 0 ==> topology == FallbackTopology(cpuCount) && ec == None
  {
    topology := NumaTopology(1, [[]], [], [0], false);
    var count := GetCpuCount(cpuCount);
    if count.Err? {
      return topology, Some(count.error);
    }
    var total := count.value;
    var cpus: seq<uint32> := [];
    var cpuToNode: seq<uint32> := seq(total, _ => 0);
    var cpu: nat := 0;
    while cpu < total
      invariant cpu <= total
      invariant cpus == CpuRange(cpu) && cpuToNode == seq(total, _ => 0)
    {
      cpus := cpus + [cpu as uint32];
      cpuToNode := cpuToNode[cpu := 0];
      cpu := cpu + 1;
    }
    topology := topology.(nodeCpus := [cpus], cpuToNode := cpuToNode);
    ec := None;
  }

  datatype AllocationStats = AllocationStats(
    totalAllocations: uint32,
    isolatedAllocations: uint32,
    nodeAllocations: seq<uint32>)

  /** `NumaAwareCpuAllocator` and its `Impl`. The topology, the isolation table and
      the CPU count are fixed at construction; the counters change. `nodeCounters` is
      empty when the constructor skipped initialisation, so its length is the Impl's
      `node_count`. The round-robin counter is the one static object that every
      allocator shares. */
  class NumaAwareCpuAllocator {
    const topology: NumaTopology
    const strategy: CpuAllocationStrategy
    const cpuCount: uint32
    const isolatedCpus: seq<bool>
    const roundRobin: RoundRobinCounter
    var nodeCounters: seq<uint32>
    var totalAllocations: uint32
    var isolatedAllocations: uint32

    ghost predicate Valid()
      reads this
    {
      && Fits(topology, nodeCounters)
      && isolatedCpus == (if nodeCounters == [] then [] else ReserveLastCpus(topology, topology.nodeCount))
    }

    function State(): AllocatorState
      reads this, roundRobin
    {
      AllocatorState(nodeCounters, totalAllocations, isolatedAllocations, roundRobin.next)
    }

    /** `Impl(default_strategy)` given what `get_numa_topology` returned: counters and
        isolation table are set up only without error and with at least one node. */
    constructor (defaultStrategy: CpuAllocationStrategy, discovered: NumaTopology, ec: Option<Errc>,
                 cpuCount: uint32, roundRobin: RoundRobinCounter)
      requires WellFormed(discovered)
      requires ec.Some? ==> NoCpus(discovered) && !discovered.isNumaAvailable
      ensures Valid()
      ensures topology == discovered && strategy == defaultStrategy
      ensures this.cpuCount == cpuCount && this.roundRobin == roundRobin
      ensures totalAllocations == 0 && isolatedAllocations == 0
      ensures ec.None? && discovered.nodeCount > 0 ==>
                && nodeCounters == seq(discovered.nodeCount, _ => 0)
                && isolatedCpus == ReserveLastCpus(discovered, discovered.nodeCount)
      ensures !(ec.None? && discovered.nodeCount > 0) ==> nodeCounters == [] && isolatedCpus == []
    {
      var counters: seq<uint32> := [];
      var flags: seq<bool> := [];
      if ec.None? && discovered.nodeCount > 0 {
        var i: nat := 0;
        while i < discovered.nodeCount
          invariant i <= discovered.nodeCount && counters == seq(i, _ => 0)
        {
          counters := counters + [0];
          i := i + 1;
        }
        flags := seq(|discovered.cpuToNode|, _ => false);
        var node: nat := 0;
        while node < discovered.nodeCount
          invariant node <= discovered.nodeCount && flags == ReserveLastCpus(discovered, node)
        {
          var cpus := discovered.nodeCpus[node];
          if cpus != [] {
            var lastCpu := cpus[|cpus| - 1];
            if lastCpu < |flags| {
              flags := flags[lastCpu := true];
            }
          }
          node := node + 1;
        }
      }
      topology := discovered;
      strategy := defaultStrategy;
      this.cpuCount := cpuCount;
      this.roundRobin := roundRobin;
      isolatedCpus := flags;
      nodeCounters := counters;
      totalAllocations := 0;
      isolatedAllocations := 0;
    }

    /** `get_next_cpu_index_simple`. */
    method NextCpuIndexSimple() returns (cpu: uint32)
      modifies roundRobin
      ensures Outcome(cpu, State()) == SimpleStep(cpuCount, old(State()))
    {
      var count := GetCpuCount(cpuCount);
      if count.Err? || count.value == 0 {
        return 0;
      }
      var ticket := roundRobin.FetchAdd();
      cpu := count.value - 1 - ticket % count.value;
    }

    /** `allocate_cpu_on_node_impl`, also the public `allocate_cpu_on_node`. */
    method AllocateCpuOnNode(node: uint32) returns (cpu: uint32)
      requires Valid()
      modifies this, roundRobin
      ensures Valid()
      ensures Outcome(cpu, State()) == OnNodeStep(topology, isolatedCpus, cpuCount, old(State()), node)
    {
      if node >= topology.nodeCount || topology.nodeCpus[node] == [] {
        cpu := NextCpuIndexSimple();
        return;
      }
      var nodeCpus := topology.nodeCpus[node];
      var localCounter := nodeCounters[node];
      ghost var next := OnNodeStep(topology, isolatedCpus, cpuCount, State(), node);
      nodeCounters := nodeCounters[node := Wrap32(localCounter as int + 1)];
      assert State() == next.state;
      var available := AvailableCpus(nodeCpus);
      if available == [] {
        cpu := nodeCpus[localCounter % |nodeCpus|];
      } else {
        cpu := available[localCounter % |available|];
      }
      assert cpu == OnNodeChoice(nodeCpus, isolatedCpus, localCounter);
    }

    /** The filter loop of `allocate_cpu_on_node_impl`: the node's CPUs that are in
        the table's range and not isolated, in list order. */
    method AvailableCpus(nodeCpus: seq<uint32>) returns (available: seq<uint32>)
      ensures available == Available(nodeCpus, isolatedCpus)
    {
      available := [];
      var i := 0;
      while i < |nodeCpus|
        invariant i <= |nodeCpus| && available == Available(nodeCpus[..i], isolatedCpus)
      {
        var c := nodeCpus[i];
        assert nodeCpus[..i + 1][..i] == nodeCpus[..i];
        if c < |isolatedCpus| && !isolatedCpus[c] {
          available := available + [c];
        }
        i := i + 1;
      }
      assert nodeCpus[..i] == nodeCpus;
    }

    /** `try_allocate_isolated_cpu_on_node`: a reverse scan for a flagged CPU. It
        changes nothing, so repeated calls give the same answer. */
    method TryAllocateIsolatedCpuOnNode(node: uint32) returns (cpu: Option<uint32>)
      requires WellFormed(topology)
      ensures cpu == IsolatedOnNode(topology, isolatedCpus, node)
    {
      if node >= topology.nodeCount {
        return None;
      }
      var nodeCpus := topology.nodeCpus[node];
      var i := |nodeCpus|;
      while i > 0
        invariant 0 <= i <= |nodeCpus|
        invariant LastIsolated(nodeCpus[..i], isolatedCpus) == LastIsolated(nodeCpus, isolatedCpus)
      {
        var c := nodeCpus[i - 1];
        if c < |isolatedCpus| && isolatedCpus[c] {
          LastIsolatedHit(nodeCpus, isolatedCpus, i);
          return Some(c);
        }
        LastIsolatedSkip(nodeCpus, isolatedCpus, i);
        i := i - 1;
      }
      return None;
    }

    /** `get_least_loaded_node_impl`, also the public `get_least_loaded_node`. With
        several nodes it reads the counters, so they must exist. */
    method LeastLoadedNode() returns (node: uint32)
      requires Valid() && (topology.nodeCount <= 1 || nodeCounters != [])
      ensures node == LeastLoaded(topology, nodeCounters)
    {
      if topology.nodeCount <= 1 {
        return 0;
      }
      var minLoadNode: uint32 := 0;
      var minLoad := nodeCounters[0];
      var n: nat := 1;
      while n < topology.nodeCount
        invariant 1 <= n <= topology.nodeCount
        invariant minLoadNode as nat == ArgMinFrom(nodeCounters, n) && minLoad == nodeCounters[minLoadNode]
      {
        var load := nodeCounters[n];
        if load < minLoad {
          minLoad := load;
          minLoadNode := n as uint32;
        }
        n := n + 1;
      }
      node := minLoadNode;
    }

    /** `allocate_optimal_cpu_impl`, also the public `allocate_optimal_cpu`. */
    method AllocateOptimalCpu(priority: ThreadPriority, hint: MemoryHint) returns (cpu: uint32)
      requires Valid()
      modifies this, roundRobin
      ensures Valid()
      ensures Outcome(cpu, State()) == OptimalStep(topology, isolatedCpus, cpuCount, old(State()), priority, hint)
    {
      totalAllocations := Wrap32(totalAllocations as int + 1);
      if !topology.isNumaAvailable || topology.nodeCount <= 1 {
        cpu := NextCpuIndexSimple();
        return;
      }
      var targetNode: uint32 := 0;
      match hint {
        case Hint(found) =>
          targetNode := if found.Ok? then found.value else 0;
        case NoHint =>
          targetNode := LeastLoadedNode();
      }
      if priority == CriticalPath || priority == HighFrequency {
        var isolatedCpu := TryAllocateIsolatedCpuOnNode(targetNode);
        if isolatedCpu.Some? {
          isolatedAllocations := Wrap32(isolatedAllocations as int + 1);
          return isolatedCpu.value;
        }
      }
      cpu := AllocateCpuOnNode(targetNode);
    }

    /** `allocate_isolated_cpu`: the least-loaded node first, then every other node in
        index order; `resource_unavailable_try_again` when none has a flagged CPU. */
    method AllocateIsolatedCpu() returns (r: Result<uint32, Errc>)
      requires Valid() && (topology.nodeCount <= 1 || nodeCounters != [])
      modifies this
      ensures Valid()
      ensures nodeCounters == old(nodeCounters) && totalAllocations == old(totalAllocations)
      ensures IsolatedOutcome(IsolatedPick(topology, isolatedCpus, old(nodeCounters)), r,
                              old(isolatedAllocations), isolatedAllocations)
    {
      ghost var pick := IsolatedPick(topology, isolatedCpus, old(nodeCounters));
      var node := LeastLoadedNode();
      var cpu := TryAllocateIsolatedCpuOnNode(node);
      if cpu.None? {
        cpu := ScanOtherNodes(node);
      }
      assert pick == cpu;
      if cpu.Some? {
        isolatedAllocations := Wrap32(isolatedAllocations as int + 1);
        return Ok(cpu.value);
      }
      return Err(ResourceUnavailableTryAgain);
    }

    /** The fallback loop of `allocate_isolated_cpu`: every node but `skip`, in index
        order, until one has a flagged CPU. */
    method ScanOtherNodes(skip: uint32) returns (cpu: Option<uint32>)
      requires WellFormed(topology)
      ensures cpu == IsolatedScan(topology, isolatedCpus, skip, 0)
    {
      var n: nat := 0;
      while n < topology.nodeCount
        invariant n <= topology.nodeCount
        invariant IsolatedScan(topology, isolatedCpus, skip, n) == IsolatedScan(topology, isolatedCpus, skip, 0)
      {
        if n != skip as nat {
          cpu := TryAllocateIsolatedCpuOnNode(n as uint32);
          if cpu.Some? {
            return cpu;
          }
        }
        n := n + 1;
      }
      return None;
    }

    /** `get_allocation_stats`: a snapshot of the totals and of one counter per node
        of the topology, which must therefore exist. */
    method GetAllocationStats() returns (stats: AllocationStats)
      requires Valid() && |nodeCounters| == topology.nodeCount
      ensures stats == AllocationStats(totalAllocations, isolatedAllocations, nodeCounters)
    {
      var nodeAllocations: seq<uint32> := seq(topology.nodeCount, _ => 0);
      var i: nat := 0;
      while i < topology.nodeCount
        invariant i <= topology.nodeCount && |nodeAllocations| == topology.nodeCount
        invariant forall j :: 0 <= j < i ==> nodeAllocations[j] == nodeCounters[j]
      {
        nodeAllocations := nodeAllocations[i := nodeCounters[i]];
        i := i + 1;
      }
      stats := AllocationStats(totalAllocations, isolatedAllocations, nodeAllocations);
    }

    /** `reset_allocation_counters`: both totals and every node counter back to 0;
        the shared round-robin counter keeps running. */
    method ResetAllocationCounters()
      requires Valid()
      modifies this
      ensures Valid()
      ensures totalAllocations == 0 && isolatedAllocations == 0
      ensures nodeCounters == seq(|old(nodeCounters)|, _ => 0)
    {
      totalAllocations := 0;
      isolatedAllocations := 0;
      var i: nat := 0;
      while i < |nodeCounters|
        invariant i <= |nodeCounters| && |nodeCounters| == |old(nodeCounters)|
        invariant forall j :: 0 <= j < i ==> nodeCounters[j] == 0
        invariant Valid() && totalAllocations == 0 && isolatedAllocations == 0
      {
        nodeCounters := nodeCounters[i := 0];
        i := i + 1;
      }
    }
  }
}
