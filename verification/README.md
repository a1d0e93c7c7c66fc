# Liqo, modelled and proved

Liqo connects Kubernetes clusters. This project models the parts of it that keep state in agreement with
something outside, and proves what they promise:

- **Address management** (`Net`, `PrefixTree`, `NodeAddresses`, `IpamForest`, `IpamRuns`, `IpamNode`, `IpamCore`,
  `IpamSync`): networks are acquired and released in trees of prefixes, addresses inside the networks, and a
  periodic sync brings the trees in line with the cluster. The trees are objects changed in place (`IpamNode`,
  `IpamCore`) and proved to follow functions on values (`PrefixTree`, `IpamForest`), about which the theorems are:
  exact conditions for every call, conservation over runs, and no conflict with an exclusive network, ever.
- **Routes** (`NextHops`, `RouteSpec`, `RouteReconcile`, `RoutePass`, `RouteController`, `RouteLifecycle`,
  `RtTables`): a reconciler that lists, deletes, then adds against the old listings. Proved: exactly when this equals
  listing afresh, that a pass reaches the wanted state, and that the next then has nothing to do.
- **Firewall** (`FirewallRules`, `Firewall`, `FirewallStaging`, `FirewallController`, `FirewallLifecycle`,
  `Conntrack`): two nftables transactions, what a failed attempt leaves for the next, and the eviction of connections
  that must not be tracked.
- **Connection checking** (`Conncheck`, `ConncheckTables`, `FailureDetection`, `Transitions`): threads, two locks and a
  clock, as a state machine over all interleavings, and the maps changed in place under the locks.
- **Remote metrics** (`MetricsText`, `MetricsMerge`, `MetricsScrape`, `MetricsCache`): reading and writing the
  exposition format, merging answers that arrive in any order, and a shared cache.
- **Node selectors and the CRD replicator** (`NodeSelector`, `CrdReplicator`).

`Wrappers`, `Decimal`, `Strings` and `Permutations` hold what several of these use.

Clocks, the orders in which maps are visited, the listings of the kernel, parsers of addresses and numbers and the
success of calls to the kernel and the API server are parameters, so the theorems hold for all of them.

## What the code does differently from what it says

- `networkIsAvailable` ignores the reference of an acquired pool that has been split (`PrefixTree.AvailableIsAcquirable`).
- The merges of a release read the clock again for every node. If it jumps by more than the grace period in between,
  the time of another network is refreshed (`PrefixTree.ClockJumpTouches`).
- Releasing a network keeps its addresses unless its node is merged away (`PrefixTree.ReacquiredAddresses`).
- A request for a network that may be moved and has host bits splits the node it falls in and then cannot have it
  (`IpamForest.RefusedRoom`, `IpamForest.HostBitsLoseRoom`).
- `acquirePreallocatedIPs` compares the number of addresses with the prefix length, not with the room in the network
  (`IpamSync.Server.AcquirePreallocatedIPs`); the rollback it leads to works only once the clock has moved
  (`IpamSync.RollBack`).
- The comment on the stale listings in the route reconciler says that a deleted row is never looked up again. It is,
  by destination, and is then replaced. The outcome differs from that of a fresh listing exactly when a destination
  whose row was deleted is wanted twice and the pass gets that far (`RouteReconcile.StaleListingDiffersIff`); admission
  checks for such pairs within one rule only.
- The table of a missing object is guessed from its name. For a node whose name ends in `-gw-ext` this is the table of
  a remote cluster (`RouteLifecycle.GuessedIff`, `RouteLifecycle.NodeFlushesRemote`).
- A wanted route without destination matches any row and is added again by every pass (`RouteReconcile.IdleIffConverged`);
  a route that cannot be forged makes the rows of all later ones count as unwanted (`RouteReconcile.BrokenRouteHidesLaterOnes`).
- Priorities of zero and below are compared but never sent (`RouteSpec.InstalledRuleMatches`).
- `rt_tables` entries are found by substring (`RtTables.OtherEntrySurvivesIff`).
- Ingress and prerouting hooks have the same number, so ingress chains are replaced by every pass
  (`Firewall.PassSettlesIff`). `isChainModified` does look at the policy, against its comment.
- What an attempt that fails has sent stays in the connection. If the configuration is edited meanwhile, the next pass
  succeeds with rules in force that nobody wants (`FirewallStaging.RetrySettlesIff`,
  `FirewallStaging.EditedConfigurationKeepsOldRule`).
- A notrack rule that such an attempt has sent comes into force with the next pass unreported, and its connections stay
  tracked (`FirewallStaging.StagedNotrackAppliedIff`, `FirewallStaging.LeftoverNotEvicted`).
- Matches on devices are not just ignored by eviction: a negated one keeps its rule from evicting anything
  (`Conntrack.DeviceMatch`). Other negated matches, port ranges among them, and prefixes with host bits evict other flows
  than the compiled rule is about (`Conntrack.EvictsAsCompiledIff`).
- Eviction looks at the filter rules of every chain, adding only at those of filter chains (`Firewall.StrayIsEvicted`).
- Rule expressions are compared one way and by count (`FirewallRules.ComparedIsExactIff`), missing rules go to the
  end of the chain (`Firewall.InOrderIff`), and an eviction that failed is not tried again (`Firewall.NextPassNotrackIff`).
- An address that does not parse leaves a sender behind that no call can remove: adding it again is a duplicate,
  stopping it crashes (`Conncheck.KeysAgreeIff`, `Conncheck.InvalidAddressLingers`).
- The observer of a peer is called without the lock, so a late call can leave it with the wrong state
  (`Transitions.SweepOvertakesPong`).
- Waiting for the nodes cancels the context of the goroutine that merges their answers, so answers can be lost without
  an error (`MetricsScrape.AnswersCanBeLost`).
- `MergeNodeSelector` drops match fields and revives empty terms (`NodeSelector.MergeKeepsMeaningIff`).
- A control plane secret that is given another cluster label leaves the reflector of the old cluster running
  (`CrdReplicator.EditKeepsGatedIff`, `CrdReplicator.OtherReflectorsUntouched`).

## Model

| member | source | states |
|---|---|---|
| `Net.OverlapsMeansSharedAddress` | pkg/ipam/core/node.go:144-151 | two prefixes overlap exactly when some address lies in both |
| `Net.ChildMeansSubset` | pkg/ipam/core/net.go:87-92 | `isPrefixChildOf` is inclusion of the sets of addresses |
| `Net.SplitPaths` | pkg/ipam/core/net.go:52-84 | setting the next bit gives the two halves whose fixed bits are those of the prefix and a zero or a one |
| `Net.SplitPartitions` | pkg/ipam/core/net.go:52-84 | every address of a prefix is in exactly one half and no other address is in either; the halves have no host bits |
| `Net.PrefixIsRange` | pkg/ipam/core/net.go:42-47 | a prefix without host bits is the block of consecutive addresses that starts at its base |
| `Net.NextIsSuccessor` | pkg/ipam/core/node.go:235-268 | the next address is the number plus one, and there is none past the last |
| `PrefixTree.Split` | pkg/ipam/core/node.go:324-331 | splitting keeps the node and gives well-formed halves; a node already split is left alone |
| `PrefixTree.SplitKeeps` | pkg/ipam/core/node.go:324-331 | splitting changes the record of no position of the tree |
| `PrefixTree.AcquireExact` | pkg/ipam/core/node.go:115-152 | acquiring a given prefix succeeds exactly when it has no host bits and every overlapping network tolerates it, and changes the count of that network alone |
| `PrefixTree.AcquireKeepsWf` | pkg/ipam/core/node.go:115-152 | acquiring a given prefix keeps the tree invariant: halves partition, nothing acquired above or below an exclusive network |
| `PrefixTree.FirstFit` | pkg/ipam/core/node.go:62-89 | first fit succeeds exactly when the tree has a usable position of the size, hands out one and changes nothing else |
| `PrefixTree.FirstFitLeast` | pkg/ipam/core/node.go:62-89 | of all usable positions of the size the least is handed out, where two positions part the half that alone is split coming first, else the left |
| `PrefixTree.LeastIsUnique` | pkg/ipam/core/node.go:364-372 | there is one least position |
| `PrefixTree.FreePoolGivesBase` | pkg/ipam/core/node.go:62-89 | a pool that was never split gives out its own base address at the size |
| `PrefixTree.AllocateKeepsWf` | pkg/ipam/core/node.go:62-89 | first fit keeps the tree invariant |
| `PrefixTree.SlotIsFree` | pkg/ipam/core/node.go:62-89 | a position first fit can use overlaps no acquired network |
| `PrefixTree.RefusedSlots` | pkg/ipam/core/node.go:115-152 | a refused exclusive acquisition leaves every position of the size as usable as it was, except the node that a prefix with host bits falls in |
| `PrefixTree.FreeButRefused` | pkg/ipam/core/node.go:66-77 | the converse fails: a free network whose node stayed split is refused |
| `PrefixTree.MergeKeeps` | pkg/ipam/core/node.go:333-350 | merging changes no count and no record that remains, except times |
| `PrefixTree.ReleaseExact` | pkg/ipam/core/node.go:154-179 | a release takes one reference of the named network alone, exactly when it is acquired and its grace period is over |
| `PrefixTree.ReleaseKeepsWf` | pkg/ipam/core/node.go:154-179 | a release with its merges keeps the tree invariant |
| `PrefixTree.ListExact` | pkg/ipam/core/node.go:208-224 | the listing holds exactly the acquired networks |
| `PrefixTree.ListDistinct` | pkg/ipam/core/node.go:208-224 | the listing names no network twice |
| `PrefixTree.AvailableExact` | pkg/ipam/core/node.go:181-206 | outside the skipped root, available means acquirable exclusively and not split twice |
| `PrefixTree.AvailableIsAcquirable` | pkg/ipam/core/node.go:181-206 | an available network can be acquired exclusively exactly when the pool itself is not acquired and split |
| `PrefixTree.AvailableButRefused` | pkg/ipam/core/node.go:181-206 | a network that reads available under an acquired, split pool and cannot be acquired |
| `PrefixTree.ExclusiveAlone` | pkg/ipam/core/node.go:115-152 | an exclusive network overlaps no other acquired one |
| `PrefixTree.SearchExact` | pkg/ipam/core/node.go:309-322 | the search finds the node of a prefix exactly when there is one |
| `PrefixTree.UpdateAtExact` | pkg/ipam/core/node.go:270-307 | changing one node changes that record and no other |
| `PrefixTree.ReleaseForgets` | pkg/ipam/core/node.go:154-179 | a release removes the node of the network exactly when both halves above it are merged then |
| `PrefixTree.ReacquiredAddresses` | pkg/ipam/core/node.go:154-179 | released and acquired again, a network has the addresses it had unless its node was merged away |
| `PrefixTree.StaleAddresses` | pkg/ipam/core/node.go:154-179 | a network acquired anew that starts with addresses of its previous holder |
| `PrefixTree.ReleaseLeavesOthers` | pkg/ipam/core/node.go:154-179 | with a clock that does not jump by more than the grace period, a release leaves the time of every other acquired network alone |
| `PrefixTree.ClockJumpTouches` | pkg/ipam/core/node.go:333-350 | with a clock that jumps, the merges of a release refresh the time of another network |
| `NodeAddresses.TriesCover` | pkg/ipam/core/node.go:235-268 | the scan from the last address tries every address of the prefix |
| `NodeAddresses.IpAcquireExact` | pkg/ipam/core/node.go:235-268 | an acquired network hands out an unheld address of its own exactly as long as there is one, and that one only |
| `NodeAddresses.IpAcquireNearest` | pkg/ipam/core/node.go:235-268 | the address handed out is the unheld one nearest above the one handed out last, around the end of the prefix, and is remembered |
| `NodeAddresses.AllocateIPExact` | pkg/ipam/core/node.go:270-289 | a given address is allocated exactly when the network is acquired, contains it and nobody holds it |
| `NodeAddresses.IpReleaseExact` | pkg/ipam/core/node.go:291-307 | an address is given back exactly when it is held and old enough; the others stay |
| `NodeAddresses.OnRecordKeeps` | pkg/ipam/core/node.go:226-307 | every address call keeps the addresses distinct and inside the prefix, and the count |
| `IpamForest.AcquireThisNetwork` | pkg/ipam/core/ipam.go:59-68 | over all pools: granted exactly when in a pool, canonical and tolerated; the ledger of counts changes in that entry alone |
| `IpamForest.AcquireAnyNetwork` | pkg/ipam/core/ipam.go:48-55 | over all pools: a network of the size that overlaps nothing acquired, or no pool has a usable position and nothing changes |
| `IpamForest.AcquireAnyFirst` | pkg/ipam/core/ipam.go:48-55 | the network is the least usable position of the first pool that has one |
| `IpamForest.PoolsAcceptedIff` | pkg/ipam/core/ipam.go:29-44 | pools are accepted exactly when none has host bits and no two share an address; each then starts free |
| `IpamForest.AvailableIff` | pkg/ipam/core/ipam.go:92-101 | a network is available exactly when its pool says so, and never without a pool |
| `IpamForest.ReleaseThisNetwork` | pkg/ipam/core/ipam.go:72-81 | over all pools: one reference less of the named network, exactly when it has one and the grace period is over |
| `IpamForest.ListIsLedger` | pkg/ipam/core/ipam.go:84-90 | the listing holds exactly the networks with a count |
| `IpamForest.ListHasNoDuplicates` | pkg/ipam/core/ipam.go:84-90 | the listing of all pools names no network twice |
| `IpamForest.ExclusiveIsSole` | pkg/ipam/core/ipam.go:210-226 | an exclusive network overlaps no acquired network of any pool |
| `IpamForest.ReleaseElsewhere` | pkg/ipam/core/ipam.go:72-81 | over all pools: with a steady clock a release leaves the time of every other acquired network alone |
| `IpamForest.AcquireElsewhere` | pkg/ipam/core/ipam.go:59-68 | acquiring a network leaves the times of the others alone |
| `IpamForest.AcquireAnyIff` | pkg/ipam/core/ipam.go:48-55 | a network of a size is refused exactly when no pool has a usable position |
| `IpamForest.RefusedRoom` | pkg/ipam/networks.go:33-47 | after a refused exclusive acquisition there is no room of the size exactly when there was none before, other than where a prefix with host bits falls |
| `IpamForest.HostBitsLoseRoom` | pkg/ipam/networks.go:33-47 | a free pool asked for under a name with host bits is room before the refusal and none after it |
| `IpamRuns.SearchAllExact` | pkg/ipam/core/ipam.go:197-208 | the search over pools fails outside them and otherwise finds the record of the network |
| `IpamRuns.TakeAnyExact` | pkg/ipam/core/ipam.go:105-115 | an address nobody held is handed out as long as the network is acquired and not full; no other address changes hands |
| `IpamRuns.TakeExact` | pkg/ipam/core/ipam.go:119-131 | a given address is taken exactly when it lies in an acquired network and nobody holds it |
| `IpamRuns.GiveExact` | pkg/ipam/core/ipam.go:135-144 | an address is given back exactly when its network is acquired and holds it for longer than the grace period, and no other address changes hands |
| `IpamRuns.RefusedIff` | pkg/ipam/core/ipam.go:105-144 | an address call is an error exactly outside the pools or for a given address outside the given network |
| `IpamRuns.StepLedger` | pkg/ipam/core/ipam.go:48-144 | every call keeps the invariant and moves the ledger exactly as its answer says |
| `IpamRuns.RunLedger` | pkg/ipam/core/ipam.go:48-144 | conservation over runs: every count is what the answers add up to |
| `IpamRuns.NewIpamIsEmpty` | pkg/ipam/core/ipam.go:29-44 | new pools hold nothing |
| `IpamRuns.NoConflictEver` | pkg/ipam/core/ipam.go:29-144 | safety over runs: two overlapping networks are never both held when one is exclusive |
| `IpamRuns.AcquireKeepsHeld` | pkg/ipam/core/ipam.go:59-68 | acquiring a network takes no address from anyone |
| `IpamNode.Node.Split` | pkg/ipam/core/node.go:324-331 | splits in place as the specification says |
| `IpamNode.Node.Merge` | pkg/ipam/core/node.go:333-350 | merges in place as the specification says |
| `IpamNode.Node.AllocateNetwork` | pkg/ipam/core/node.go:62-89 | first fit in place computes the specified tree and answer |
| `IpamNode.Node.AllocateNetworkWithPrefix` | pkg/ipam/core/node.go:115-152 | acquiring a prefix in place computes the specified tree and answer |
| `IpamNode.Node.NetworkRelease` | pkg/ipam/core/node.go:154-179 | releasing in place, merging on the way back, computes the specified tree and answer |
| `IpamNode.Node.HasAcquiredDescendants` | pkg/ipam/core/node.go:91-99 | whether some node below is acquired |
| `IpamNode.Node.HasExclusiveDescendants` | pkg/ipam/core/node.go:101-109 | whether some node below is exclusive |
| `IpamNode.Node.IsAllocatedIP` | pkg/ipam/core/node.go:226-233 | whether the record holds the address |
| `IpamNode.Node.IpAcquire` | pkg/ipam/core/node.go:235-268 | the scanning loop hands out the first unheld address as specified |
| `IpamNode.Node.AllocateIPWithAddr` | pkg/ipam/core/node.go:270-289 | allocates a given address as specified |
| `IpamNode.Node.IpRelease` | pkg/ipam/core/node.go:291-307 | frees the first old enough entry of the address as specified |
| `IpamNode.Node.Search` | pkg/ipam/core/node.go:309-322 | the node found carries the record of the prefix |
| `IpamNode.Node.OnNodeOf` | pkg/ipam/core/node.go:309-322 | searching and changing the node found changes that record of the tree and no other |
| `IpamNode.Node.ListNetworks` | pkg/ipam/core/node.go:208-224 | lists as specified |
| `IpamNode.Node.Addresses` | pkg/ipam/core/ipam.go:147-160 | the addresses listed are exactly those the record holds |
| `IpamCore.NewIpam` | pkg/ipam/core/ipam.go:29-44 | an error exactly for pools that do not pass the check, otherwise one free root for each pool |
| `IpamCore.Ipam.Search` | pkg/ipam/core/ipam.go:197-208 | an error exactly outside the pools, otherwise a node that holds exactly the addresses of the network, or none |
| `IpamCore.Ipam.NetworkAcquire` | pkg/ipam/core/ipam.go:48-55 | tries the pools in order as specified |
| `IpamCore.Ipam.NetworkAcquireWithPrefix` | pkg/ipam/core/ipam.go:59-68 | the pool that contains the prefix decides, as specified |
| `IpamCore.Ipam.NetworkRelease` | pkg/ipam/core/ipam.go:72-81 | the pool that contains the prefix releases, as specified |
| `IpamCore.Ipam.OnAddresses` | pkg/ipam/core/ipam.go:105-144 | the three address calls change the found node in place as specified |
| `IpamCore.Ipam.IPIsAllocated` | pkg/ipam/core/ipam.go:164-173 | an error exactly outside the pools; true exactly when the network holds the address |
| `IpamCore.Ipam.IsPrefixInRoots` | pkg/ipam/core/ipam.go:177-184 | true exactly when some pool contains the prefix |
| `IpamCore.Ipam.ListNetworks` | pkg/ipam/core/ipam.go:84-90 | all pools listed in order |
| `IpamCore.Ipam.ListIPs` | pkg/ipam/core/ipam.go:147-160 | an error exactly outside the pools; lists exactly the addresses the network holds |
| `IpamSync.NthIsOffset` | pkg/ipam/networks.go:63-84 | the i-th address from the base is the number plus i, and exists while it fits the address space |
| `IpamSync.Server.AcquirePreallocatedIPs` | pkg/ipam/networks.go:63-84 | succeeds on a tracked network exactly when N is at most the prefix length and at most its size, and holds the first N addresses |
| `IpamSync.Server.NetworkAcquireSpecific` | pkg/ipam/networks.go:49-61 | granted exactly when in a pool, canonical and tolerated; moves that ledger entry alone and takes no address away |
| `IpamSync.Server.NetworkRelease` | pkg/ipam/networks.go:87-99 | releases as the core does |
| `IpamSync.Server.NetworkAcquire` | pkg/ipam/ipam.go:140-183 | exactly which requests are outside, rejected or unavailable, and that these leave the ledger alone; a grant holds its preallocated addresses; a rollback restores the ledger exactly when the clock moved on |
| `IpamSync.RollBack` | pkg/ipam/ipam.go:178-180 | releasing right after acquiring restores the ledger exactly when the clock has moved on |
| `IpamSync.Server.SyncAcquireOne` | pkg/ipam/sync.go:65-84 | one listed network ends up tracked with its preallocated addresses, nothing else changed |
| `IpamSync.Server.SyncNetworkAcquire` | pkg/ipam/sync.go:65-84 | in any order, every listed network in a pool or exclusive ends up tracked |
| `IpamSync.Server.SyncNetworkFree` | pkg/ipam/sync.go:86-101 | in any order, no listed network loses a reference and no other more than one; with a steady clock every overdue one loses exactly one and no other time changes |
| `IpamSync.Server.SyncNetworks` | pkg/ipam/sync.go:103-121 | a completed sync leaves listed networks tracked; no other loses more than one reference and, with a steady clock, every overdue one loses exactly one |
| `IpamSync.Drain` | pkg/ipam/sync.go:91-101 | a pass that takes a reference of a stale network strictly decreases the references of the stale networks |
| `IpamSync.StaleDrained` | pkg/ipam/sync.go:34-63 | over whole syncs, of networks and then of addresses, more than the grace period apart, a network that no listing names loses exactly one reference at each until it has none |
| `IpamSync.StaleNeverGrow` | pkg/ipam/sync.go:91-101 | the references of stale networks never grow in a freeing pass |
| `IpamSync.SyncOutcome` | pkg/ipam/sync.go:103-121 | acquiring then freeing composes to the outcome of the whole sync |
| `IpamSync.Server.IsCachedIPPreallocated` | pkg/ipam/sync.go:134-147 | true exactly for the first N addresses of a listed network |
| `IpamSync.Server.IpAcquireWithAddr` | pkg/ipam/ips.go:47-61 | succeeds exactly when the address lies in an acquired network and nobody holds it; no address is lost |
| `IpamSync.Server.SyncIPsAcquire` | pkg/ipam/sync.go:123-132 | in any order, every listed address that was not cached ends up held; no count of a network and no cached address changes |
| `IpamSync.Server.SyncIPsFree` | pkg/ipam/sync.go:149-158 | in any order, a cached address neither listed nor preallocated is freed in its cached network once its grace period is over, and no other address anywhere |
| `IpamSync.Server.SyncIPs` | pkg/ipam/sync.go:160-193 | a completed sync leaves every listed address held and frees exactly the stale ones past their grace period, each in one network; counts of networks stay, times only move within the sync |
| `IpamSync.Server.Sync` | pkg/ipam/sync.go:34-63 | the networks, then the addresses: a completed round with a steady clock is one of those that drain stale networks |
| `IpamSync.Server.CachedIPs` | pkg/ipam/sync.go:171-182 | every address that an acquired network holds is cached, with an acquired network that holds it |
| `NextHops.CompareIsTotalOrder` | pkg/route/route.go:177-185 | the comparator is a total order on gateway, link and weight |
| `NextHops.SortNextHops` | pkg/route/route.go:175-187 | a sorted copy with the same elements |
| `NextHops.SortedIsUnique` | pkg/route/route.go:175-187 | a multiset has one sorted arrangement |
| `NextHops.SameMultiPath` | pkg/route/route.go:153-167 | multipath lists compare equal exactly when they are permutations, duplicates counted |
| `RouteSpec.EqualRouteLaws` | pkg/route/route.go:137-169 | route comparison is reflexive, symmetric and blind to the order of next hops, and chains exactly when the middle route hides no difference behind a missing field |
| `RouteSpec.EqualRouteNotTransitive` | pkg/route/route.go:137-169 | three routes for which it does not chain |
| `RouteSpec.ContainedExact` | pkg/route/route.go:202-213 | contained means equal to a wanted route before which every one can be forged |
| `RouteSpec.ForgeSucceedsIff` | pkg/route/route.go:225-318 | a route can be forged exactly when its destination parses and all devices it names exist |
| `RouteSpec.ForgedIffAsked` | pkg/route/route.go:225-318 | the route sent is the one and only one that carries table, destination, source, gateway, link, flags, scope and next hops as asked |
| `RouteSpec.ForgeIgnoresHopOrder` | pkg/route/route.go:274-294 | the order of wanted next hops makes no difference to the comparison or to the other fields |
| `RouteSpec.RuleMatchExact` | pkg/route/rule.go:141-184 | a kernel rule matches a wanted one exactly when it is what installing it gives in all that was asked, or lacks a wanted network |
| `RouteSpec.InstalledRuleMatches` | pkg/route/rule.go:53-184 | a rule recognises itself once installed exactly when its networks are canonical and a wanted priority is positive or the one the kernel assigned |
| `RouteSpec.RuleForgedIffAsked` | pkg/route/rule.go:53-97 | the rule sent is the one and only one that carries table, networks, devices, mark and priority as asked |
| `RouteReconcile.StaleRoutesListing` | pkg/route/routeconfiguration_controller.go:182-201 | looking routes up in the listing taken before the deletions gives the table, error and writes of a fresh listing, for distinct destinations |
| `RouteReconcile.StaleListingDiffersIff` | pkg/route/routeconfiguration_controller.go:182-201 | the two listings give different outcomes exactly when a destination whose row was deleted is wanted twice and the pass gets to the second |
| `RouteReconcile.ReachableRoutesDifferIff` | pkg/route/routeconfiguration_controller.go:182-201 | for routes that can be forged, are reachable and have destinations: exactly when a deleted destination is wanted twice with no earlier pair for one that had no row |
| `RouteReconcile.StaleListingCanDiffer` | pkg/route/routeconfiguration_controller.go:182-201 | a table and two routes for which they differ |
| `RouteReconcile.EnsureExact` | pkg/route/route.go:36-65 | what ensuring routes does, destination by destination |
| `RouteReconcile.RoutesConverge` | pkg/route/route.go:36-65 | from any table, a pass without errors leaves every row wanted and every wanted route with its row |
| `RouteReconcile.RowsMean` | pkg/route/route.go:36-65 | after a pass without errors the row of every wanted route does what it asks, and one that was written is what the kernel makes of exactly that |
| `RouteReconcile.WrittenRowMeans` | pkg/route/route.go:225-318 | with a kernel that keeps what it is sent, a written row has the source, gateway, link, flags, scope and next hops asked for |
| `RouteReconcile.IdleIffConverged` | pkg/route/route.go:190-213 | a pass deletes and writes nothing exactly when the table is as wanted and every wanted route names its destination |
| `RouteReconcile.PassSucceedsIff` | pkg/route/route.go:36-65 | a pass succeeds exactly when all routes can be forged, those to be written have a reachable gateway and a wanted default route meets none |
| `RouteReconcile.BrokenRouteHidesLaterOnes` | pkg/route/route.go:202-213 | while a route cannot be forged, only the rows wanted before it count as wanted |
| `RoutePass.RulesConverge` | pkg/route/rule.go:28-38 | a pass without errors over rules that recognise themselves leaves exactly the wanted rules |
| `RoutePass.RulesIdleIffConverged` | pkg/route/rule.go:131-206 | a pass over the rules has nothing to do exactly when every rule is wanted and every wanted rule is there |
| `RoutePass.SingleRuleConvergesIff` | pkg/route/rule.go:53-97 | a single missing rule is recognised after the pass exactly when it is stable |
| `RoutePass.AddedRuleExact` | pkg/route/rule.go:28-97 | a rule that is not recognised is refused exactly when it cannot be built or the kernel has the very same one |
| `RoutePass.StaleExists` | pkg/route/routeconfiguration_controller.go:182-190 | a wanted rule is in the listing before the deletions exactly when it is in one after |
| `RoutePass.ApplyExact` | pkg/route/routeconfiguration_controller.go:187-202 | taking rules and their routes in turn does what all rules and then all routes do |
| `RoutePass.PassConverges` | pkg/route/routeconfiguration_controller.go:152-205 | one pass without errors reaches the wanted rules and routes from any kernel state |
| `RoutePass.PassIdleIff` | pkg/route/routeconfiguration_controller.go:152-205 | a pass touches nothing exactly when the state is as wanted and every route names its destination |
| `RoutePass.SecondPassIsIdle` | pkg/route/routeconfiguration_controller.go:152-205 | after a pass without errors the next one issues no deletion and no write |
| `RoutePass.StalePass` | pkg/route/routeconfiguration_controller.go:152-201 | the pass over listings taken before the deletions equals the pass over fresh ones, to the last write and error |
| `RouteController.SameRoute` | pkg/route/route.go:137-169 | decides the route comparison, with the sorted comparison of next hops |
| `RouteController.ContainsRoute` | pkg/route/route.go:202-213 | decides containment |
| `RouteController.FindRouteInList` | pkg/route/route.go:88-113 | the one listed route to the destination, nothing, or an error for two or an unreadable destination |
| `RouteController.FindIsLookup` | pkg/route/route.go:88-113 | in the listing of a table the search is a lookup by destination |
| `RouteController.CollectRoutes` | pkg/route/routeconfiguration_controller.go:165-170 | all routes of all rules in order |
| `RouteController.Kernel.ListRoutes` | pkg/route/route.go:116-120 | a listing of the table in some order |
| `RouteController.Kernel.EnsureRoutesPresence` | pkg/route/route.go:36-65 | computes the specified table, error and writes; other tables unchanged |
| `RouteController.Kernel.CleanRoutes` | pkg/route/route.go:190-199 | leaves exactly the contained rows; deletes something exactly when the table changes; other tables unchanged |
| `RouteController.Kernel.FlushRoutesByTableID` | pkg/route/route.go:123-134 | empties the table, other tables unchanged |
| `RouteController.Kernel.EnsureRulePresence` | pkg/route/rule.go:28-97 | adds the rule exactly when no listed one matches, as specified |
| `RouteController.Kernel.CleanRulesOf` | pkg/route/rule.go:187-206 | leaves exactly the contained rules; other tables unchanged |
| `RouteController.Kernel.FlushRulesByTableID` | pkg/route/rule.go:117-128 | empties the rules of the table, others unchanged |
| `RouteController.Kernel.ApplyRules` | pkg/route/routeconfiguration_controller.go:187-202 | the loop over rules and routes computes the specified state, error and writes |
| `RouteController.Kernel.ReconcileTable` | pkg/route/routeconfiguration_controller.go:152-205 | the pass: specified state and error, other tables unchanged, no write exactly when there was nothing to do |
| `RouteController.Kernel.FlushTable` | pkg/route/routeconfiguration_controller.go:127-140 | empties rules and routes of the table and its registration |
| `RouteController.Kernel.Reconcile` | pkg/route/routeconfiguration_controller.go:91-256 | finalizer, deletion, application and, for a missing object, the table told from its name, as specified; other tables unchanged; which errors are tried again |
| `RouteLifecycle.GoneMeansFlushed` | pkg/route/routeconfiguration_controller.go:116-150 | with finalizers, in every run with failures, kernel state exists only under an object that carries the finalizer |
| `RouteLifecycle.StepKeepsGuarded` | pkg/route/routeconfiguration_controller.go:116-150 | every step keeps that |
| `RouteLifecycle.GuessedIff` | pkg/route/routeconfiguration_controller.go:235-239 | the names of objects from which a table is guessed |
| `RouteLifecycle.OwnTableGuessedIff` | pkg/route/routeconfiguration_controller.go:235-239 | of an object named like its table with one of the suffixes, or with none, the own table is guessed exactly under these conditions on the name |
| `RouteLifecycle.WithoutFinalizerIff` | pkg/route/routeconfiguration_controller.go:235-256 | without finalizers a deleted object leaves its table, and one more run flushes it exactly when it is guessed from the name or hashes like the one guessed |
| `RouteLifecycle.FlushesAnotherIff` | pkg/route/routeconfiguration_controller.go:235-256 | a run for a missing object flushes the table of another exactly when it is guessed from the missing name or hashes like the one guessed |
| `RouteLifecycle.NodeFlushesRemote` | pkg/route/routeconfiguration_controller.go:235-256 | the object of a node whose name ends like that of a remote cluster leaves its own table and flushes that of the remote cluster |
| `RouteLifecycle.DeletionCompletes` | pkg/route/routeconfiguration_controller.go:126-150 | one undisturbed run flushes the table and lets the object go |
| `RouteLifecycle.ObjectChangesIff` | pkg/route/routeconfiguration_controller.go:116-150 | a run changes the object exactly when the update due for its finalizer goes through; where one is due and does not go through, or the table has no name, the run fails |
| `RouteLifecycle.DeletedAndGone` | pkg/route/routeconfiguration_controller.go:126-150 | from the deletion of an object to its end: one run, and whoever else holds it |
| `RouteLifecycle.CreatedComesIntoEffect` | pkg/route/routeconfiguration_controller.go:116-205 | a new object gets its finalizer from the first run whose update goes through and is in effect after the second that is done; without finalizers after the first |
| `RouteLifecycle.EditComesIntoEffect` | pkg/route/routeconfiguration_controller.go:152-205 | an edited object is in effect after the next run that is done |
| `RouteLifecycle.RetriedIff` | pkg/route/routeconfiguration_controller.go:187-202 | a wanted route makes the run be tried again exactly when a device it names or the gateway of what is to be written is missing |
| `RouteLifecycle.FirstErrorEnds` | pkg/route/route.go:36-65 | a pass over the routes ends with the error of the first route that has one |
| `RtTables.GenerateTableID` | pkg/route/table.go:170-179 | the identifier lies in [256, 2^31) and is the four bytes with two bits overwritten through the alias |
| `RtTables.SameIdentifierIff` | pkg/route/table.go:170-179 | two names share a table exactly when their hashes agree in all but those bits |
| `RtTables.Without` | pkg/route/table.go:149-168 | no line left mentions the identifier |
| `RtTables.PresentExact` | pkg/route/table.go:39-50 | a line is added, at the end, exactly when none mentions the identifier, and then one does |
| `RtTables.RegisterThenRemove` | pkg/route/table.go:39-64 | registering and removing restores the file exactly when no line mentioned the digits before |
| `RtTables.OtherEntrySurvivesIff` | pkg/route/table.go:149-168 | another line survives a removal exactly when it does not contain the digits |
| `RtTables.RemovalHitsAnother` | pkg/route/table.go:161-166 | removing a table removes every table whose identifier extends its own by a digit |
| `RtTables.Registry.ExistsTableID` | pkg/route/table.go:75-97 | true exactly when some line contains the digits |
| `RtTables.Registry.EnsureTablePresence` | pkg/route/table.go:39-50 | appends the entry unless a line mentions it; afterwards it is registered |
| `RtTables.Registry.DeleteTableID` | pkg/route/table.go:123-168 | rewrites the lines that do not mention it |
| `RtTables.Registry.EnsureTableAbsence` | pkg/route/table.go:53-64 | afterwards no line mentions it |
| `FirewallRules.FilterUnstable` | pkg/firewall/utils/common.go:118-136 | keeps the stable expressions in order |
| `FirewallRules.StableExact` | pkg/firewall/utils/common.go:118-136 | what is compared is the bytes of the plain expressions, each as often and in their order |
| `FirewallRules.CompareRuleExpressions` | pkg/firewall/utils/common.go:149-195 | equal exactly when as many and each current one occurs among the wanted |
| `FirewallRules.ComparedIsPermutation` | pkg/firewall/utils/common.go:149-195 | for current expressions without repetition this is equality up to order |
| `FirewallRules.ComparedIsExactIff` | pkg/firewall/utils/common.go:149-195 | only permutations compare equal exactly when the current expressions have no repetition |
| `FirewallRules.ComparedMeans` | pkg/firewall/utils/common.go:149-195 | rules compare equal exactly when they have equally many plain expressions and each current one is among the wanted; for distinct ones exactly when both have the same, each as often |
| `FirewallRules.ComparedIsNotEquality` | pkg/firewall/utils/common.go:149-195 | with a repetition two different rules compare equal |
| `Firewall.NewChainModifiedIff` | pkg/firewall/chain.go:91-125 | a chain just created looks modified exactly when it hooks ingress |
| `Firewall.UnmodifiedIff` | pkg/firewall/chain.go:202-216 | a chain does not look modified exactly when it is the one that would be created, up to rules, and not on ingress |
| `Firewall.OutdatedFrom` | pkg/firewall/rule.go:66-86 | a kernel rule is current exactly when a wanted rule has its name and equals it |
| `Firewall.KeptExact` | pkg/firewall/chain.go:246-263 | cleaning a chain keeps exactly the current rules |
| `Firewall.AddedExact` | pkg/firewall/rule.go:25-43 | what is added is current, makes every wanted rule present, and is nothing exactly when none was missing |
| `Firewall.PassSettlesIff` | pkg/firewall/firewallconfiguration_controller.go:148-173 | from any table, a successful pass leaves exactly the wanted chains and rules, exactly when no wanted chain hooks ingress |
| `Firewall.PassMeans` | pkg/firewall/firewallconfiguration_controller.go:148-173 | from any table a successful pass leaves the wanted chains and no others, as described, with rules that have the names and plain expressions of the wanted ones |
| `Firewall.SettledMeans` | pkg/firewall/firewallconfiguration_controller.go:148-173 | a table as wanted means what is wanted, rule by rule |
| `Firewall.AddSettlesIff` | pkg/firewall/chain.go:25-68 | the same for adding to a table with nothing outdated |
| `Firewall.IdleIffSettled` | pkg/firewall/firewallconfiguration_controller.go:148-173 | neither transaction changes anything exactly when the table is as wanted |
| `Firewall.NotrackAppliedIff` | pkg/firewall/rule.go:25-48 | with nothing left in the connection, a notrack rule is reported as added exactly when some wanted one was not in force before the pass |
| `Firewall.NextPassNotrackIff` | pkg/firewall/firewallconfiguration_controller.go:175-183 | the pass after a successful one evicts connections exactly when an ingress chain has a notrack rule, so a failed eviction is not tried again |
| `Firewall.NotrackRulesHas` | pkg/firewall/conntrack.go:104-117 | the notrack rules are those among the filter rules of every chain, whatever its kind |
| `Firewall.AppliedIsEvicted` | pkg/firewall/firewallconfiguration_controller.go:175-183 | a pass that adds a notrack rule evicts what it matches |
| `Firewall.StrayIsEvicted` | pkg/firewall/conntrack.go:104-117 | it also evicts what filter rules of a chain of another kind match, which are never added or reported |
| `Firewall.InOrderIff` | pkg/firewall/rule.go:32-41 | after a pass a chain lists its rules in the wanted order exactly when the kept ones were the first of them |
| `FirewallStaging.AttemptLeaves` | pkg/firewall/chain.go:25-39 | an attempt that fails leaves chains and rules of its own configuration staged |
| `FirewallStaging.AddSettlesExactly` | pkg/firewall/chain.go:25-68 | adding what is missing settles any table exactly when nothing in it is outdated and no wanted chain hooks ingress |
| `FirewallStaging.RetrySettlesIff` | pkg/firewall/firewallconfiguration_controller.go:148-173 | on top of leftovers, from whatever configuration, a successful attempt settles exactly when they fit the new one and no wanted chain hooks ingress |
| `FirewallStaging.SameConfigurationSettles` | pkg/firewall/firewallconfiguration_controller.go:148-173 | leftovers fit the configuration they come from |
| `FirewallStaging.EditedConfigurationKeepsOldRule` | pkg/firewall/firewallconfiguration_controller.go:148-173 | after an edit that takes the rules out, the next pass succeeds and puts a leftover rule in force |
| `FirewallStaging.StagedNotrackAppliedIff` | pkg/firewall/rule.go:25-48 | on top of leftovers a notrack rule is reported as added exactly when some wanted one was neither in force before nor among them |
| `FirewallStaging.LeftoverNotEvicted` | pkg/firewall/firewallconfiguration_controller.go:148-183 | a notrack rule that comes into force from the leftovers of a failed attempt, with no eviction |
| `FirewallStaging.NothingStaged` | pkg/firewall/firewallconfiguration_controller.go:154-157 | with nothing left over, the first transaction is the cleaning alone |
| `FirewallController.SameRule` | pkg/firewall/utils/filterule.go:59-67 | decides the comparison of the wrappers |
| `FirewallController.IsRuleOutdated` | pkg/firewall/rule.go:66-86 | decides whether a rule is outdated |
| `FirewallController.CleanChain` | pkg/firewall/chain.go:246-263 | keeps the current rules in order |
| `FirewallController.ExistRule` | pkg/firewall/rule.go:50-61 | true exactly when a listed rule has the name |
| `FirewallController.AddRules` | pkg/firewall/rule.go:25-43 | sends the missing rules up to the first that cannot be compiled, and tells whether a notrack rule is among them |
| `FirewallController.CollectNotrackRules` | pkg/firewall/conntrack.go:104-117 | the loops collect what the notrack filter rules of all chains match |
| `FirewallController.Evict` | pkg/firewall/conntrack.go:63-101 | succeeds exactly when no deletion fails, and then leaves the flows that no notrack rule of the configuration matches |
| `FirewallController.Conn.Flush` | pkg/firewall/firewallconfiguration_controller.go:154-157 | all staged operations take effect or none |
| `FirewallController.Conn.Clean` | pkg/firewall/table.go:58-82 | stages exactly the deletions of outdated chains and rules |
| `FirewallController.Conn.AddChain` | pkg/firewall/chain.go:41-68 | finds or creates the chain and stages its missing rules |
| `FirewallController.Conn.AddChains` | pkg/firewall/chain.go:25-39 | stages all missing chains and rules and reports notrack exactly; when it fails, exactly what was sent before is staged |
| `FirewallController.Conn.Apply` | pkg/firewall/firewallconfiguration_controller.go:148-173 | the two transactions: which table results, when it succeeds, when connections are to be evicted |
| `FirewallController.Conn.Reconcile` | pkg/firewall/firewallconfiguration_controller.go:106-186 | finalizer, deletion and application as specified; exactly when the second transaction adds a notrack rule, the flows that the notrack rules of the configuration match are evicted |
| `FirewallLifecycle.GoneMeansDeleted` | pkg/firewall/firewallconfiguration_controller.go:127-146 | with finalizers, in every run with failures after any call, chains exist only under an object that carries the finalizer |
| `FirewallLifecycle.StepKeepsGuarded` | pkg/firewall/firewallconfiguration_controller.go:127-146 | every step keeps that |
| `FirewallLifecycle.CreatedComesIntoEffect` | pkg/firewall/firewallconfiguration_controller.go:127-173 | a new object gets its finalizer from the first run whose update goes through and is in effect after the second that commits, exactly when no chain hooks ingress |
| `FirewallLifecycle.CreatedWithoutFinalizer` | pkg/firewall/firewallconfiguration_controller.go:148-173 | without finalizers one run is enough |
| `FirewallLifecycle.RunPutsIntoEffectIff` | pkg/firewall/firewallconfiguration_controller.go:148-173 | a run that commits puts the chains into effect exactly when leftovers fit and no chain hooks ingress |
| `FirewallLifecycle.DeletionCompletes` | pkg/firewall/firewallconfiguration_controller.go:134-146 | one run whose calls go through deletes the table and lets the object go |
| `Conntrack.PortRoundTrip` | pkg/firewall/conntrack.go:220-242 | written ports and ranges are read back exactly when they are ports and not reversed |
| `Decimal.ParseDigits` | pkg/firewall/conntrack.go:222-241 | a written number is read back unless above the limit |
| `Conntrack.MatchingLaws` | pkg/firewall/conntrack.go:121-134 | matching does not depend on the direction of the flow, and each rule evicts on its own |
| `Conntrack.FiveTupleExact` | pkg/firewall/conntrack.go:138-216 | a rule that names both addresses, both ports and the protocol matches that tuple and no other |
| `Conntrack.UnreadableMatch` | pkg/firewall/conntrack.go:150-205 | a match on a value that cannot be read evicts no flow, or every flow when negated |
| `Conntrack.NegatedEvictsEverything` | pkg/firewall/conntrack.go:150-205 | a negated match evicts every flow exactly when a value in it cannot be read |
| `Conntrack.DeviceMatch` | pkg/firewall/conntrack.go:146-169 | a match on a device alone changes nothing, unless it is negated: then its rule evicts no flow |
| `Conntrack.ProtocolNumbers` | pkg/firewall/conntrack.go:207-216 | TCP and UDP match the protocol numbers 6 and 17 |
| `Conntrack.EvictsAsCompiledIff` | pkg/firewall/utils/match.go:31-62 | exactly which matches evict the flows that their expressions in the kernel ask for |
| `Conntrack.RemainingExact` | pkg/firewall/conntrack.go:63-101 | the flows that remain are those that match no rule, as many times |
| `Conntrack.Tracker.FlushMatching` | pkg/firewall/conntrack.go:63-101 | whatever fails, the flows gone are the matching ones among those visited; success exactly when nothing fails |
| `Conncheck.StepKeepsExclusive` | pkg/conncheck/conncheck.go:83-179 | no lock is ever held twice |
| `Conncheck.NoDeadlock` | pkg/conncheck/conncheck.go:134-148 | whenever a call is under way it can go on itself or a call that holds a lock can |
| `Conncheck.StepKeepsInv` | pkg/conncheck/conncheck.go:83-179 | every step of every thread, other than storing an address that does not parse, keeps the invariant of senders, running senders, peers and loops |
| `Conncheck.EveryInterleaving` | pkg/conncheck/conncheck.go:83-179 | in every interleaving, until an address that does not parse is stored: same identifiers for senders and peers whenever `sm` is free, running senders a sub-map, at most one live loop each, no crash |
| `Conncheck.KeysAgreeIff` | pkg/conncheck/conncheck.go:83-179 | in every run, whenever `sm` is free, senders and peers have the same identifiers exactly when no such address was stored; nothing crashes before |
| `Conncheck.StuckStays` | pkg/conncheck/conncheck.go:93-101 | no step of any call ends what such an address leaves |
| `Conncheck.CrashIff` | pkg/conncheck/conncheck.go:98-101 | a step crashes exactly when it uses the sender left by an address that did not parse |
| `Conncheck.InvalidAddressLingers` | pkg/conncheck/conncheck.go:97-101 | as long as it lasts, adding again changes nothing, stopping crashes, and so does the first run |
| `Conncheck.AddExact` | pkg/conncheck/conncheck.go:83-101 | a new identifier with an address that parses gets a live sender of its own, a stored one is left alone |
| `Conncheck.AddPeerExact` | pkg/conncheck/conncheck.go:103 | the peer that comes with it is not connected and its silence counts from now |
| `Conncheck.RunExact` | pkg/conncheck/conncheck.go:167-179 | the loop is started exactly for a sender that is stored and does not run |
| `Conncheck.PongDelivered` | pkg/conncheck/receiver.go:77-102 | a PONG that nothing holds up is handled with the times it carries |
| `Conncheck.StopExact` | pkg/conncheck/conncheck.go:134-148 | the sender goes from all three maps and its loop ends with its next step; other senders and loops are left alone |
| `Conncheck.LoopEndsIff` | pkg/conncheck/conncheck.go:117-125 | a loop goes on exactly as long as its sender has not been cancelled |
| `Conncheck.NoEmptyIdentifier` | pkg/conncheck/conncheck.go:86-88 | in every run no sender is stored without an identifier |
| `Conncheck.CrashIsFinal` | pkg/conncheck/conncheck.go:83-179 | a crashed thread never moves again |
| `ConncheckTables.Checker.StoreSender` | pkg/conncheck/conncheck.go:83-101 | storing a sender has the effect of that step; success exactly for a new identifier, not empty, and an address that parses |
| `ConncheckTables.Checker.InitPeer` | pkg/conncheck/receiver.go:105-115 | the new peer is disconnected, with the time of its creation as last PONG |
| `ConncheckTables.Checker.SetRunning` | pkg/conncheck/conncheck.go:166-179 | the sender runs exactly when it is stored and not running |
| `ConncheckTables.Checker.DelAndStopSender` | pkg/conncheck/conncheck.go:134-148 | the sender is cancelled and forgotten in all three maps; a crash exactly for what an address that did not parse left |
| `ConncheckTables.Checker.ReceivePong` | pkg/conncheck/receiver.go:77-102 | the PONG is taken exactly when it is not older than the last answered PING, and the latency is told |
| `ConncheckTables.Checker.CheckPeer` | pkg/conncheck/receiver.go:178-190 | the peer is disconnected exactly when it is lost |
| `ConncheckTables.Checker.Sweep` | pkg/conncheck/receiver.go:167-196 | a sweep without interference disconnects exactly the lost peers |
| `FailureDetection.MarkedOnlyLate` | pkg/conncheck/receiver.go:184-190 | a peer is marked lost only after more than threshold times interval since its last PONG |
| `FailureDetection.PingsMonotone` | pkg/conncheck/receiver.go:86-91 | the timestamp of the last accepted PING never decreases |
| `FailureDetection.PongExact` | pkg/conncheck/receiver.go:77-102 | a PONG is taken exactly when its PING was not sent before the last one answered, and changes that peer alone |
| `FailureDetection.HealthyStaysConnected` | pkg/conncheck/receiver.go:77-202 | a peer that keeps answering in order, never more than threshold times interval after the last, reads connected all the time |
| `FailureDetection.StaysConnected` | pkg/conncheck/receiver.go:77-102 | after a PONG and until the next, a peer reads connected for threshold times interval |
| `FailureDetection.SweepLooks` | pkg/conncheck/receiver.go:167-196 | a sweep that is over has looked, under the lock, at every peer that was there when it began, whatever happened in between |
| `FailureDetection.DetectedInTime` | pkg/conncheck/receiver.go:158-202 | once a sweep that began within the last period is over, a peer without PONG for longer than threshold times interval plus that period reads disconnected |
| `FailureDetection.EffectOnPeers` | pkg/conncheck/receiver.go:77-115 | what one step can do to a peer |
| `Transitions.FlipsAppend` | pkg/fabric/genevetunnel_controller.go:249-257 | one more call adds a change exactly when it differs from the call before |
| `Transitions.FlipsParity` | pkg/fabric/genevetunnel_controller.go:249-257 | the number of changes is odd exactly when the last call differs from the start |
| `Transitions.Observer.Observe` | pkg/fabric/genevetunnel_controller.go:249-257 | `onChange` has fired as often as the calls change, starting from false |
| `Transitions.FollowsWithoutOverlap` | pkg/conncheck/receiver.go:91-101 | without overlapping updates the remembered value is the flag whenever nothing is left to tell |
| `Transitions.OverlapDisagrees` | pkg/conncheck/receiver.go:184-195 | two overlapping updates that leave the wrong value |
| `Transitions.NextPairRepairs` | pkg/fabric/genevetunnel_controller.go:249-257 | the next update told on its own sets both right |
| `Transitions.CheckerSteps` | pkg/conncheck/receiver.go:77-195 | for one peer, every step of the connection checker is a change of its flag, a call of its observer or nothing |
| `Transitions.ObserverFollows` | pkg/conncheck/receiver.go:77-195 | in every run of the checker in which changes are told in turn, the observer remembers the flag whenever nobody is about to tell it |
| `Transitions.SweepOvertakesPong` | pkg/conncheck/receiver.go:184-195 | a sweep that overtakes the thread telling of a PONG leaves the observer with the wrong value |
| `MetricsText.GetMetrics` | pkg/remotemetrics/apiscraper.go:166-205 | the loop computes the specified families |
| `MetricsText.ParseExact` | pkg/remotemetrics/apiscraper.go:166-205 | exactly the mapped matching lines are kept, in order and under the HELP line before them |
| `MetricsText.ParsedNonEmpty` | pkg/remotemetrics/apiscraper.go:187-203 | no family without values comes out |
| `MetricsText.SortExact` | pkg/remotemetrics/metrics.go:43 | sorting gives the same values in order |
| `MetricsText.Write` | pkg/remotemetrics/metrics.go:25-49 | writes the specified lines |
| `MetricsText.ReadText` | pkg/remotemetrics/apiscraper.go:170-180 | lines without line breaks are read back from the text |
| `MetricsText.ReadReturnText` | pkg/remotemetrics/apiscraper.go:170-180 | lines ended by a carriage return and a newline lose both and nothing else |
| `MetricsText.RoundTrip` | pkg/remotemetrics/metrics.go:25-49 | reading what was written gives the same families without the empty ones and with sorted values |
| `MetricsText.PrintCanonical` | pkg/remotemetrics/metrics.go:25-49 | what was read back is written the same way again |
| `MetricsMerge.Collector.AddFamily` | pkg/remotemetrics/metrics.go:53-64 | the inner loop merges one family as specified |
| `MetricsMerge.Collector.MergeMetrics` | pkg/remotemetrics/metrics.go:51-66 | merges all families as specified |
| `MetricsMerge.MergeValues` | pkg/remotemetrics/metrics.go:51-66 | the values under each HELP line add up |
| `MetricsMerge.MergeHas` | pkg/remotemetrics/metrics.go:51-66 | the HELP lines of both are listed |
| `MetricsMerge.MergeDistinct` | pkg/remotemetrics/metrics.go:51-66 | no HELP line is listed twice, whatever is merged |
| `MetricsMerge.MergeAllExact` | pkg/remotemetrics/apiscraper.go:123-135 | after all results, each HELP line has the values of all of them |
| `MetricsMerge.ArrivalOrderIrrelevant` | pkg/remotemetrics/apiscraper.go:123-135 | any order of arrival gives the same HELP lines, each once, with the same values |
| `MetricsScrape.AddUp` | pkg/remotemetrics/aggregator.go:41-53 | the running totals are the name of the last line, the sum and the latest time of the lines understood |
| `MetricsScrape.ParseValueExact` | pkg/remotemetrics/aggregator.go:69-90 | a line of three words is read word by word, and not at all if a number does not parse |
| `Strings.SplitExact` | pkg/remotemetrics/aggregator.go:70 | splitting loses nothing and leaves no separator in a part |
| `MetricsScrape.Aggregate` | pkg/remotemetrics/aggregator.go:29-58 | node metrics become one line, the others stay |
| `MetricsScrape.NodeMetricsExact` | pkg/remotemetrics/aggregator.go:60-67 | the families summed up are those of CPU usage and memory of nodes |
| `MetricsScrape.SumPermutes` | pkg/remotemetrics/aggregator.go:41-53 | the sum does not depend on the order |
| `MetricsScrape.SumsWhatIsSaid` | pkg/remotemetrics/aggregator.go:41-56 | lines that say numbers are summed up to their total, under their name and at the latest time |
| `MetricsScrape.MaxExact` | pkg/remotemetrics/aggregator.go:47-49 | the time is the latest understood one, or zero |
| `MetricsScrape.AggregateOrderIrrelevant` | pkg/remotemetrics/aggregator.go:41-56 | understood values of one name add up to the same line in any order |
| `MetricsScrape.NameOrderIrrelevantIff` | pkg/remotemetrics/aggregator.go:41-56 | the name of the line does not depend on the order exactly when all values are read to one name |
| `MetricsScrape.MalformedLastLosesName` | pkg/remotemetrics/aggregator.go:41-56 | a line that is not understood adds nothing, but at the end it loses the name |
| `MetricsScrape.ScrapeConserves` | pkg/remotemetrics/apiscraper.go:84-146 | in every run, once all nodes answered, their values are those merged plus those left in the channel |
| `MetricsScrape.ScrapeComplete` | pkg/remotemetrics/apiscraper.go:120-136 | if every answer was taken, the merged HELP lines and values do not depend on the order of answers |
| `MetricsScrape.ScrapeMeans` | pkg/remotemetrics/apiscraper.go:84-146 | if every answer was taken, the values under each HELP line are those of all nodes that did answer |
| `MetricsScrape.OverMeans` | pkg/remotemetrics/apiscraper.go:117-146 | the merging ends only with all answers or after a cancellation, and takes nothing more |
| `MetricsScrape.Conclude` | pkg/remotemetrics/apiscraper.go:141-154 | an error exactly when there are nodes and all of them failed, otherwise the aggregated metrics |
| `MetricsScrape.ResponsesAgree` | pkg/remotemetrics/apiscraper.go:120-154 | two runs in which every answer was taken give the same response |
| `MetricsScrape.AnswersCanBeLost` | pkg/remotemetrics/apiscraper.go:117-146 | the merging may stop once the nodes were waited for, with answers left in the channel |
| `MetricsCache.KeyIsInjective` | pkg/remotemetrics/http.go:233 | requests that reach the cache share a key exactly when they are the same |
| `MetricsCache.SlashBreaksKeys` | pkg/remotemetrics/http.go:233 | a cluster name with a slash can take the key of another request |
| `MetricsCache.Cache.CacheGet` | pkg/remotemetrics/http.go:312-325 | serves a fresh entry, drops an expired one |
| `MetricsCache.Cache.CacheSet` | pkg/remotemetrics/http.go:329-340 | stores the entry, and no other expired entry survives |
| `MetricsCache.StepKeepsInv` | pkg/remotemetrics/http.go:235-283 | every step keeps cache, flights, requests and responses in agreement |
| `MetricsCache.EveryResponseFaithful` | pkg/remotemetrics/http.go:235-283 | in every interleaving a response comes from a scrape of the same cluster, path and selector, not closed yet when the request joined it or finished less than its lifetime before |
| `MetricsCache.ServedWhileYoung` | pkg/remotemetrics/http.go:254-283 | data comes from the cache for less than fifteen seconds after its scrape, a failure for less than five |
| `MetricsCache.StoredIsServed` | pkg/remotemetrics/http.go:254-283 | and for that long what was stored is served |
| `MetricsCache.HitOrMiss` | pkg/remotemetrics/http.go:235-244 | a request is served from the cache or goes on to a scrape, and never both |
| `MetricsCache.ScrapesDeduplicated` | pkg/remotemetrics/http.go:246-250 | two scrapes under way are for different requests |
| `MetricsCache.NothingExpiredAfterStore` | pkg/remotemetrics/http.go:329-340 | in the state machine too, a store leaves nothing else expired |
| `NodeSelector.MergeNodeSelector` | pkg/utils/nodeUtils.go:90-102 | the nested loops give the merged term of every pair, row by row |
| `NodeSelector.PairKeepsMeaningIff` | pkg/utils/nodeUtils.go:93-98 | two terms keep their meaning on every node exactly when both ask of labels alone, or neither asks of labels and one is empty |
| `NodeSelector.MergeKeepsMeaningIff` | pkg/utils/nodeUtils.go:83-102 | for independent requirements the merged selector means the conjunction exactly when no two terms ask of fields alone and every merged term that asks anything asks all that some pair on labels alone asks |
| `NodeSelector.PlainSelectorsMerge` | pkg/utils/nodeUtils.go:83-102 | selectors of terms on labels alone keep their meaning; the number of terms is the product |
| `CrdReplicator.AlwaysGated` | internal/crdReplicator/crdReplicator-operator.go:107-174 | in every run with failures, a cluster has a reflector only while a secret of it carries the finalizer, unless a secret was moved away from under its reflector |
| `CrdReplicator.EditKeepsGatedIff` | internal/crdReplicator/crdReplicator-operator.go:102-105 | editing a secret keeps that exactly when it stays with its cluster, has no finalizer, or the cluster has no reflector or another guarding secret |
| `CrdReplicator.OtherReflectorsUntouched` | internal/crdReplicator/crdReplicator-operator.go:79-174 | a run for a secret of another cluster leaves a reflector alone |
| `CrdReplicator.StepKeepsGated` | internal/crdReplicator/crdReplicator-operator.go:107-174 | every step, edits of that kind apart, keeps that |
| `CrdReplicator.ReflectorFollowsSecret` | internal/crdReplicator/crdReplicator-operator.go:137-174 | a run without failures leaves a reflector for the present secret with all resources started, a new one with the namespaces of the secret, and the next changes nothing |
| `CrdReplicator.LiveRunExact` | internal/crdReplicator/crdReplicator-operator.go:125-174 | whatever calls fail, a run leaves the cluster a reflector for the present secret exactly when it had one or the old one stops, no other secret names the cluster and the setup succeeds; one that does not stop stays as it was |
| `CrdReplicator.IdleRunExact` | internal/crdReplicator/crdReplicator-operator.go:85-136 | nothing changes for a secret that is missing, not valid or cannot be given the finalizer |
| `CrdReplicator.DeletionExact` | internal/crdReplicator/crdReplicator-operator.go:107-123 | the reflector goes first, exactly when it stops, and only then the finalizer, and with it the secret if nobody else holds it |
| `CrdReplicator.WithdrawnExact` | internal/crdReplicator/crdReplicator-operator.go:283-302 | under deletion all registered resources are stopped exactly when each started one does stop |
| `CrdReplicator.Controller.StopReflector` | internal/crdReplicator/crdReplicator-operator.go:261-276 | forgets the reflector exactly when it stops |
| `CrdReplicator.Controller.EnforceReflectionStatus` | internal/crdReplicator/crdReplicator-operator.go:283-302 | every registered resource is started or, under deletion, stopped up to the first that does not stop |
| `CrdReplicator.UnstartedExact` | internal/crdReplicator/crdReplicator-operator.go:295-299 | all are stopped exactly when every started one does stop |
| `CrdReplicator.Controller.Refresh` | internal/crdReplicator/crdReplicator-operator.go:137-174 | replaces an outdated reflector as specified |
| `CrdReplicator.Controller.Reconcile` | internal/crdReplicator/crdReplicator-operator.go:79-174 | secrets and reflectors change as specified |

## Left out

- IPv6 addresses in the address manager: the trees are over 32-bit addresses.
- IpamNode.Node.OnNodeOf: combines the search and the call on the node found, so the node pointer that the source returns and changes later is not captured.
- The gRPC server, persistence and the listing of networks and addresses from the cluster resources: they arrive as maps.
- Kernel routes that differ only in metric or type of service: a table has one route for each destination.
- Flags and encapsulation of next hops as the kernel reports them.
- RouteController.FindRouteInList: the error for two listed routes to one destination is modelled, but a kernel table never leads to it.
- RouteController.Kernel.Reconcile: the kernel grants deletions and flushes; failures of single deletions appear only in RouteLifecycle, as runs cut short.
- The error of the table registry for identifier zero, which generated identifiers never have, and failures of the file system.
- How rules are compiled to nftables expressions, and errors of marshalling them: a rule comes with its expressions or cannot be compiled; what the expressions of a match ask is modelled only to compare it with eviction.
- FirewallController.SameRule: route rules are never added and always equal, as in the source.
- Families of nftables tables: one table per configuration, deleted by name.
- Conntrack flows that appear while the dump is walked.
- Conncheck.StepKeepsInv: a step does all that is done under a lock at once, and of the pointers to peers and senders kept after unlocking only the peer to be told about is captured; sockets, messages and the timer of the ping loop are left out.
- FailureDetection.DetectedInTime: overflow of the product of threshold and interval is not modelled.
- The bounded channel of transition events, which drops an event when full.
- MetricsText.GetMetrics: lines longer than the reader's buffer, which the source splits, are not modelled.
- MetricsMerge.Collector.MergeMetrics: families are values, so sharing a family between source and destination is not captured.
- MetricsScrape.AggregateOrderIrrelevant: sums are exact; rounding of floating-point numbers and printing with six digits are not modelled.
- Matchers, the namespace mapper, compression, the limit on concurrent scrapes and timeouts.
- NodeSelector.MergeKeepsMeaningIff: requirements are independent; that two of them on one label can exclude each other, so that some assignments belong to no node, is not modelled.
- Status conditions, events, watches, predicates, flags and mains: bookkeeping and wiring that would add only easy members.
