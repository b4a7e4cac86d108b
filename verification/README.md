# Verified model of the PulsarOS testbed

The testbed renders a topology file into VM, SDN, VXLAN and BGP settings for one run, creates the run on Proxmox,
configures the guests, injects faults and destroys the run again. This project models the parts whose correctness is not
visible in any single function and proves it in Dafny 4.11; `dafny verify dfyconfig.toml` checks everything.

| file | models |
|---|---|
| `Text.dfy` | code-point order and sorting, numerals, splitting, the name pattern |
| `Render.dfy`, `Identifiers.dfy` | rendering of networks and hosts; every generated name and number |
| `Pipeline.dfy` | the whole of rendering, from declarations to an output the rest relies on |
| `Topology.dfy`, `FaultChecks.dfy`, `Examples.dfy` | the checking and lowering passes over segments and faults |
| `ControlPlane.dfy`, `FrrConfig.dfy`, `FrrLoad.dfy` | the requested control plane, underlays, neighbour lists, FRR configuration, what FRR makes of it and the network it brings up |
| `Propagation.dfy`, `ReflectorPlane.dfy` | EVPN route propagation as a transition system; reachability under any failures |
| `Cluster.dfy`, `Restart.dfy`, `Destroy.dfy` | the Proxmox cluster, create, interruption and restart, destroy with its worker pool |
| `Runs.dfy` | create followed by destroy; two runs that share generated names |
| `RunState.dfy`, `RunHistory.dfy`, `ManagementIps.dfy` | the run record, what sequences of commands leave in it, and the addresses it shares with the topology file |
| `Ports.dfy` | the two DPDK port derivations |
| `FaultState.dfy`, `FaultTargets.dfy` | injection and undo, and which device a declared fault is injected at |
| `FaultSetup.dfy`, `Addressing.dfy`, `Deployment.dfy` | the plays, the addresses they leave, and the deployed state faults start from |
| `FaultDriver.dfy`, `FaultExamples.dfy` | the fault protocol, and faults with which it goes wrong |
| `EnvFile.dfy` | the environment file, written and read back |

How things are represented. An error exit or an uncaught exception is the result `Die`. YAML and JSON documents are typed
values; keys that may be missing, null or empty keep that distinction where the code makes it. Outside behaviour (ping
results, interface names, hardware, which commands of create and which queries and deletions of destroy fail, how an
injector or an undo fails and what state it then leaves, who answers at an address several hosts have) is a parameter.
Scripts that change state are classes and methods proved against functions, and the theorems are about those functions.
BGP: all learned paths are eligible and nothing is dropped by originator or cluster-list checks; the re-advertisement
rules are section 9.2 of RFC 4271 and section 6 of RFC 4456. FRR reads a configuration line by line; one outside its block,
or for a neighbour that has no AS yet, is refused (`FrrLoad.Take`).

What the proofs turned up in the code:

- A trunk member with an explicit null (or empty) `vlan` is accepted through its segment's VLAN and then lowered without
  one (`MemberTagging`, `NullVlanSlipsThrough`).
- Underlay addresses are not compared across hosts. If two VTEP hosts share one, some host cannot tell its listed peers
  apart or has itself as neighbour, and the generated network does not come up (`SharedAddressAccepted`,
  `TellsPeersExactly`, `ConfiguredNetwork`).
- A member address is only checked to be non-empty, so an accepted fault can fail before the driver starts recording
  (`UnparsedAddressAccepted`); so can every fault while some host has no management address (`UnaddressedNotRecorded`,
  `AcceptedIsRecorded`).
- An undo whose command fails is not noticed: whatever the fault, a test can report `restored` and `recovered` and leave
  it in place (`RestoredNotUndone`, `RestoredExactly`). An injector that raises after its command took effect leaves the
  fault in place as well, reported as not restored (`RaisedStays`). A flood list removal that fails unnoticed and is then
  "restored" duplicates the flood list (`SilentRemovalDuplicates`). `MtuExample` is a fault all this applies to.
- A configured VLAN interface carries the address of the last member that uses it only, so moving another member's
  address off it and back is not undone (`SharedVlanNotUndone`, `DeployedFaultUndone`).
- The destroy script writes the status `destroyed` and succeeds also when a VM, a VNet or the zone could not be deleted
  (`UndeletedLeftBehind`), and takes a VM whose status query fails for missing (`UnseenLeftBehind`); `LeavesNothingExactly`
  says when nothing is left. When verification misses a foreign VM, destroy can fail after having deleted others
  (`FailsHalfway`).
- Runs whose IDs agree modulo the size of the service VLAN range, 500 by default, share the outer tag of their zones
  although the zones and the VMIDs differ (`ServiceVlanExactly`, `OuterTagShared`).
- Run IDs equal modulo a million share their zone. Destroying one run deletes the other's zone, and create takes it over,
  exactly when none of its own VMIDs is held under another name (`SharedZoneSurvives`, `SharedNamesCreate`); if the other
  run's VMs are the only ones, exactly when the topologies share no offset of a live host (`SharedZoneAlone`). Runs 1 and
  1000001 show the loss (`SharedZoneLost`).

## Model

| member | source | states |
|---|---|---|
| Topology.ValidateSegments | scripts/render-topology.py:216-308 | The one-pass check with its running address table accepts exactly the declarations satisfying the order-free predicate: every reference resolves, VNIs and names are distinct, hosts are distinct per segment, and any two VTEPs anywhere that name the same host and NIC agree on its address |
| Topology.TableThreads | scripts/render-topology.py:258-265 | Threading the address table through all VTEPs of all segments fails exactly when two of them disagree |
| Topology.ResolveSegments | scripts/render-topology.py:311-368 | Lowering dies exactly on a reference that does not resolve, and otherwise keeps each declared VTEP, NIC, member and address in its place; each underlay address is what precedes the slash of the declared one, and each trunk member has the VLAN its own vlan key gives or, without that key, its segment's |
| Topology.AddressRoundTrip | scripts/render-topology.py:338 | An underlay_ip with a prefix length lowers to its address part, one without stays as it is |
| Topology.CheckAndLower | scripts/render-topology.py:748-749 | Lowering succeeds on everything the check accepts: no lookup fails after acceptance |
| Topology.DeviceNamesDistinct | scripts/render-topology.py:359-367 | Generated bridge and VXLAN device names are pairwise distinct, also across the two kinds |
| Topology.MemberTagging | scripts/render-topology.py:296-304 | Access members are untagged; a trunk member carries the number it declares, or its segment's when it has no vlan key, and so one in 1..4094 if and only if its own vlan key is absent or a number |
| Topology.NullVlanSlipsThrough | scripts/render-topology.py:346-348 | A concrete accepted topology whose trunk member is lowered with no VLAN |
| FaultChecks.ValidateFaults | scripts/render-topology.py:581-640 | The check, with its set of member keys, its dictionary of members and its unknown types and impacts, accepts exactly the lists of distinctly named faults that name a known segment, two of its members and, for a VLAN fault, a source whose last declaration is a trunk member on another VLAN; and returns them unchanged |
| FaultChecks.KindExactly | scripts/render-topology.py:581-640 | Each of the six fault types is read from its own name and from no other text |
| FaultChecks.ImpactExactly | scripts/render-topology.py:581-640 | A missing expected_impact reads as an outage, and otherwise only the two known texts are read |
| FaultChecks.AcceptedFaultResolves | tests/test_fault_injection.py:50-56 | An accepted fault survives reference resolution unchanged, and both endpoints are then found as checked members on declared NICs |
| FaultChecks.WrongVlanDiffers | tests/test_fault_injection.py:215-222 | An accepted vlan_mismatch fault can be injected if and only if its source carries a VLAN, and then moves to a different VLAN in 1..4094 |
| ControlPlane.VtepUnderlays | scripts/render-topology.py:381-396 | Succeeds exactly when all VTEPs of a host agree, and the table it returns has each host's own underlay and no other host |
| ControlPlane.OrderIndependent | scripts/render-topology.py:381-396 | Permuting the segments changes neither the verdict nor the table |
| ControlPlane.AgreeIffOneNic | scripts/render-topology.py:258-265 | On a checked topology underlays agree if and only if every host names one underlay NIC across all its segments |
| ControlPlane.PlanExactly | scripts/render-topology.py:399-443 | The check yields an EVPN plan of an AS, peering and list of reflectors if and only if the request asks for just that: type evpn with a segment to serve, the declared ASN or 65000 in range, the declared peering or a full mesh, and the whole declared list, of distinct VTEP hosts and non-empty exactly for route_reflector; the static plane if and only if there is no request or its type is absent or static; and it dies on everything else |
| ControlPlane.RolesExactly | scripts/render-topology.py:446-470 | The roles an accepted request assigns: the VTEP hosts are the routers, the declared reflectors the reflectors, and it is a full mesh unless route_reflector was asked for |
| ControlPlane.AcceptedPlanIsValid | scripts/render-topology.py:399-443 | These roles are a valid plane, as the graph lemmas assume |
| ControlPlane.ResolveControlPlane | scripts/render-topology.py:446-481 | Dies exactly on disagreeing underlays; otherwise every VTEP host gets the sorted list of exactly its neighbours with their addresses and client flags |
| FrrConfig.NeighbourLists | scripts/render-topology.py:454-469 | Lists are strictly sorted and self-free, listing is mutual, and the client flag is set on exactly one side of a reflector-client session and on no other |
| FrrConfig.TotalListLength | scripts/render-topology.py:454-469 | The lists have n(n-1) entries in all for a full mesh and 2k(n-k)+k(k-1) with k reflectors among n |
| FrrConfig.RenderFrr | ansible/roles/frr-evpn/tasks/main.yml:31-67 | The two loops print one list of lines per host, all of the file, whose meaning FrrLinesPrint gives |
| FrrConfig.FrrLinesPrint | ansible/roles/frr-evpn/tasks/main.yml:32-57 | BGP runs in the declared AS under the host's router ID; exactly the listed addresses are activated neighbours, reached from the host's own underlay address, and exactly those listed as clients are marked route-reflector-client |
| FrrConfig.CompileFrr | ansible/roles/frr-evpn/tasks/main.yml:13-81 | From an accepted plan to the configurations of all hosts, establishing what the network lemmas assume |
| FrrLoad.LoadedExactly | ansible/roles/frr-evpn/tasks/main.yml:31-67 | Read line after line in the order printed, no line outside its block, the file configures exactly: host name, AS, router ID, no IPv4 unicast, all VNIs advertised, and the listed addresses as active iBGP neighbours reached from the own underlay address, just the listed clients as clients |
| FrrLoad.HostConfigured | scripts/render-topology.py:446-481 | From an accepted request to FRR: the file of a VTEP's host, once loaded, has the requested AS, the VTEP's own address as router ID and source of every session, as neighbours exactly the addresses of the VTEPs on other hosts it is to have a session with, and as clients, on a reflector only, those that are no reflectors |
| FrrConfig.TellsPeersExactly | scripts/render-topology.py:258-265 | In every valid plane, all hosts have one distinct neighbour address per listed peer, none of them their own, if and only if no two VTEP hosts share an address |
| FrrConfig.ConfiguredNetwork | ansible/roles/frr-evpn/tasks/main.yml:41-57 | However packets for a shared address are delivered, the printed configurations bring up exactly the generated graph and flags if and only if no two VTEP hosts share an address |
| FrrConfig.SharedAddressAccepted | scripts/render-topology.py:258-265 | A concrete accepted topology with two VTEP hosts of one address |
| FrrConfig.SelfPeeringExactly | ansible/roles/frr-evpn/tasks/main.yml:41-47 | A host has its own address configured as a neighbour exactly when one of its neighbours shares it |
| Propagation.ConvergedIsExact | ansible/roles/frr-evpn/tasks/main.yml:54-57 | In whatever order advertisements are exchanged, a converged network holds exactly the chains the reflection rules permit |
| Propagation.RunSound | ansible/roles/frr-evpn/tasks/main.yml:54-57 | No run ever holds an advertisement the reflection rules forbid |
| Propagation.HandOverDecreases | scripts/render-topology.py:462-468 | Under the generated client flags each hand-over of a route strictly decreases an explicit budget that starts at three |
| Propagation.ChainBound | scripts/render-topology.py:462-468 | No advertisement chain is longer than three sessions, without any loop check |
| Propagation.RunsTerminate | scripts/render-topology.py:462-468 | Every run of the propagation is finite: each step strictly shrinks a fixed finite set, whatever is shut or down |
| Propagation.RunConverges | scripts/render-topology.py:462-468 | Every run can be continued until the network has converged |
| Propagation.RunsAgree | ansible/roles/frr-evpn/tasks/main.yml:54-57 | All converged runs end in the same state, whatever the order of advertisements |
| ReflectorPlane.ReachExactly | scripts/render-topology.py:454-469 | Under any set of shut sessions and lost routers, v learns o's routes if and only if they have a session, or one live reflector joins them, or two live reflectors join two clients |
| ReflectorPlane.SurvivorReach | scripts/render-topology.py:420-469 | With routers lost but sessions intact, one survivor learns another's routes if and only if they have a session or a reflector survives, and then within two sessions |
| ReflectorPlane.SurvivesExactly | scripts/render-topology.py:420-469 | All survivors reach each other within two sessions if and only if the plane is a full mesh, or a reflector survives, or fewer than two routers do |
| ReflectorPlane.CutSameRole | tests/test_fault_injection.py:308-325 | Cutting a session in a full mesh or between two reflectors loses exactly its two directions |
| ReflectorPlane.CutClient | tests/test_fault_injection.py:308-325 | Cutting reflector from client loses nothing if another reflector exists, and otherwise exactly the pairs into and out of that client |
| ReflectorPlane.CutEitherEnd | tests/test_fault_injection.py:314-325 | It makes no difference to anyone which end of a session is shut |
| ReflectorPlane.ThreeSessionsNeeded | scripts/render-topology.py:454-469 | The bound of three sessions is attained: a plane and two shut sessions where a client is reachable over three and no fewer |
| FrrConfig.PeerAddressExactly | tests/test_fault_injection.py:297-305 | The shutdown fault finds a peer address, the right one, exactly between VTEPs that have a session |
| FrrConfig.ShutdownNetwork | tests/test_fault_injection.py:314-325 | Shutting a neighbour by address turns the running network into the generated graph without that one session if and only if no two VTEP hosts share an address |
| FrrConfig.ShutdownImpact | tests/test_fault_injection.py:308-325 | With distinct addresses and nothing else shut on a VTEP, the two VTEPs stop learning each other's routes exactly when they have the same role or the reflector among them is the only one |
| Deployment.ShutdownFault | tests/test_fault_injection.py:308-325 | A declared bgp_peer_shutdown fault on the deployed network shuts, on the VTEP next to the source, the underlay address of the VTEP next to the destination; the two have a session, injecting stops them learning each other's routes exactly in the separating case and otherwise not at all, and restoring lets them learn these again |
| Identifiers.MacWellFormedExactly | scripts/render-topology.py:49-55 | A generated MAC is six two-digit octets if and only if its offset is in 0..255 |
| Identifiers.MacRecovers | scripts/render-topology.py:49-55 | Two MACs are equal if and only if the run IDs agree modulo 2^24 and the offsets are equal |
| Identifiers.MacOctets | scripts/render-topology.py:49-55 | After 52:54 the octets of a MAC are the low three bytes of the run ID, most significant first, and the offset |
| Identifiers.VmNameSplits | scripts/render-topology.py:715 | The run ID is read back from between the first two dashes of a VM name, the host from what follows |
| Identifiers.VmNameRecovers | scripts/render-topology.py:715 | A VM name determines run and host |
| Identifiers.VmidExactly | scripts/render-topology.py:660-714 | Less its host's offset, a VMID is 200000 and the run ID's remainder by 50000 |
| Identifiers.VnetRecovers | scripts/render-topology.py:659-692 | A VNet name determines its prefix and the run ID modulo a million |
| Identifiers.ZoneExactly | scripts/render-topology.py:659-775 | A zone name is "pq" and six digits, which read as the run ID modulo a million |
| Identifiers.ServiceVlanExactly | scripts/render-topology.py:654-776 | The outer tags are just the configured range, and two runs have the same if and only if their IDs agree modulo its size |
| Identifiers.OuterTagShared | scripts/render-topology.py:654-776 | With the default range, runs 500 apart share the outer tag although their zones and VMIDs differ |
| Identifiers.VnetPassesGuard | scripts/pve-destroy-run.sh:16-19 | Every generated VNet and zone name has at most eight characters and passes the destroy guard |
| Identifiers.GuardExactly | scripts/pve-destroy-run.sh:16-19 | The guard lets a name through if and only if some run generates it for some accepted prefix |
| Identifiers.SharedSuffixSharesVmids | scripts/render-topology.py:659-660 | Runs that share a zone name share the VMID of every offset |
| Identifiers.BridgeTagFitsExactly | scripts/render-topology.py:661-691 | Bridge-mode tags are at most 4094 for all run IDs if and only if the offset is at most 595, and valid VLAN IDs if and only if it is in -2999..595 |
| Render.BridgesExactly | scripts/render-topology.py:663-703 | The table of bridges has exactly the declared networks, each with its own VNet or tagged bridge |
| Render.RenderTopo | scripts/render-topology.py:654-747 | Accepts exactly the declarations AcceptedExactly describes, and its output, described by TopoExactly and NicExactly, meets the assumptions of create, destroy and the segment passes |
| Render.AcceptedExactly | scripts/render-topology.py:654-747 | Declarations are accepted if and only if there is a range of outer tags, there are networks and hosts, each is well formed, every NIC is on a declared network or, flagged as management, on "management", and no two networks share a prefix, no two hosts a VMID offset and no two NICs anywhere a MAC offset |
| Render.TopoExactly | scripts/render-topology.py:659-776 | The output has the run's ID, mode and outer tag, each network's prefix and inner VLAN, and each host's name, size request, number of NICs and VMID |
| Render.NicExactly | scripts/render-topology.py:686-735 | Every rendered NIC keeps its name and network, has the MAC of its offset, and is set to the management bridge if flagged as management and otherwise to the bridge of its own declared network: under QinQ the prefix and the six-digit run suffix, in bridge mode the test bridge with 3000, the run ID modulo 500 and the network's offset added up as tag |
| Render.SameBridgeExactly | scripts/render-topology.py:686-735 | Two dataplane NICs of a QinQ run are set to the same bridge if and only if they are declared on the same network |
| Render.EverythingDistinct | scripts/render-topology.py:705-747 | In the renderer's output no two NICs share a MAC on any hosts, no two hosts share a VMID or VM name, no two networks share a VNet, and all VNets pass the destroy guard |
| Pipeline.RenderRun | scripts/render-topology.py:640-800 | The whole of rendering yields either an output with everything the other parts assume (distinct names, checked and lowered segments, resolved control plane, accepted faults, no all-zero MAC), or a reason why its checks do not accept the input |
| Pipeline.SoundIsAcceptable | scripts/render-topology.py:640-800 | The two exclude each other: a soundly rendered input has no such reason, so rendering dies on exactly the unacceptable inputs and nothing dies after acceptance |
| Pipeline.SoundLookups | scripts/render-topology.py:789-795 | On a sound output all faults survive reference resolution, and the lookups of the fault executor and the port derivations succeed |
| Pipeline.SoundPrepared | scripts/render-topology.py:640-800 | A soundly rendered topology meets the assumptions under which deployed faults are undone, and its faults are accepted there |
| Cluster.Proxmox.Create | scripts/pve-create-run.sh:129-205 | The nested loops leave the cluster that running the program command by command leaves, and get through exactly when it does |
| Restart.RestartOnce | scripts/pve-create-run.sh:105-205 | For any coherent program, a fresh complete run after an interruption anywhere, even after a failure, gives the same cluster and verdict as no interruption |
| Restart.ProgramCoherent | scripts/pve-create-run.sh:177-205 | No two commands of a create undo each other, because VMIDs of a rendered topology are distinct |
| Restart.CreateConverges | scripts/pve-create-run.sh:177-205 | Any number of interrupted creates followed by a complete one equals one uninterrupted create, for every rendered topology and initial cluster |
| Restart.CreateStopsAtConflict | scripts/pve-create-run.sh:129-140 | Create passes its clone loop if and only if no VMID is held under another name; otherwise zones, VNets and all existing VMs are untouched |
| Restart.CreateSucceedsExactly | scripts/pve-create-run.sh:129-205 | With any set of commands failing for outside reasons, create gets through if and only if none of its own fails and no VMID is held under another name; and a later create makes up for whatever failed |
| Restart.CreateAchieves | scripts/pve-create-run.sh:97-205 | After a successful create from any cluster every host's own VM runs, with exactly the declared value on every declared NIC; the zone and all VNets exist, those that existed as they were and new ones with this run's zone and their own tag |
| Restart.StartsLast | scripts/pve-create-run.sh:129-205 | Wherever create is cut short, no VM runs that did not run before unless the SDN objects are there and every host's VM has its name, its declared NICs, serial port and size; and no VM that was there before is changed unless the SDN objects are |
| Restart.CreateLeaves | scripts/pve-create-run.sh:88-190 | Create renames no VM and leaves NICs beyond the declared ones, and the size of hosts that are not to be sized, as on the VM that was there or on the template |
| Restart.CreateTouchesOnly | scripts/pve-create-run.sh:97-205 | Successful or not, create leaves every VM of another VMID and every existing zone and VNet as they were |
| Restart.SharedNamesCreateHarmless | scripts/pve-create-run.sh:97-139 | A different run with the same SDN names and a common offset dies in create without reusing or changing anything of the live run |
| Destroy.ScheduleInv | scripts/pve-destroy-run.sh:115-143 | In every interleaving at most the configured number of workers run, and no schedule has more than six moves per job |
| Destroy.NoDeadlock | scripts/pve-destroy-run.sh:115-149 | Until every worker has exited some move is possible |
| Destroy.FinishedExactly | scripts/pve-destroy-run.sh:80-98 | However the workers interleave and whichever queries, stops and deletions fail, exactly the matching VMs that were seen and could be deleted are gone, each job whose target's name could be read has one status file with its verdict, and the failure flag is set exactly when a seen VMID carries another name or its name cannot be read |
| Destroy.JobExactly | scripts/pve-destroy-run.sh:80-98 | For each job of a finished run, what its status file says and what becomes of its VM, by what the worker could see, read, stop and delete: one that cannot be deleted is still as it was, and running only if it ran and could not be stopped |
| Destroy.OutcomeIsDifference | scripts/pve-destroy-run.sh:80-98 | Exactly the removed VMIDs are gone, and when deletions succeed the final cluster is a plain map difference |
| Destroy.OutcomeUnique | scripts/pve-destroy-run.sh:80-98 | All interleavings end in the same cluster, whatever fails |
| Destroy.JobsOfDistinct | scripts/pve-destroy-run.sh:56-65 | Accepted host names never collide as status file names |
| Destroy.UnsafeIsConflict | scripts/pve-destroy-run.sh:100-113 | When queries are answered, destroy's verification refuses exactly the clusters that stop create in its clone loop, and what is verified succeeds |
| Destroy.RunWorkers | scripts/pve-destroy-run.sh:115-149 | Any schedule of the pool ends, with every worker exited and the invariant holding |
| Destroy.DestroyRun | scripts/pve-destroy-run.sh:100-165 | Whichever queries and deletions fail: a refusing verification changes nothing; otherwise the VMs end as FinishedExactly says, and exactly this run's VNets and zone go, except those whose deletion fails, if and only if every worker succeeded. With all queries answered it succeeds if and only if no target VMID is foreign, and otherwise changes nothing at all |
| Destroy.RefusesExactly | scripts/pve-destroy-run.sh:100-113 | Destroy refuses, with nothing changed at all, if and only if verification sees a VMID of the run in use whose name differs or cannot be read; otherwise every job is dealt with |
| Destroy.LeavesNothingExactly | scripts/pve-destroy-run.sh:80-149 | A destroy that reports success leaves something of the run behind if and only if one of its VMs was not seen or could not be deleted, or a VNet or the zone that was there could not |
| Destroy.UnseenLeftBehind | scripts/pve-destroy-run.sh:82-86 | A concrete cluster where a status query fails: destroy succeeds, deletes the zone and leaves the VM running |
| Destroy.UndeletedLeftBehind | scripts/pve-destroy-run.sh:95-97 | A concrete cluster where a deletion fails: destroy succeeds and leaves the VM |
| Destroy.FailsHalfway | scripts/pve-destroy-run.sh:104-110 | A concrete cluster where verification misses a foreign VM: destroy fails after deleting another one |
| Runs.CreateDestroyRoundTrip | scripts/pve-create-run.sh:129-205 | Creating a run on a cluster clear of it and destroying it again gives that very cluster back, for any schedule of the workers |
| Runs.SharedSdnExactly | scripts/pve-destroy-run.sh:138-150 | Destroying a run takes the zone, and the VNet of any prefix, of another run with the same SDN names exactly when it is a QinQ run that has the prefix, destroy succeeds and the deletion does not fail |
| Runs.SharedZoneSurvives | scripts/pve-destroy-run.sh:100-150 | With queries answered the other run's zone survives if and only if this is no QinQ run, the zone cannot be deleted, or some VMID of this run is held under another name |
| Runs.SharedZoneAlone | scripts/pve-destroy-run.sh:100-150 | If the other run's VMs are the only ones, its zone survives if and only if the topologies share the offset of a live host |
| Runs.SharedNamesDestroy | scripts/pve-destroy-run.sh:80-113 | Whatever fails, the other run's VMs survive; and if one is in this run's place and its worker sees it, destroy fails and no SDN object goes |
| Runs.SharedNamesCreate | scripts/pve-create-run.sh:97-140 | Creating a run next to one with the same SDN names gets through if and only if no VMID of it is held under another name, and takes over the other's zone and common VNets as they are |
| Runs.SharedZoneLost | scripts/render-topology.py:659-660 | Two concrete runs, a million apart: creating one takes over the other's zone, destroying it deletes that zone while the other's VM lives |
| Runs.ThirdPartyProtects | scripts/pve-destroy-run.sh:100-113 | A concrete cluster where the zone survives although the runs share no offset of a live host |
| RunState.StateFile.InitCommand | scripts/run-state.py:102-126 | The loops over hosts write the record the specification function gives, or nothing on a missing topology |
| RunState.StateFile.SyncCommand | scripts/run-state.py:163-169 | Takes over the address of every declared host and leaves the other records alone |
| RunState.StateFile.InvokeAll | scripts/run-state.py:102-211 | Any sequence of invocations of any of the commands, failing ones included, leaves the record the specification function gives, which CommandExactly and LastWord describe |
| RunHistory.CommandExactly | scripts/run-state.py:129-169 | A carried-out command changes what it names and nothing else: a phase command appends exactly its name, status, message and time, zone and VNet commands set that object's status, a VM command that VM's status and given address, sync the addresses of the declared hosts; any other command changes nothing |
| RunHistory.InitExactly | scripts/run-state.py:102-126 | Init for another run, or without a record, starts one with everything as the topology declares it and its phase as only history |
| RunHistory.FirstCommandExactly | scripts/run-state.py:77-99 | Without a record a command starts from a new one with no history, if and only if there is a topology file whose run it names or which it does not question |
| RunHistory.LastWord | scripts/run-state.py:102-169 | After any sequence of commands, failing and foreign ones included, the status of a VNet or of the zone is that of the last carried-out command for that very object since the last init, and the status and address of a VM those its last such commands gave, kept over inits that still declare it |
| RunState.PhaseAlwaysLast | scripts/run-state.py:77-169 | Over every command sequence the phase is the last history entry's name, or "initialized" with no history |
| RunState.HistoryAppendOnly | scripts/run-state.py:77-169 | While the run stays the same, history only grows at the end and the creation time is constant |
| RunState.OneRunGetsThrough | scripts/run-state.py:77-99 | A command carrying a run ID gets through if and only if it is the record's own |
| RunState.MismatchChangesNothing | scripts/run-state.py:77-82 | Dropping all commands that carry another run ID from any sequence that stays in the run leaves the same record |
| RunState.ReinitKeeps | scripts/run-state.py:102-126 | Re-init of the same run keeps status and address for exactly the still declared hosts, resets every SDN status, takes all else from the topology and adds one history entry |
| ManagementIps.WaitSshAgrees | scripts/pve-wait-ssh.sh:129-141 | All commands of wait-ssh get through, every host it found is marked ssh-ready, every declared host then has one address in both files, and the files agree altogether if and only if none was recorded for an undeclared host |
| ManagementIps.WaitSshAddresses | scripts/pve-wait-ssh.sh:121-129 | After wait-ssh found one address per host, every host has one if and only if none found is empty |
| ManagementIps.RenderAddresses | scripts/render-topology.py:707-745 | After rendering exactly the hosts with an address in a previous topology of the same run have one, the same, and all else is as declared |
| ManagementIps.RerenderReinitAgrees | scripts/render-topology.py:707-745 | Re-render plus re-init preserves agreement, for the same or a new run and any declared hosts |
| ManagementIps.UpdateIpsExactly | scripts/render-topology.py:936-946 | update-ips changes addresses only: each host has the one its last argument gives, or keeps its own |
| ManagementIps.UpdateAloneBreaks | scripts/render-topology.py:936-946 | update-ips alone keeps agreement if and only if the last argument for every host repeats the address it has |
| ManagementIps.TopologyFile.UpdateIpsCommand | scripts/render-topology.py:936-946 | Writes all addresses or, on any bad argument, none |
| Ports.Bind | ansible/roles/pulsaros-vxlan/tasks/main.yml:85-152 | Succeeds exactly when the host has targets, none is a management NIC and all have a PCI function, and then maps each used MAC once |
| Ports.UsedExactly | ansible/roles/pulsaros-vxlan/tasks/main.yml:85-104 | The MACs a host uses are, in lower case, exactly those of its VTEPs' underlay and local NICs |
| Ports.RenderConfig | ansible/roles/pulsaros-vxlan/tasks/main.yml:201-288 | Dies exactly on an unmapped MAC or when no segment has an access port; rendered port names are unique and cover exactly the PCI functions of the used MACs |
| Ports.DerivePorts | ansible/roles/pulsaros-vxlan/tasks/main.yml:69-288 | On every checked topology binding succeeds exactly with targets that are no management NICs and have PCI functions, and the configured PCI functions are then exactly the bound ones, under unique names, although one pass deduplicates by MAC and the other by name |
| FaultSetup.PeersAgree | tests/test_fault_injection.py:161-165 | The rendered DPDK peer list, the flood entries on the Linux device and the peers whose entries the fault removes are the same addresses with the same multiplicity |
| FaultTargets.FloodExactly | ansible/roles/vxlan-test/tasks/main.yml:199-216 | A fresh VXLAN device has one all-zero entry for each other VTEP of the segment, at its address, under static control, and none under EVPN |
| FaultSetup.PeeringMutual | ansible/roles/vxlan-test/tasks/main.yml:133-216 | Of two VTEPs of a segment on different hosts each peers with the other |
| FaultSetup.Testbed.ConfigureClients | ansible/roles/vxlan-test/tasks/main.yml:104-130 | The role's loops over segments and members leave the specified link state or die |
| FaultSetup.Testbed.ConfigureVtepsOn | ansible/roles/vxlan-test/tasks/main.yml:132-217 | The role's loops over segments, peers and local NICs, in each of its three modes, leave the specified state or die |
| FaultSetup.Testbed.RunPlays | ansible/site.yml:41-64 | The plays in order, the role on each host of any sequence and then on the vteps group the DPDK role or, under EVPN, FRR, leave the specified state or die |
| Deployment.DeployGetsThrough | ansible/site.yml:41-64 | The plays get through if and only if every host reports the interfaces the role configures on it, trunk members have a VLAN, and under DPDK every host of the group binds |
| Deployment.BindExactly | ansible/roles/pulsaros-vxlan/tasks/main.yml:155-170 | Binding removes exactly the interfaces of the used MACs, with the VLAN interfaces on them, on the hosts of the group |
| FaultState.InjectionInPlace | tests/test_fault_injection.py:157-331 | Every injection whose commands take effect has put its fault in place on the device it names and changed nothing else |
| FaultTargets.ActionExactly | tests/test_fault_injection.py:43-331 | For every fault type, the executor finds an action if and only if the declaration asks for one, and then that one: at the first VTEP of the segment with a local NIC on the network of the source's NIC, its VXLAN device with the addresses of all other VTEPs, its underlay interface or net index, or the neighbour address of the VTEP next to the destination; or at the source's own interface, the VLAN interface on a trunk, moving to the declared fault VLAN or else the next one |
| FaultTargets.AcceptedPair | tests/test_fault_injection.py:43-56 | An accepted fault has a segment and two ends, each the last member declared under its name |
| FaultState.InertExactly | tests/test_fault_injection.py:157-331 | For every fault type, injecting changes nothing exactly when the state already shows the fault |
| FaultState.UndoAloneExactly | tests/test_fault_injection.py:157-331 | For every fault type, the undo of an injection that had no effect changes nothing exactly under a condition on the state |
| FaultState.NicDownIsDown | tests/test_fault_injection.py:260-268 | The edited NIC setting says link_down=1, and differs from the old one if and only if that did not |
| FaultState.FdbUndoExactly | tests/test_fault_injection.py:157-185 | Deleting up to five copies and appending one is the identity if and only if each peer had one flood entry and the destination MAC none |
| FaultState.VlanUndoExactly | tests/test_fault_injection.py:215-241 | Moving the address to another VLAN interface and back is the identity if and only if that interface did not exist and the source's was up with just its address |
| FaultState.RestoreExactly | tests/test_fault_injection.py:157-331 | For every fault type, an FRR restart included, restore after inject is the identity exactly under a condition on the state before |
| FaultState.GeneratedMacNotZero | scripts/render-topology.py:49-55 | No generated MAC is the all-zero flood address |
| Deployment.ClientsReady | ansible/roles/vxlan-test/tasks/main.yml:111-130 | After the role's client part a VLAN interface exists if and only if it did before or a member uses it, and one in use is up with just the address of its last member |
| Addressing.ClientAddresses | ansible/roles/vxlan-test/tasks/main.yml:105-130 | After the role's client part any other interface has just the address of the last access member on it and is up, or keeps its addresses when there is none |
| Addressing.BridgedAddresses | ansible/roles/vxlan-test/tasks/main.yml:132-217 | An interface that a VTEP bridges and none runs over ends up without addresses |
| Addressing.DeployedAddresses | ansible/site.yml:41-64 | After the plays on Linux, on hosts in any order and any number of times, an interface that no VTEP bridges has exactly the address of its last access member, or what it had before, and the underlay addresses declared for VTEPs over it |
| Deployment.VtepsReady | ansible/roles/vxlan-test/tasks/main.yml:132-217 | After the role ran on a host its underlay is up and, for every segment, its device floods to exactly its peers (to none under EVPN) or is gone under DPDK |
| Deployment.VtepsKeep | ansible/roles/vxlan-test/tasks/main.yml:132-217 | Configuring another host, or other segments, leaves a ready VTEP ready |
| Deployment.DeployedReady | ansible/site.yml:41-64 | After the plays, on hosts in any order and any number of times, every VTEP of every segment of a checked topology is deployed: on Linux its underlay is up and its device floods to exactly its peers, under DPDK both are gone from the kernel; and under EVPN no neighbour of a VTEP is shut |
| Deployment.FindsTargetExactly | tests/test_fault_injection.py:88-93 | On a deployed testbed an accepted fault at the source's own interface finds its target if and only if the DPDK play has not bound that interface |
| Deployment.DeployedFaultUndone | tests/test_fault_injection.py:157-331 | On a testbed so deployed, every accepted fault of every type that finds its targets (ActionExactly says which) is injected, and restoring it gives back the state before it if and only if, for a VLAN fault, nothing has the fault's VLAN interface and the source's address is the one on its own |
| Deployment.FloodRestorable | ansible/roles/vxlan-test/tasks/main.yml:203-216 | The fault empties the installed flood list completely and the undo refills it exactly |
| FaultDriver.WaitReachable | tests/test_fault_injection.py:143-154 | Succeeds if and only if some ping before the deadline answers and none before it raises |
| FaultDriver.AssertImpact | tests/test_fault_injection.py:126-140 | A declared outage is seen on any return code but 0 and 255, no outage on 0 only |
| FaultDriver.AbortedExactly | tests/test_fault_injection.py:215-241 | An injector that raises for want of its target has changed nothing, except that a VLAN move has taken the addresses off the source's VLAN interface |
| FaultDriver.Driver.InjectAndRestore | tests/test_fault_injection.py:359-408 | On every path an injector that returned is followed by its undo, also when the ping raised or the impact assertion failed; restored is set if and only if the injector returned and the undo did not raise |
| FaultDriver.Driver.RunFault | tests/test_fault_injection.py:334-413 | Whatever fails or raises, records exactly one result when setup succeeds and none otherwise; recovered holds exactly when it restored, saw the declared impact and traffic came back; a raising injector is recorded as not restored; and once the undo took effect the testbed is unchanged if and only if the state was restorable |
| FaultDriver.RestoredExactly | tests/test_fault_injection.py:405-408 | What restored is worth: the state is the initial one exactly when the undo took effect on a restorable state or left that state in failing; when the undo fails without effect, exactly when the fault had changed nothing; when the injection silently had no effect, exactly when the undo alone is harmless |
| FaultDriver.DeployedRestoredExactly | tests/test_fault_injection.py:405-408 | The first of these for accepted faults on a deployed testbed, in terms of declarations |
| FaultDriver.RunSession | tests/test_fault_injection.py:28-40 | A whole session of fault tests adds one result for each whose setup succeeds, in order, whatever happens in the others, and ends in the state EndsAll gives |
| FaultDriver.SessionKeeps | tests/test_fault_injection.py:28-40 | On a deployed testbed any number of undoable accepted faults, found or not, observed as declared or not, leaves the deployed state as long as no command fails unnoticed |
| FaultExamples.MtuExample | tests/test_fault_injection.py:188-212 | A concrete accepted fault on a concrete testbed deployed from a checked topology |
| FaultExamples.RestoredNotUndone | tests/test_fault_injection.py:405-408 | For every fault that changes something there are circumstances in which it is reported restored and recovered and is still in place |
| FaultExamples.RaisedStays | tests/test_fault_injection.py:359-408 | For every fault that changes something there are circumstances in which its injector raises after taking effect: recorded as not restored, and still in place |
| FaultExamples.SilentRemovalDuplicates | tests/test_fault_injection.py:168-185 | On every deployed Linux testbed under static control, a flood list removal that silently does nothing is reported restored and ends with a changed flood list |
| FaultExamples.SharedVlanNotUndone | tests/test_fault_injection.py:215-241 | A concrete accepted VLAN fault on a deployed testbed whose undo leaves another state: its VLAN interface carries a later member's address |
| FaultDriver.AcceptedIsRecorded | tests/test_fault_injection.py:338-344 | For an accepted fault, after wait-ssh found an address for every host, a result is recorded if and only if none of these is empty and the destination member's declared address parses |
| FaultExamples.UnparsedAddressAccepted | scripts/render-topology.py:293-294 | A concrete accepted fault on a deployed and addressed testbed that is recorded only if "unset" parses as an address |
| FaultExamples.UnaddressedNotRecorded | tests/conftest.py:50-56 | A concrete accepted fault on a deployed testbed that is never recorded, because a host has no management address |
| EnvFile.LineExactly | tests/conftest.py:28-33 | A printed line reads back as its entry if and only if the key has no "=", no leading "#" or white space and the value no trailing white space |
| EnvFile.RoundTrip | scripts/render-topology.py:844-864 | With distinct keys, loading the written file gives exactly the non-empty entries if and only if every one of them has a plain key and value without line breaks |
| EnvFile.LoadEnvFile | tests/conftest.py:24-34 | The reader's loop computes the dictionary the round trip is about |

## Left out

- SSH, subprocesses, `qm`, `pvesh`, `vtysh`, systemd and sysfs: replaced by changes of abstract state.
- YAML and JSON parsing, argument and environment parsing, and checks that a document part has the right type.
- Checks other than faults (captures, probes, pktgen, thresholds): single-branch range checks.
- Kernel, hugepages, traffic-tools and netstack roles, log collection, artifact reports: shell plumbing.
- BGP best-path selection, timers, originator and cluster-list checks, and the VXLAN dataplane itself.
- Waiting for a VNet bridge after the SDN apply, and the SDN apply: they change nothing the model records, but may abort.
- Status reporting of create and destroy into the run record, except for the destroy status files themselves; the record's `updated_at`.
- Filtering of checks and faults by dataplane, and the choice between linked and full clones.
- The destroy branches for runs without a rendered topology.
- The parallel address discovery of wait-ssh: its result, one address per host, is the input.
- Resolution of `@` references other than showing that accepted faults contain none; it is an arbitrary function here.
- DPDK target names and roles in the PCI map, the underlay port's address, a UIO driver that does not bind, and dataplane tuning values.
- Bridge membership, promiscuous mode and NetworkManager settings of configured links, VNI and local address of the VXLAN device; kernel side effects such as MTU clamping of VLAN interfaces or routes dropped with a link.
- The per-host VNI list of the resolved control plane.
- Restart.CreateConverges: interruption falls between commands, a failing command included; a half-done `qm` command is not modelled.
- Restart.CreateSucceedsExactly: a status query that fails for a VM that exists counts as the failure of the command that follows it, which Proxmox refuses.
- Restart.CreateStopsAtConflict: other runs do not act on the cluster during the create.
- Destroy.FinishedExactly: no one else acts on the targeted VMIDs while the workers run.
- FrrConfig.ConfiguredNetwork: addresses are texts; two spellings of one address, or a text that is no address at all (only non-emptiness is checked), count as distinct addresses, which no session could use.
- Deployment.ShutdownFault: speaks of routes learned, on VTEPs with distinct addresses (ConfiguredNetwork says why); that pings follow the routes is not modelled.
- FrrConfig.ShutdownImpact: assumes distinct VTEP addresses; ConfiguredNetwork and ShutdownNetwork say that nothing less will do.
- Addressing.DeployedAddresses: on Linux; under DPDK the VTEPs' interfaces leave the kernel, which BindExactly describes.
- Deployment.DeployedFaultUndone: assumes that no MAC is all zeros (GeneratedMacNotZero) and that the inventory has every host, VTEP hosts in its vteps group; the NIC setting a DPDK underlay fault edits may be missing on Proxmox, and the injector then raises.
- FaultDriver.Driver.RunFault: writing the result file itself is assumed to succeed.
- Destroy.DestroyRun: writing the temporary status files is assumed to succeed.
