# Embedded Redis cluster formation, modelled in Dafny

This project models the two pieces of logic in embedded-redis-cluster that are
not process, socket or network plumbing:

- **Cluster formation** (`RedisCluster.start()`). It starts every server, then
  sets up every master: it meets the first master, adds the master's share of
  the 16384 hash slots, and reads back its node identifier. Then it attaches
  every replica ("slave") to the master at position `i / (replicas / masters)`.
  A failure while setting up a master or a replica stops every server and
  raises an error naming that port. The model is a pure function `Formation.Start`.
  It takes the topology, a failure oracle `fails` (which steps throw) and an
  identifier function `idOf` (what a server on a port reports as its node id).
  It returns the ordered trace of calls that `start()` makes, the outcome, and
  the servers' state afterwards. The cluster's `isActive()`, `stop()`, `ports()`
  and `serverPorts()` are modelled alongside it.
- **The ephemeral port clamp** (`EphemeralPortProvider.port(int)`). This loop
  lowers a port by 100 until it is below 55535. It is modelled as the loop as
  written, `PortProvider.Port`, and as a recursive reference definition,
  `PortProvider.Clamp`. The two are proved equal.

Modules follow the program's structure:

| file | module | content |
|---|---|---|
| `port_provider.dfy` | `PortProvider` | the port clamp |
| `slots.dfy` | `Slots` | the slot space and the round-robin share of master `i` |
| `commands.dfy` | `Commands` | the trace vocabulary, issuing commands until one throws, client lifetime, counting |
| `lifecycle.dfy` | `Lifecycle` | the servers: `isActive()`, `stop()`, the start loop |
| `formation.dfy` | `Formation` | the topology, the per-node sessions, both loops, `start()`, the port accessors |
| `formation_proofs.dfy` | `FormationProofs` | what `start()` guarantees |

Each client the cluster opens is a *session*. The session is the Open, the
commands sent on the client until one throws, and the Close from the `finally`
block. There is no Close when opening the client was what threw, because the
client variable is then still null.

The meet guard is modelled as the code writes it. Master `i` meets the first
master unless the loop index `i` equals the first master's *port number*.
`FormationProofs.MasterMeetRule` states this rule and what it implies.

The code builds master `i`'s slots by scanning every slot from 0 and keeping
those with remainder `i`. The model starts the same scan at `i`, which makes
the proofs cheaper. `Slots.SlotScanFromZero` proves that both scans give the
same list.

Some functions only compute a command list or a lookup, and lemmas state
what they produce. `FormationProofs.SessionScoped`, `SessionHalts`,
`SessionCommands` and `SessionThrew` describe `Formation.Session`.
`MasterBodyFacts`, `MasterBodyLayout` and `MasterSlotOrder` describe
`Formation.MasterBody`. `SlaveBodyFacts`, `SlaveAlwaysMeets` and
`SlaveSessionCompleted` describe `Formation.SlaveBody` and
`Formation.SlaveSession`. `LookupFailsFrom` and `ReplicaBlocks` describe
`Formation.Lookup` and `Formation.PerShard`.

The model follows the code, including these behaviours:

- If a server's own `start()` throws, the exception propagates as it is, with
  no teardown. The servers started before it stay up (`ServerStartFailed`).
- With no masters, reading the first master throws after every server has
  started. There is no teardown (`NoMeetTarget`).
- `stop()` stops the servers in list order and ends at the first stop that
  throws. It is not best-effort, so the servers after that one are untouched.
- If the replica count is not a multiple of the master count, the remaining
  replicas are not silently dropped. The first replica past the last full block
  finds no master: the index is out of range, or the code divides by zero when
  there are fewer replicas than masters. Formation then fails and names that
  replica's port (`FormationProofs.CleanStartOutcome`).

## Model

| member | source | states |
|---|---|---|
| PortProvider.Clamp | src/main/java/redis/embedded/ports/EphemeralPortProvider.java:24-31 | reference definition of the clamp: the result is below 55535, is not above the input, differs from it by a multiple of 100, and is at least 55435 when the input was at or above 55535 |
| PortProvider.Port | src/main/java/redis/embedded/ports/EphemeralPortProvider.java:24-31 | the loop terminates and returns exactly the reference clamp: an input below 55535 unchanged, otherwise a value in [55435, 55535) that is a multiple of 100 below the input |
| PortProvider.ClampUniqueInWindow | src/main/java/redis/embedded/ports/EphemeralPortProvider.java:25-30 | for an input at or above 55535, a value is the clamp's result if and only if it lies in [55435, 55535) and is congruent to the input modulo 100 |
| PortProvider.ClampIdentityBelowCeiling | src/main/java/redis/embedded/ports/EphemeralPortProvider.java:26-27 | an input below 55535 is returned unchanged |
| PortProvider.ClampKeepsResidue | src/main/java/redis/embedded/ports/EphemeralPortProvider.java:29 | the result has the same remainder modulo 100 as the input: the last two digits of a port survive |
| PortProvider.ClampIdempotent | src/main/java/redis/embedded/ports/EphemeralPortProvider.java:24-31 | clamping a clamped port changes nothing |
| Slots.SlotRange | src/main/java/redis/embedded/RedisCluster.java:71-75 | the slots kept by the scan of master i of m: every slot below 16384 with remainder i and no other, in strictly ascending order |
| Slots.SlotRangesPartition | src/main/java/redis/embedded/RedisCluster.java:60-76 | a slot is in master i's share if and only if it is below 16384 and i is its remainder modulo m, so the shares are disjoint and cover the slot space |
| Slots.SlotScanFromZero | src/main/java/redis/embedded/RedisCluster.java:71-75 | the scan from slot 0 and the scan from slot i keep the same slots |
| Slots.SlotOwnedBy | src/main/java/redis/embedded/RedisCluster.java:71-75 | master i's slot list contains slot s exactly when s is below 16384 and has remainder i modulo m |
| Commands.Issue | src/main/java/redis/embedded/RedisCluster.java:61-85 | commands on a client are sent in order until one throws: what was sent is a prefix of the plan, ending at the command that threw; nothing threw if and only if the whole plan was sent |
| Lifecycle.IsActive | src/main/java/redis/embedded/RedisCluster.java:30-37 | the cluster is active if and only if every server is: true for no servers, false as soon as one server is inactive |
| Lifecycle.Stop | src/main/java/redis/embedded/RedisCluster.java:145-149 | stop is called on the servers in list order; if none throws, every server ends stopped; otherwise the calls end at the first stop that throws and the servers from it on are untouched |
| Lifecycle.StopIdempotent | src/main/java/redis/embedded/RedisCluster.java:145-149 | after a stop() that completed, with any oracle, a second stop() changes nothing and raises nothing, when stopping an already stopped server does not throw |
| Lifecycle.Teardown | src/main/java/redis/embedded/RedisCluster.java:93-95 | after the teardown of a failed formation, no server is active |
| Lifecycle.Boot | src/main/java/redis/embedded/RedisCluster.java:41-43 | the servers are started in list order; the first start that throws ends the loop, with the servers before it active and the rest untouched |
| Formation.ServerPorts | src/main/java/redis/embedded/RedisCluster.java:158-163 | the master ports followed by the replica ports |
| Formation.Ports | src/main/java/redis/embedded/RedisCluster.java:152-156 | entry k is master port k for k below the master count, and replica port k - m after that |
| Formation.MasterLoop | src/main/java/redis/embedded/RedisCluster.java:60-92 | a completed master loop read one identifier per master, in master order, entry k being the one reported by master k's port; otherwise it stopped at the first master whose setup failed |
| Formation.RunInOrder | src/main/java/redis/embedded/RedisCluster.java:111-131 | a completed replica loop saw no session fail; otherwise it stopped at the first replica whose session failed |
| Formation.Start | src/main/java/redis/embedded/RedisCluster.java:40-142 | a formed cluster has masters and every server active; a master or replica failure stops every server, ends the trace with the teardown and names a master or replica port; a failed server start names that server, leaves the earlier ones active and tears nothing down; no masters leaves every server active with no teardown |
| FormationProofs.SessionScoped | src/main/java/redis/embedded/RedisCluster.java:61-91 | every command of a session goes to its one open client, which is closed before the session ends |
| FormationProofs.SessionHalts | src/main/java/redis/embedded/RedisCluster.java:61-91 | in a session, only the Close follows the step that threw, and a session that did not fail had no step throw |
| FormationProofs.SessionCommands | src/main/java/redis/embedded/RedisCluster.java:61-91 | a session opens exactly one client, on its own port, and sends nothing but planned commands |
| FormationProofs.SessionThrew | src/main/java/redis/embedded/RedisCluster.java:61-85 | a session that failed saw a step on its own port throw: the opening of its client or the last command it sent |
| FormationProofs.MasterBodyFacts | src/main/java/redis/embedded/RedisCluster.java:62-79 | master i's commands all go to its own client, its only meet is with the first master, it sends no replicate, and each slot it adds is below 16384 with remainder i |
| Formation.AddSlots | src/main/java/redis/embedded/RedisCluster.java:71-75 | one slot addition per listed slot, in list order, each on the master's own client |
| FormationProofs.SlotsAddedOfAddSlots | src/main/java/redis/embedded/RedisCluster.java:71-75 | reading the added slots back from the slot additions gives the listed slots, in order |
| FormationProofs.MasterMeetRule | src/main/java/redis/embedded/RedisCluster.java:64-66 | master i meets the first master if and only if the number i differs from the first master's port |
| FormationProofs.SlaveBodyFacts | src/main/java/redis/embedded/RedisCluster.java:114-119 | a replica's commands all go to its own client, its first command is the meet with the first master, it meets no other node, it adds no slot, and besides the meet it sends only the replicate command naming its master, when it found one |
| FormationProofs.SlaveAlwaysMeets | src/main/java/redis/embedded/RedisCluster.java:114-115 | a replica whose client opened first sends its meet with the first master, whatever happens after |
| FormationProofs.SlaveSessionCompleted | src/main/java/redis/embedded/RedisCluster.java:112-119 | a replica whose session completed found a master to follow, and its client saw exactly the Open, the meet with the first master, the replicate command naming that master's identifier, and the Close; that replicate is the only one it sent |
| FormationProofs.MasterBodyAdds | src/main/java/redis/embedded/RedisCluster.java:69-76 | master i's commands add each slot with remainder i exactly once, and no other slot |
| FormationProofs.MasterBodyLayout | src/main/java/redis/embedded/RedisCluster.java:62-79 | every command of master i before its last two is a slot addition, except a meet with the first master, which can only come first |
| FormationProofs.MasterSlotOrder | src/main/java/redis/embedded/RedisCluster.java:62-79 | master i adds exactly the slots below 16384 with remainder i, in ascending order; before its slot additions it sends at most the meet with the first master, and after them only the one barrier and then the identifier read |
| FormationProofs.MasterPhaseScoped | src/main/java/redis/embedded/RedisCluster.java:59-92 | the master loop keeps every client scoped, attempts nothing after a step that threw, and saw no failure if it completed |
| FormationProofs.MasterPhaseOpens | src/main/java/redis/embedded/RedisCluster.java:60-92 | the ports of the clients the master loop opened are, in order, those of masters 0 to f when it stopped at master f, and those of all masters when it completed |
| FormationProofs.MasterPhaseBlame | src/main/java/redis/embedded/RedisCluster.java:60-92 | a master loop that stopped at master f did so because a step on master f's port threw |
| FormationProofs.SlavePhaseScoped | src/main/java/redis/embedded/RedisCluster.java:111-131 | the same client and failure guarantees for the replica loop |
| FormationProofs.SlavePhaseOpens | src/main/java/redis/embedded/RedisCluster.java:112-131 | the ports of the clients the replica loop opened are, in order, those of replicas 0 to f when it stopped at replica f, and those of all replicas when it completed |
| FormationProofs.SlavePhaseBlame | src/main/java/redis/embedded/RedisCluster.java:112-124 | a replica loop that stopped at replica f did so because a step on replica f's port threw, or because the lookup of replica f's master failed |
| FormationProofs.MasterPhaseCommands | src/main/java/redis/embedded/RedisCluster.java:59-92 | the master loop sends no replicate, starts and stops no server, meets only the first master, and adds each slot only to the master whose position is the slot's remainder |
| FormationProofs.SlavePhaseCommands | src/main/java/redis/embedded/RedisCluster.java:111-131 | the replica loop adds no slot, starts and stops no server, and meets only the first master |
| FormationProofs.StartKeepsClientsScoped | src/main/java/redis/embedded/RedisCluster.java:40-142 | in start()'s whole trace, every client command goes to the one open client, each client is closed before the next is opened and before the teardown, none is left open, and only closes and the teardown follow a step that threw; a formed cluster saw no step throw |
| FormationProofs.StartMeetsAndSlots | src/main/java/redis/embedded/RedisCluster.java:50-76 | every meet in start()'s trace targets the first master, and every slot added is below 16384 and goes to the master at position slot mod master count |
| FormationProofs.MasterPhaseAdds | src/main/java/redis/embedded/RedisCluster.java:60-76 | a completed master loop added every slot below 16384 exactly once and nothing else |
| FormationProofs.StartAddsSlotOnce | src/main/java/redis/embedded/RedisCluster.java:60-76 | once the master loop has completed, start()'s trace adds a given slot once if it is below 16384 and never otherwise |
| FormationProofs.StartAssignsEverySlotOnce | src/main/java/redis/embedded/RedisCluster.java:60-76 | when the cluster formed or a replica failed, every slot was added to exactly one master: the masters' shares are disjoint and cover the slot space |
| FormationProofs.StartOpenedClients | src/main/java/redis/embedded/RedisCluster.java:40-142 | start() opens no client when a server does not start or there is no meet target, and opens, in order, the client of every master and then of every replica when the cluster forms |
| FormationProofs.MasterFailureStopsEarly | src/main/java/redis/embedded/RedisCluster.java:81-96 | a master failure names the port of some master f on which a step threw; no replicate was ever sent, and the clients opened were exactly those of masters 0 to f, in order, with none for later masters or any replica |
| FormationProofs.SlaveFailureStopsEarly | src/main/java/redis/embedded/RedisCluster.java:112-135 | a replica failure names the port of some replica f; a step on that port threw, or f lies past the last full block of replicas so that it had no master; the clients opened were exactly those of every master and then of replicas 0 to f, in order |
| FormationProofs.LookupFailsFrom | src/main/java/redis/embedded/RedisCluster.java:106-119 | with k = replicas / masters replicas per master, the lookup `masterIds.get(i / k)` for replica i finds no master to follow if and only if i is at least (replicas / masters) * masters, which covers every replica when there are fewer replicas than masters |
| FormationProofs.ReplicaBlocks | src/main/java/redis/embedded/RedisCluster.java:106-119 | with k * m replicas for m masters there are k replicas per master, and replica i follows master j if and only if i lies in the block [j * k, (j + 1) * k), in which case it follows master j's identifier |
| FormationProofs.CompletedReplicaPhase | src/main/java/redis/embedded/RedisCluster.java:112-131 | in a completed replica loop every replica i had master i / k to follow; the replicate commands sent are exactly one per replica, in replica order, the one for replica i naming master i / k's identifier, and no other |
| FormationProofs.CompletedReplicaBlocks | src/main/java/redis/embedded/RedisCluster.java:112-131 | in a completed replica loop the replicate commands sent are exactly one per replica, in order, and the one for every replica in master j's block names master j's identifier |
| FormationProofs.FormedAttachesReplicas | src/main/java/redis/embedded/RedisCluster.java:106-131 | a formed cluster has exactly k replicas per master, and each replica in master j's block [j * k, (j + 1) * k) was told to replicate the identifier master j reported |
| FormationProofs.FormedReplications | src/main/java/redis/embedded/RedisCluster.java:40-131 | in a formed cluster, the server starts and the master loop send no replicate command: every replicate command in start()'s trace comes from the replica loop |
| FormationProofs.FormedReplicatesExactly | src/main/java/redis/embedded/RedisCluster.java:40-131 | the replicate commands in a formed cluster's whole trace are exactly one per replica, in replica order, and the one for a replica in master j's block names the identifier master j reported; no other replicate command is sent |
| FormationProofs.CleanMasterPhase | src/main/java/redis/embedded/RedisCluster.java:60-92 | when no step throws, every master completes its setup |
| FormationProofs.CleanReplicaPhase | src/main/java/redis/embedded/RedisCluster.java:106-131 | when no step throws, the replica loop completes if and only if the replica count is a multiple of the master count, and otherwise it stops at the first replica past the last full block |
| FormationProofs.CleanStartOutcome | src/main/java/redis/embedded/RedisCluster.java:40-142 | when no step throws: no masters gives the no-meet-target failure; otherwise the cluster forms if and only if the replica count is a multiple of the master count, and else the error names the first replica past the last full block |

## Left out

- The pauses in `start()` (`Thread.sleep`, lines 104, 117 and 141) and the `InterruptedException` they can raise are not modelled. They only wait for the cluster's gossip to settle.
- The server-socket probe in `EphemeralPortProvider.next()` and its `IOException` path are not modelled, because they are operating-system socket I/O. The model takes the port the probe returns as its input.
- The Jedis client is not modelled: the wire protocol, pipelining and the raw `CLUSTER MYID` command. Each call is a trace event. Whether it throws is given by the oracle `fails`, and the identifier a server reports is given by `idOf`.
- The server processes are not modelled: their `start()`, `stop()` and `isActive()` are foreign calls. A server is only its active flag, and whether its start or stop throws is given by the oracle.
- Formation.Start: the teardown's `stop()` is assumed never to throw. In the code an exception there would replace the formation error.
- Formation.Start: a client's `close()` in the `finally` blocks is assumed never to throw.
- Formation.Start: whether a step throws depends only on the step itself (the oracle is a function of the command). Two identical steps in one run therefore both throw or both succeed. When a port is listed twice, for example as a master and as a replica, the model cannot express its second `Open` throwing after the first succeeded.
- Formation.Start: the outcome records only the failing port and phase. The exception message text and the copied stack trace are not modelled.
- `getServers()` and `builder()` are not modelled, because they only hand out the server list and construct clusters.
- Java `int` width is not modelled; ports and counters are unbounded integers. The port clamp only subtracts at or above 55535 and the slot counter stays below 16384, so no value in the modelled code can overflow.
