/** Cluster formation: the cluster's start(), as the trace of calls it makes
    and the outcome it reaches, plus the read-only port accessors.

    Everything outside the cluster is a parameter: `fails` says which steps
    throw, and `idOf` gives the node identifier a server on a given port
    reports. The pauses between phases are not modelled. */
module Formation {
  import opened Commands
  import opened Slots
  import opened Lifecycle

  /** The cluster as constructed: its server handles and the ports of its
      masters and of its replicas ("slaves"), in the order given. */
  datatype Cluster = Cluster(servers: seq<Node>, masters: seq<int>, slaves: seq<int>)

  /** How start() ends. The two formation errors name the failing port. */
  datatype Outcome =
    | Formed
    | ServerStartFailed(server: nat)  // a server's own start() threw; it propagates as is
    | NoMeetTarget                    // there is no first master: reading it throws
    | MasterFailed(port: int)
    | SlaveFailed(port: int)

  datatype StartResult = StartResult(trace: seq<Command>, outcome: Outcome, servers: seq<Node>)

  // ---------------------------------------------------------------------
  // Port accessors

  /** serverPorts(): the master ports followed by the replica ports. */
  function ServerPorts(c: Cluster): (r: seq<int>)
    ensures |r| == |c.masters| + |c.slaves|
    ensures r[..|c.masters|] == c.masters && r[|c.masters|..] == c.slaves
  {
    c.masters + c.slaves
  }

  /** ports(): a copy of serverPorts(). */
  function Ports(c: Cluster): (r: seq<int>)
    ensures |r| == |c.masters| + |c.slaves|
    ensures forall k :: 0 <= k < |r| ==>
              r[k] == if k < |c.masters| then c.masters[k] else c.slaves[k - |c.masters|]
  {
    ServerPorts(c)
  }

  // ---------------------------------------------------------------------
  // One client

  /** One pipelined slot addition per slot, in order. */
  function AddSlots(port: int, slots: seq<nat>): (r: seq<Command>)
    ensures |r| == |slots|
    ensures forall k :: 0 <= k < |r| ==> r[k] == AddSlot(port, slots[k])
    decreases |slots|
  {
    if slots == [] then [] else [AddSlot(port, slots[0])] + AddSlots(port, slots[1..])
  }

  /** Opens a client on `port`, issues `body` on it until a command throws,
      and closes the client again unless opening it was what threw. */
  function Session(port: int, body: seq<Command>, fails: Oracle): Run
  {
    if fails(Open(port)) then Run([Open(port)], true)
    else
      var b := Issue(body, fails);
      Run([Open(port)] + b.issued + [Close(port)], b.failed)
  }

  // ---------------------------------------------------------------------
  // Master phase

  /** The commands sent to master `i` on its client: a meet with the first
      master unless the INDEX `i` equals the first master's PORT number (the
      comparison the cluster makes), one addition per slot the master is
      given, the barrier, and the read of its node identifier. The cluster
      scans the slots from 0; the scan starts at `i` here, which gives the
      same slots (Slots.SlotScanFromZero). */
  function MasterBody(masters: seq<int>, i: nat): seq<Command>
    requires i < |masters|
  {
    var port := masters[i];
    var target := masters[0];
    (if i != target then [Meet(port, target)] else [])
      + AddSlots(port, SlotRange(i, |masters|, i))
      + [Sync(port), GetId(port)]
  }

  /** The session of master `i`. */
  function MasterSession(masters: seq<int>, i: nat, fails: Oracle): Run
    requires i < |masters|
  {
    Session(masters[i], MasterBody(masters, i), fails)
  }

  /** What master `k` would do, for every k: the sessions do not depend on
      each other, only on which steps throw. */
  function MasterSessions(masters: seq<int>, fails: Oracle): seq<Run>
  {
    seq(|masters|, k requires 0 <= k < |masters| => MasterSession(masters, k, fails))
  }

  /** The trace of the masters from position `i` on, the identifiers read
      back (in master order), and the position of the master whose setup
      threw, if one did. `sessions[k]` is what master k does. */
  datatype MasterPhase = MasterPhase(trace: seq<Command>, ids: seq<NodeId>, failedAt: Option<nat>)

  /** The master loop: the sessions run in order, each successful one adds
      the identifier of its server, and the first failure ends the loop. */
  function MasterLoop(masters: seq<int>, idOf: int -> NodeId, sessions: seq<Run>, i: nat): (r: MasterPhase)
    requires |sessions| == |masters| && i <= |masters|
    ensures r.failedAt.None? ==>
              && (forall k :: i <= k < |masters| ==> !sessions[k].failed)
              && |r.ids| == |masters| - i
              && (forall k :: i <= k < |masters| ==> r.ids[k - i] == idOf(masters[k]))
    ensures r.failedAt.Some? ==>
              && i <= r.failedAt.value < |masters|
              && sessions[r.failedAt.value].failed
              && (forall k :: i <= k < r.failedAt.value ==> !sessions[k].failed)
    decreases |masters| - i
  {
    if i == |masters| then MasterPhase([], [], None)
    else if sessions[i].failed then MasterPhase(sessions[i].issued, [], Some(i))
    else
      var rest := MasterLoop(masters, idOf, sessions, i + 1);
      MasterPhase(sessions[i].issued + rest.trace, [idOf(masters[i])] + rest.ids, rest.failedAt)
  }

  // ---------------------------------------------------------------------
  // Replica phase

  /** The identifier replica `i` is to follow: entry `i / perShard` of the
      identifier list. None where the lookup throws: a division by zero
      when there are fewer replicas than masters, or an index past the end
      of the list. */
  function Lookup(ids: seq<NodeId>, perShard: nat, i: nat): Option<NodeId>
  {
    if perShard == 0 || i / perShard >= |ids| then None else Some(ids[i / perShard])
  }

  /** Replicas per master: the integer quotient, 0 when there are fewer
      replicas than masters. */
  function PerShard(replicas: nat, masters: nat): nat
    requires masters > 0
  {
    replicas / masters
  }

  /** The commands sent to a replica on its client: a meet with the first
      master, then, if the lookup succeeded, the replicate command. */
  function SlaveBody(port: int, target: int, id: Option<NodeId>): seq<Command>
  {
    [Meet(port, target)] + if id.Some? then [Replicate(port, id.value)] else []
  }

  /** The session of one replica. The lookup is evaluated after the meet, so
      a failed lookup fails the session with the meet already issued. */
  function SlaveSession(port: int, target: int, id: Option<NodeId>, fails: Oracle): Run
  {
    var s := Session(port, SlaveBody(port, target, id), fails);
    Run(s.issued, s.failed || id.None?)
  }

  /** What replica `k` would do, for every k. */
  function SlaveSessions(slaves: seq<int>, target: int, ids: seq<NodeId>, perShard: nat, fails: Oracle): seq<Run>
  {
    seq(|slaves|, k requires 0 <= k < |slaves| => SlaveSession(slaves[k], target, Lookup(ids, perShard, k), fails))
  }

  /** The commands issued by running sessions in order from position `i`,
      and the position of the first session that failed, if one did. */
  datatype Progress = Progress(trace: seq<Command>, failedAt: Option<nat>)

  /** The replica loop: the sessions run in order and the first failure
      ends the loop. */
  function RunInOrder(sessions: seq<Run>, i: nat): (r: Progress)
    requires i <= |sessions|
    ensures r.failedAt.None? ==> forall k :: i <= k < |sessions| ==> !sessions[k].failed
    ensures r.failedAt.Some? ==>
              && i <= r.failedAt.value < |sessions|
              && sessions[r.failedAt.value].failed
              && (forall k :: i <= k < r.failedAt.value ==> !sessions[k].failed)
    decreases |sessions| - i
  {
    if i == |sessions| then Progress([], None)
    else if sessions[i].failed then Progress(sessions[i].issued, Some(i))
    else
      var rest := RunInOrder(sessions, i + 1);
      Progress(sessions[i].issued + rest.trace, rest.failedAt)
  }

  // ---------------------------------------------------------------------
  // start()

  /** The cluster's start(): start every server; then set up every master
      (meet, slots, identifier); then attach every replica to the master at
      position i / (replicas / masters). A master or replica failure stops
      every server and then raises an error naming that port. */
  function Start(c: Cluster, idOf: int -> NodeId, fails: Oracle): (r: StartResult)
    ensures |r.servers| == |c.servers|
    ensures r.outcome.Formed? ==> |c.masters| > 0 && AllActive(r.servers)
    ensures r.outcome.MasterFailed? || r.outcome.SlaveFailed? ==>
              && (forall j :: 0 <= j < |r.servers| ==> !r.servers[j].active)
              && |r.trace| > 0 && r.trace[|r.trace| - 1] == StopAll
    ensures r.outcome.MasterFailed? ==> r.outcome.port in c.masters
    ensures r.outcome.SlaveFailed? ==> r.outcome.port in c.slaves
    ensures r.outcome.NoMeetTarget? ==> |c.masters| == 0 && AllActive(r.servers) && StopAll !in r.trace
    ensures r.outcome.ServerStartFailed? ==>
              && r.outcome.server < |c.servers|
              && fails(StartServer(r.outcome.server))
              && StopAll !in r.trace
              && (forall j :: 0 <= j < r.outcome.server ==> r.servers[j].active)
              && (forall j :: r.outcome.server <= j < |c.servers| ==> r.servers[j] == c.servers[j])
  {
    var boot := Boot(c.servers, fails, 0);
    if boot.failedAt.Some? then
      StartResult(boot.trace, ServerStartFailed(boot.failedAt.value), boot.servers)
    else if |c.masters| == 0 then
      StartResult(boot.trace, NoMeetTarget, boot.servers)
    else
      var target := c.masters[0];
      var mp := MasterLoop(c.masters, idOf, MasterSessions(c.masters, fails), 0);
      if mp.failedAt.Some? then
        StartResult(boot.trace + mp.trace + [StopAll], MasterFailed(c.masters[mp.failedAt.value]), Teardown(boot.servers))
      else
        var sp := RunInOrder(SlaveSessions(c.slaves, target, mp.ids, PerShard(|c.slaves|, |c.masters|), fails), 0);
        if sp.failedAt.Some? then
          StartResult(boot.trace + mp.trace + sp.trace + [StopAll], SlaveFailed(c.slaves[sp.failedAt.value]), Teardown(boot.servers))
        else
          StartResult(boot.trace + mp.trace + sp.trace, Formed, boot.servers)
  }
}
