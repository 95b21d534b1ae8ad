/** The cluster's composite lifecycle over its server handles: liveness,
    stopping every server, and starting every server. A server handle is an
    external process; the model keeps only whether it reports itself active,
    and which of its start/stop calls throw is a parameter. */
module Lifecycle {
  import opened Commands

  /** One server handle as the cluster sees it. */
  datatype Node = Node(active: bool)

  /** The cluster is live when every server is. */
  predicate AllActive(servers: seq<Node>) {
    forall j :: 0 <= j < |servers| ==> servers[j].active
  }

  /** The cluster's isActive(): scans the servers in order and answers false
      at the first one that is not active. */
  method IsActive(servers: seq<Node>) returns (b: bool)
    ensures b <==> AllActive(servers)
    ensures |servers| == 0 ==> b
    ensures forall j :: 0 <= j < |servers| && !servers[j].active ==> !b
  {
    for j := 0 to |servers|
      invariant forall k :: 0 <= k < j ==> servers[k].active
    {
      if !servers[j].active {
        return false;
      }
    }
    return true;
  }

  /** The stop calls made, the servers afterwards, and the position of the
      stop that threw, if one did. */
  datatype StopResult = StopResult(calls: seq<nat>, servers: seq<Node>, failedAt: Option<nat>)

  /** The cluster's stop() from list position `from` on: each server is
      stopped in list order, and the first stop that throws ends the loop
      with its exception. `stopFails` says which positions throw. */
  function Stop(servers: seq<Node>, stopFails: nat -> bool, from: nat): (r: StopResult)
    requires from <= |servers|
    ensures |r.servers| == |servers|
    ensures forall n :: 0 <= n < |r.calls| ==> r.calls[n] == from + n
    ensures forall j :: 0 <= j < from ==> r.servers[j] == servers[j]
    ensures r.failedAt.None? ==>
              && |r.calls| == |servers| - from
              && (forall j :: from <= j < |servers| ==> !r.servers[j].active && !stopFails(j))
    ensures r.failedAt.Some? ==>
              && from <= r.failedAt.value < |servers|
              && stopFails(r.failedAt.value)
              && |r.calls| == r.failedAt.value - from + 1
              && (forall j :: from <= j < r.failedAt.value ==> !r.servers[j].active && !stopFails(j))
              && (forall j :: r.failedAt.value <= j < |servers| ==> r.servers[j] == servers[j])
    decreases |servers| - from
  {
    if from == |servers| then StopResult([], servers, None)
    else if stopFails(from) then StopResult([from], servers, Some(from))
    else
      var rest := Stop(servers[from := Node(false)], stopFails, from + 1);
      StopResult([from] + rest.calls, rest.servers, rest.failedAt)
  }

  /** Stopping a cluster whose stop() completed a second time changes
      nothing and raises nothing, provided that stopping an already stopped
      server does not throw (the server handle's own stop is idempotent). */
  lemma {:induction false} StopIdempotent(servers: seq<Node>, stopFails: nat -> bool, stopAgain: nat -> bool)
    requires Stop(servers, stopFails, 0).failedAt.None?
    requires forall j :: 0 <= j < |servers| && !Stop(servers, stopFails, 0).servers[j].active ==> !stopAgain(j)
    ensures var once := Stop(servers, stopFails, 0);
            var twice := Stop(once.servers, stopAgain, 0);
            twice.servers == once.servers && twice.failedAt.None?
  {
    var once := Stop(servers, stopFails, 0);
    var twice := Stop(once.servers, stopAgain, 0);
    forall j | 0 <= j < |servers|
      ensures twice.servers[j] == once.servers[j]
    {
      assert !twice.servers[j].active && !once.servers[j].active;
    }
  }

  /** The servers after the teardown of a failed formation: every stop is
      taken to succeed. */
  function Teardown(servers: seq<Node>): (r: seq<Node>)
    ensures |r| == |servers|
    ensures forall j :: 0 <= j < |r| ==> !r[j].active
  {
    Stop(servers, _ => false, 0).servers
  }

  /** The start calls made, the servers afterwards, and the position of the
      start that threw, if one did. */
  datatype BootResult = BootResult(trace: seq<Command>, servers: seq<Node>, failedAt: Option<nat>)

  /** The first loop of the cluster's start() from list position `from` on:
      each server is started in list order; the first start that throws ends
      the loop and its exception propagates with no teardown. */
  function Boot(servers: seq<Node>, fails: Oracle, from: nat): (r: BootResult)
    requires from <= |servers|
    ensures |r.servers| == |servers|
    ensures forall n :: 0 <= n < |r.trace| ==> r.trace[n] == StartServer(from + n)
    ensures forall j :: 0 <= j < from ==> r.servers[j] == servers[j]
    ensures r.failedAt.None? ==>
              && |r.trace| == |servers| - from
              && (forall j :: from <= j < |servers| ==> r.servers[j].active && !fails(StartServer(j)))
    ensures r.failedAt.Some? ==>
              && from <= r.failedAt.value < |servers|
              && fails(StartServer(r.failedAt.value))
              && |r.trace| == r.failedAt.value - from + 1
              && (forall j :: from <= j < r.failedAt.value ==> r.servers[j].active && !fails(StartServer(j)))
              && (forall j :: r.failedAt.value <= j < |servers| ==> r.servers[j] == servers[j])
    decreases |servers| - from
  {
    if from == |servers| then BootResult([], servers, None)
    else if fails(StartServer(from)) then BootResult([StartServer(from)], servers, Some(from))
    else
      var rest := Boot(servers[from := Node(true)], fails, from + 1);
      BootResult([StartServer(from)] + rest.trace, rest.servers, rest.failedAt)
  }
}
