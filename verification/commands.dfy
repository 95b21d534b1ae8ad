/** The vocabulary of a formation trace: every call the cluster makes on a
    server handle or on a cluster-protocol client, in the order it makes
    them, and the predicates the proofs state over such traces. */
module Commands {

  datatype Option<T> = None | Some(value: T)

  /** A node identifier as read back from a server. */
  type NodeId = string

  datatype Command =
    | StartServer(server: nat)            // start() of the server handle at this list position
    | Open(port: int)                     // connect a client to the server on this port
    | Meet(port: int, target: int)        // introduce the client's server to the server on `target`
    | AddSlot(port: int, slot: nat)       // pipelined: give `slot` to the client's server
    | Sync(port: int)                     // barrier for the pipelined slot additions
    | GetId(port: int)                    // read the server's own node identifier
    | Replicate(port: int, nodeId: NodeId) // make the client's server a replica of `nodeId`
    | Close(port: int)                    // release the client
    | StopAll                             // stop() of the whole cluster during teardown
  {
    /** A command sent over a client that is already open. */
    predicate OnClient() {
      Meet? || AddSlot? || Sync? || GetId? || Replicate?
    }

    /** A step that can throw: every one except releasing a client and the
        teardown, which are taken not to fail. */
    predicate Fallible() {
      !Close? && !StopAll?
    }
  }

  /** Which steps throw. It is consulted only on fallible steps. */
  type Oracle = Command -> bool

  /** The commands actually issued from a planned list, and whether the last
      one threw. */
  datatype Run = Run(issued: seq<Command>, failed: bool)

  /** Issues `cmds` in order; the first command that throws is the last one
      issued. */
  function Issue(cmds: seq<Command>, fails: Oracle): (r: Run)
    ensures r.issued <= cmds
    ensures !r.failed <==> r.issued == cmds && forall k :: 0 <= k < |cmds| ==> !fails(cmds[k])
    ensures r.failed ==> |r.issued| > 0 && fails(r.issued[|r.issued| - 1])
    ensures forall k :: 0 <= k < |r.issued| - 1 ==> !fails(r.issued[k])
    decreases |cmds|
  {
    if cmds == [] then Run([], false)
    else if fails(cmds[0]) then Run([cmds[0]], true)
    else
      var rest := Issue(cmds[1..], fails);
      Run([cmds[0]] + rest.issued, rest.failed)
  }

  // ---------------------------------------------------------------------
  // Client lifetime

  /** Whether `c` may be issued while `open` is the port of the open client
      (None: no client is open). Client commands and Close need the client
      of their own port; everything else needs no client open. */
  predicate Permitted(c: Command, open: Option<int>) {
    if c.Close? || c.OnClient() then open == Some(c.port) else open.None?
  }

  /** The open client after `c`: an Open that throws leaves none open. */
  function After(c: Command, fails: Oracle, open: Option<int>): Option<int> {
    if c.Open? then (if fails(c) then None else Some(c.port))
    else if c.Close? then None
    else open
  }

  /** Every client command goes to the one open client, a client is opened
      only when none is open, and none is open when the trace ends, when the
      servers are torn down, or when the next client is opened. */
  predicate Scoped(trace: seq<Command>, fails: Oracle, open: Option<int>)
    decreases |trace|
  {
    if trace == [] then open.None?
    else Permitted(trace[0], open) && Scoped(trace[1..], fails, After(trace[0], fails, open))
  }

  lemma {:induction false} ScopedAppend(a: seq<Command>, b: seq<Command>, fails: Oracle, open: Option<int>)
    requires Scoped(a, fails, open) && Scoped(b, fails, None)
    ensures Scoped(a + b, fails, open)
    decreases |a|
  {
    if a == [] {
      assert a + b == b;
    } else {
      assert (a + b)[1..] == a[1..] + b;
      ScopedAppend(a[1..], b, fails, After(a[0], fails, open));
    }
  }

  /** A trace that touches no client is scoped from "no client open". */
  lemma {:induction false} ScopedWithoutClients(trace: seq<Command>, fails: Oracle)
    requires forall k :: 0 <= k < |trace| ==> trace[k].StartServer? || trace[k].StopAll?
    ensures Scoped(trace, fails, None)
    decreases |trace|
  {
    if trace != [] {
      ScopedWithoutClients(trace[1..], fails);
    }
  }

  /** Commands on the client of `port`, followed by closing it, are scoped
      from that client being open. */
  lemma {:induction false} ScopedClientRun(cmds: seq<Command>, port: int, fails: Oracle)
    requires forall k :: 0 <= k < |cmds| ==> cmds[k].OnClient() && cmds[k].port == port
    ensures Scoped(cmds + [Close(port)], fails, Some(port))
    decreases |cmds|
  {
    if cmds == [] {
      assert cmds + [Close(port)] == [Close(port)];
      assert [Close(port)][1..] == [];
    } else {
      assert (cmds + [Close(port)])[1..] == cmds[1..] + [Close(port)];
      ScopedClientRun(cmds[1..], port, fails);
    }
  }

  // ---------------------------------------------------------------------
  // Failures

  /** No fallible step of the trace threw. */
  predicate NoFailure(trace: seq<Command>, fails: Oracle) {
    forall k :: 0 <= k < |trace| && trace[k].Fallible() ==> !fails(trace[k])
  }

  /** After a step that threw, only clients are released and servers torn
      down: nothing else is attempted. */
  predicate HaltsAtFailure(trace: seq<Command>, fails: Oracle) {
    forall k, l :: 0 <= k < l < |trace| && trace[k].Fallible() && fails(trace[k]) ==> !trace[l].Fallible()
  }

  lemma HaltsAfterClean(a: seq<Command>, b: seq<Command>, fails: Oracle)
    requires NoFailure(a, fails) && HaltsAtFailure(b, fails)
    ensures HaltsAtFailure(a + b, fails)
  {
    forall k, l | 0 <= k < l < |a + b| && (a + b)[k].Fallible() && fails((a + b)[k])
      ensures !(a + b)[l].Fallible()
    {
      assert (a + b)[k] == b[k - |a|] && (a + b)[l] == b[l - |a|];
    }
  }

  lemma HaltsThenCleanup(a: seq<Command>, b: seq<Command>, fails: Oracle)
    requires HaltsAtFailure(a, fails)
    requires forall l :: 0 <= l < |b| ==> !b[l].Fallible()
    ensures HaltsAtFailure(a + b, fails)
  {
    forall k, l | 0 <= k < l < |a + b| && (a + b)[k].Fallible() && fails((a + b)[k])
      ensures !(a + b)[l].Fallible()
    {
      assert k < |a| && (a + b)[k] == a[k];
      if l < |a| {
        assert (a + b)[l] == a[l];
      } else {
        assert (a + b)[l] == b[l - |a|];
      }
    }
  }

  lemma NoFailureAppend(a: seq<Command>, b: seq<Command>, fails: Oracle)
    requires NoFailure(a, fails) && NoFailure(b, fails)
    ensures NoFailure(a + b, fails)
  {
    forall k | 0 <= k < |a + b| && (a + b)[k].Fallible()
      ensures !fails((a + b)[k])
    {
      if k < |a| {
        assert (a + b)[k] == a[k];
      } else {
        assert (a + b)[k] == b[k - |a|];
      }
    }
  }

  /** Some step that threw went to the server on `port`: opening a client
      on it, or a command sent over that client. */
  predicate ThrewOn(trace: seq<Command>, fails: Oracle, port: int) {
    exists cmd :: cmd in trace && (cmd.Open? || cmd.OnClient()) && cmd.port == port && fails(cmd)
  }

  /** A step that threw in part of a trace threw in the whole trace. */
  lemma ThrewOnWithin(part: seq<Command>, whole: seq<Command>, fails: Oracle, port: int)
    requires ThrewOn(part, fails, port)
    requires forall cmd :: cmd in part ==> cmd in whole
    ensures ThrewOn(whole, fails, port)
  {
    var cmd :| cmd in part && (cmd.Open? || cmd.OnClient()) && cmd.port == port && fails(cmd);
    assert cmd in whole;
  }

  // ---------------------------------------------------------------------
  // Counting

  /** How many times the trace adds `slot` to some master. */
  function AddsOf(trace: seq<Command>, slot: nat): nat
    decreases |trace|
  {
    if trace == [] then 0
    else (if trace[0].AddSlot? && trace[0].slot == slot then 1 else 0) + AddsOf(trace[1..], slot)
  }

  lemma {:induction false} AddsOfAppend(a: seq<Command>, b: seq<Command>, slot: nat)
    ensures AddsOf(a + b, slot) == AddsOf(a, slot) + AddsOf(b, slot)
    decreases |a|
  {
    if a == [] {
      assert a + b == b;
    } else {
      assert (a + b)[1..] == a[1..] + b;
      AddsOfAppend(a[1..], b, slot);
    }
  }

  /** A trace with no slot additions adds no slot. */
  lemma {:induction false} AddsOfNone(trace: seq<Command>, slot: nat)
    requires forall k :: 0 <= k < |trace| ==> !trace[k].AddSlot?
    ensures AddsOf(trace, slot) == 0
    decreases |trace|
  {
    if trace != [] {
      AddsOfNone(trace[1..], slot);
    }
  }

  /** The ports of the clients the trace opens, in the order it opens them. */
  function OpenedPorts(trace: seq<Command>): seq<int>
    decreases |trace|
  {
    if trace == [] then []
    else (if trace[0].Open? then [trace[0].port] else []) + OpenedPorts(trace[1..])
  }

  lemma {:induction false} OpenedPortsAppend(a: seq<Command>, b: seq<Command>)
    ensures OpenedPorts(a + b) == OpenedPorts(a) + OpenedPorts(b)
    decreases |a|
  {
    if a == [] {
      assert a + b == b;
    } else {
      assert (a + b)[1..] == a[1..] + b;
      OpenedPortsAppend(a[1..], b);
      var head: seq<int> := if a[0].Open? then [a[0].port] else [];
      assert OpenedPorts(a + b) == head + OpenedPorts(a[1..] + b);
      assert head + (OpenedPorts(a[1..]) + OpenedPorts(b)) == (head + OpenedPorts(a[1..])) + OpenedPorts(b);
    }
  }

  /** A trace without an Open opens no client. */
  lemma {:induction false} OpenedPortsNone(trace: seq<Command>)
    requires forall k :: 0 <= k < |trace| ==> !trace[k].Open?
    ensures OpenedPorts(trace) == []
    decreases |trace|
  {
    if trace != [] {
      OpenedPortsNone(trace[1..]);
    }
  }

  /** The replicate commands of the trace, in the order they were sent. */
  function Replications(trace: seq<Command>): seq<Command>
    decreases |trace|
  {
    if trace == [] then []
    else (if trace[0].Replicate? then [trace[0]] else []) + Replications(trace[1..])
  }

  lemma {:induction false} ReplicationsAppend(a: seq<Command>, b: seq<Command>)
    ensures Replications(a + b) == Replications(a) + Replications(b)
    decreases |a|
  {
    if a == [] {
      assert a + b == b;
    } else {
      assert (a + b)[1..] == a[1..] + b;
      ReplicationsAppend(a[1..], b);
      var head: seq<Command> := if a[0].Replicate? then [a[0]] else [];
      assert Replications(a + b) == head + Replications(a[1..] + b);
      assert head + (Replications(a[1..]) + Replications(b)) == (head + Replications(a[1..])) + Replications(b);
    }
  }

  /** A trace without a replicate command has no replications. */
  lemma {:induction false} ReplicationsNone(trace: seq<Command>)
    requires forall c :: c in trace ==> !c.Replicate?
    ensures Replications(trace) == []
    decreases |trace|
  {
    if trace != [] {
      assert trace[0] in trace;
      assert forall c :: c in trace[1..] ==> c in trace;
      ReplicationsNone(trace[1..]);
    }
  }

  /** The slots the trace adds, in the order it adds them. */
  function SlotsAdded(trace: seq<Command>): seq<nat>
    decreases |trace|
  {
    if trace == [] then []
    else (if trace[0].AddSlot? then [trace[0].slot] else []) + SlotsAdded(trace[1..])
  }

  lemma {:induction false} SlotsAddedAppend(a: seq<Command>, b: seq<Command>)
    ensures SlotsAdded(a + b) == SlotsAdded(a) + SlotsAdded(b)
    decreases |a|
  {
    if a == [] {
      assert a + b == b;
    } else {
      assert (a + b)[1..] == a[1..] + b;
      SlotsAddedAppend(a[1..], b);
      var head: seq<nat> := if a[0].AddSlot? then [a[0].slot] else [];
      assert SlotsAdded(a + b) == head + SlotsAdded(a[1..] + b);
      assert head + (SlotsAdded(a[1..]) + SlotsAdded(b)) == (head + SlotsAdded(a[1..])) + SlotsAdded(b);
    }
  }

  /** A trace with no slot additions adds no slots. */
  lemma {:induction false} SlotsAddedNone(trace: seq<Command>)
    requires forall k :: 0 <= k < |trace| ==> !trace[k].AddSlot?
    ensures SlotsAdded(trace) == []
    decreases |trace|
  {
    if trace != [] {
      SlotsAddedNone(trace[1..]);
    }
  }
}
