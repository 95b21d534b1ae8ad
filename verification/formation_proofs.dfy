/** Properties of cluster formation: client lifetime, stopping at the first
    failure, the slot partition, node identifiers, the meet rule, the
    replica mapping and its failure cases. */
module FormationProofs {
  import opened Commands
  import opened Slots
  import opened Lifecycle
  import opened Formation

  // =====================================================================
  // One session

  /** A session is its Open, then (unless the Open threw) a prefix of the
      planned commands ending at the first one that threw, then its Close. */
  lemma SessionShape(port: int, body: seq<Command>, fails: Oracle)
    ensures var r := Session(port, body, fails);
            var b := Issue(body, fails);
            if fails(Open(port)) then r.issued == [Open(port)] && r.failed
            else r.issued == [Open(port)] + b.issued + [Close(port)] && r.failed == b.failed
  {
  }

  /** Each client is released before anything else is opened or torn down. */
  lemma SessionScoped(port: int, body: seq<Command>, fails: Oracle)
    requires forall k :: 0 <= k < |body| ==> body[k].OnClient() && body[k].port == port
    ensures Scoped(Session(port, body, fails).issued, fails, None)
  {
    SessionShape(port, body, fails);
    var r := Session(port, body, fails);
    if fails(Open(port)) {
      assert r.issued[1..] == [];
    } else {
      var b := Issue(body, fails);
      assert forall k :: 0 <= k < |b.issued| ==> b.issued[k] == body[k];
      ScopedClientRun(b.issued, port, fails);
      assert r.issued[1..] == b.issued + [Close(port)];
    }
  }

  /** Nothing but the Close follows a step of the session that threw, and a
      session that did not fail had no step that threw. */
  lemma SessionHalts(port: int, body: seq<Command>, fails: Oracle)
    ensures var r := Session(port, body, fails);
            HaltsAtFailure(r.issued, fails) && (!r.failed ==> NoFailure(r.issued, fails))
  {
    SessionShape(port, body, fails);
    var r := Session(port, body, fails);
    if !fails(Open(port)) {
      var b := Issue(body, fails);
      forall k, l | 0 <= k < l < |r.issued| && r.issued[k].Fallible() && fails(r.issued[k])
        ensures !r.issued[l].Fallible()
      {
        assert 1 <= k;
        assert r.issued[k] == b.issued[k - 1];
        assert k - 1 == |b.issued| - 1;
      }
      forall k | 0 <= k < |r.issued| && r.issued[k].Fallible() && !r.failed
        ensures !fails(r.issued[k])
      {
        if k > 0 {
          assert r.issued[k] == b.issued[k - 1];
        }
      }
    }
  }

  /** A session opens exactly one client, and every client command it
      issues is one of the planned ones. */
  lemma SessionCommands(port: int, body: seq<Command>, fails: Oracle)
    requires forall k :: 0 <= k < |body| ==> body[k].OnClient()
    ensures var r := Session(port, body, fails);
            && OpenedPorts(r.issued) == [port]
            && (forall c :: c in r.issued ==> c == Open(port) || c == Close(port) || c in body)
  {
    SessionShape(port, body, fails);
    var r := Session(port, body, fails);
    assert OpenedPorts([Open(port)]) == [port] by {
      assert [Open(port)][1..] == [];
    }
    if !fails(Open(port)) {
      var b := Issue(body, fails);
      assert forall k :: 0 <= k < |b.issued| ==> b.issued[k] == body[k];
      OpenedPortsAppend([Open(port)] + b.issued, [Close(port)]);
      OpenedPortsAppend([Open(port)], b.issued);
      OpenedPortsNone(b.issued);
      OpenedPortsNone([Close(port)]);
    }
  }

  /** A session that failed saw a step on its own port throw: its Open, or
      the last command it issued over the client. */
  lemma SessionThrew(port: int, body: seq<Command>, fails: Oracle)
    requires forall k :: 0 <= k < |body| ==> body[k].OnClient() && body[k].port == port
    requires Session(port, body, fails).failed
    ensures ThrewOn(Session(port, body, fails).issued, fails, port)
  {
    SessionShape(port, body, fails);
    var r := Session(port, body, fails);
    if fails(Open(port)) {
      assert r.issued[0] == Open(port) && Open(port) in r.issued;
    } else {
      var b := Issue(body, fails);
      var n := |b.issued|;
      assert b.issued[n - 1] == body[n - 1];
      assert r.issued[n] == b.issued[n - 1] && r.issued[n] in r.issued;
    }
  }

  // =====================================================================
  // The planned commands of a master and of a replica

  /** Master i's commands all go to its own client; its only meet is with
      the first master and it sends no replicate command. */
  lemma MasterBodyFacts(masters: seq<int>, i: nat)
    requires i < |masters|
    ensures var body := MasterBody(masters, i);
            && (forall k :: 0 <= k < |body| ==> body[k].OnClient() && body[k].port == masters[i])
            && (forall c :: c in body ==> c.OnClient() && c.port == masters[i])
            && (forall c :: c in body && c.Meet? ==> c == Meet(masters[i], masters[0]))
            && (forall c :: c in body ==> !c.Replicate?)
            && (forall c :: c in body && c.AddSlot? ==> c.slot < SlotCount && c.slot % |masters| == i)
  {
    var p := masters[i];
    var meet: seq<Command> := if i != masters[0] then [Meet(p, masters[0])] else [];
    var slots := SlotRange(i, |masters|, i);
    var adds := AddSlots(p, slots);
    var tail := [Sync(p), GetId(p)];
    var body := MasterBody(masters, i);
    assert body == meet + adds + tail;
    forall c | c in adds
      ensures c.AddSlot? && c.port == p && c.slot < SlotCount && c.slot % |masters| == i
    {
      var k :| 0 <= k < |adds| && adds[k] == c;
      assert c == AddSlot(p, slots[k]);
    }
    assert forall c :: c in body ==> c in meet || c in adds || c in tail;
    assert forall k :: 0 <= k < |body| ==> body[k] in body;
  }

  /** The meet rule of the master loop, as the cluster writes it: master i
      meets the first master exactly when the number i differs from the
      first master's port. So master 0 meets itself whenever that port is
      not 0, and a master whose position equals that port never meets. */
  lemma MasterMeetRule(masters: seq<int>, i: nat)
    requires i < |masters|
    ensures Meet(masters[i], masters[0]) in MasterBody(masters, i) <==> i != masters[0]
  {
    MasterBodyFacts(masters, i);
    var p := masters[i];
    var body := MasterBody(masters, i);
    var tail := AddSlots(p, SlotRange(i, |masters|, i)) + [Sync(p), GetId(p)];
    if i == masters[0] {
      assert body == tail;
      forall k | 0 <= k < |tail| ensures !tail[k].Meet? {
        if k >= |tail| - 2 {
          assert tail[k] == [Sync(p), GetId(p)][k - (|tail| - 2)];
        }
      }
    } else {
      assert body[0] == Meet(p, masters[0]);
    }
  }

  /** A replica's commands all go to its own client, its meet is with the
      target, and it adds no slot. It sends the meet and, when it found a
      master, the replicate command naming that master, and nothing else. */
  lemma SlaveBodyFacts(port: int, target: int, id: Option<NodeId>)
    ensures var body := SlaveBody(port, target, id);
            && (forall k :: 0 <= k < |body| ==> body[k].OnClient() && body[k].port == port)
            && (forall c :: c in body && c.Meet? ==> c == Meet(port, target))
            && (forall c :: c in body ==> !c.AddSlot?)
            && body[0] == Meet(port, target)
            && |body| == (if id.Some? then 2 else 1)
            && (id.Some? ==> body[1] == Replicate(port, id.value))
  {
  }

  /** Every replica whose client opened issues its meet with the target
      first, whatever happens after. */
  lemma SlaveAlwaysMeets(port: int, target: int, id: Option<NodeId>, fails: Oracle)
    requires !fails(Open(port))
    ensures var r := SlaveSession(port, target, id, fails);
            |r.issued| >= 2 && r.issued[0] == Open(port) && r.issued[1] == Meet(port, target)
  {
    var body := SlaveBody(port, target, id);
    SessionShape(port, body, fails);
    var b := Issue(body, fails);
    assert |b.issued| > 0 && b.issued[0] == body[0];
  }

  // =====================================================================
  // Slot additions of one master

  /** Adding an ascending list of slots adds each listed slot exactly once. */
  lemma {:induction false} AddsOfAscending(port: int, xs: seq<nat>, s: nat)
    requires forall k, l :: 0 <= k < l < |xs| ==> xs[k] < xs[l]
    ensures AddsOf(AddSlots(port, xs), s) == if s in xs then 1 else 0
    decreases |xs|
  {
    if xs != [] {
      AddsOfAscending(port, xs[1..], s);
      var t := AddSlots(port, xs);
      assert t == [AddSlot(port, xs[0])] + AddSlots(port, xs[1..]);
      assert t[1..] == AddSlots(port, xs[1..]);
      if s == xs[0] {
        assert s !in xs[1..];
      }
      assert s in xs <==> s == xs[0] || s in xs[1..];
    }
  }

  /** Commands around a list that add no slot leave its count unchanged. */
  lemma AddsOfFramed(pre: seq<Command>, mid: seq<Command>, post: seq<Command>, s: nat)
    requires forall k :: 0 <= k < |pre| ==> !pre[k].AddSlot?
    requires forall k :: 0 <= k < |post| ==> !post[k].AddSlot?
    ensures AddsOf(pre + mid + post, s) == AddsOf(mid, s)
  {
    AddsOfAppend(pre + mid, post, s);
    AddsOfAppend(pre, mid, s);
    AddsOfNone(pre, s);
    AddsOfNone(post, s);
  }

  /** A session that completed adds what its planned commands add. */
  lemma SessionAdds(port: int, body: seq<Command>, fails: Oracle, s: nat)
    requires !Session(port, body, fails).failed
    ensures AddsOf(Session(port, body, fails).issued, s) == AddsOf(body, s)
  {
    SessionShape(port, body, fails);
    AddsOfFramed([Open(port)], body, [Close(port)], s);
  }

  /** Master i is planned to add each slot with remainder i once, and no
      other slot. */
  lemma MasterBodyAdds(masters: seq<int>, i: nat, s: nat)
    requires i < |masters|
    ensures AddsOf(MasterBody(masters, i), s) == if s < SlotCount && s % |masters| == i then 1 else 0
  {
    var p := masters[i];
    var meet: seq<Command> := if i != masters[0] then [Meet(p, masters[0])] else [];
    var slots := SlotRange(i, |masters|, i);
    var adds := AddSlots(p, slots);
    assert MasterBody(masters, i) == meet + adds + [Sync(p), GetId(p)];
    AddsOfFramed(meet, adds, [Sync(p), GetId(p)], s);
    AddsOfAscending(p, slots, s);
    SlotOwnedBy(i, |masters|, s);
  }

  /** A master whose setup completed added exactly its own slots, each once. */
  lemma MasterSessionAdds(masters: seq<int>, i: nat, fails: Oracle, s: nat)
    requires i < |masters|
    requires !MasterSession(masters, i, fails).failed
    ensures AddsOf(MasterSession(masters, i, fails).issued, s) == if s < SlotCount && s % |masters| == i then 1 else 0
  {
    SessionAdds(masters[i], MasterBody(masters, i), fails, s);
    MasterBodyAdds(masters, i, s);
  }

  /** The slots of a run of slot additions are the listed slots, in order. */
  lemma {:induction false} SlotsAddedOfAddSlots(port: int, xs: seq<nat>)
    ensures SlotsAdded(AddSlots(port, xs)) == xs
    decreases |xs|
  {
    if xs != [] {
      var t := AddSlots(port, xs);
      assert t == [AddSlot(port, xs[0])] + AddSlots(port, xs[1..]);
      SlotsAddedAppend([AddSlot(port, xs[0])], AddSlots(port, xs[1..]));
      SlotsAddedOfAddSlots(port, xs[1..]);
      assert SlotsAdded([AddSlot(port, xs[0])]) == [xs[0]];
    }
  }

  /** The slots master i's commands add are its slot scan, and they end
      with its barrier and the read of its identifier. */
  lemma MasterBodySlots(masters: seq<int>, i: nat)
    requires i < |masters|
    ensures var body := MasterBody(masters, i);
            && SlotsAdded(body) == SlotRange(i, |masters|, i)
            && |body| >= 2 && body[|body| - 2] == Sync(masters[i]) && body[|body| - 1] == GetId(masters[i])
  {
    var p := masters[i];
    var meet: seq<Command> := if i != masters[0] then [Meet(p, masters[0])] else [];
    var slots := SlotRange(i, |masters|, i);
    var adds := AddSlots(p, slots);
    var tail := [Sync(p), GetId(p)];
    assert MasterBody(masters, i) == meet + adds + tail;
    SlotsAddedAppend(meet + adds, tail);
    SlotsAddedAppend(meet, adds);
    SlotsAddedNone(meet);
    SlotsAddedNone(tail);
    SlotsAddedOfAddSlots(p, slots);
  }

  /** Everything before master i's last two commands is a slot addition,
      except a meet in first place. */
  lemma MasterBodyLayout(masters: seq<int>, i: nat)
    requires i < |masters|
    ensures var body := MasterBody(masters, i);
            forall k :: 0 <= k < |body| - 2 ==> body[k].AddSlot? || (k == 0 && body[k] == Meet(masters[i], masters[0]))
  {
    var p := masters[i];
    var meet: seq<Command> := if i != masters[0] then [Meet(p, masters[0])] else [];
    var adds := AddSlots(p, SlotRange(i, |masters|, i));
    var body := MasterBody(masters, i);
    assert body == meet + adds + [Sync(p), GetId(p)];
    forall k | 0 <= k < |body| - 2
      ensures body[k].AddSlot? || (k == 0 && body[k] == Meet(p, masters[0]))
    {
      if k < |meet| {
        assert body[k] == meet[k];
      } else {
        assert body[k] == adds[k - |meet|];
      }
    }
  }

  /** Master i of m adds, in ascending order, exactly the slots below
      SlotCount whose remainder modulo m is i; then its one barrier and the
      read of its identifier close its commands. Before them come only the
      slot additions, preceded at most by the meet as the very first
      command. */
  lemma MasterSlotOrder(masters: seq<int>, i: nat)
    requires i < |masters|
    ensures var body := MasterBody(masters, i);
            var added := SlotsAdded(body);
            && (forall k, l :: 0 <= k < l < |added| ==> added[k] < added[l])
            && (forall s: nat :: s in added <==> s < SlotCount && s % |masters| == i)
            && |body| >= 2 && body[|body| - 2] == Sync(masters[i]) && body[|body| - 1] == GetId(masters[i])
            && (forall k :: 0 <= k < |body| - 2 ==> body[k].AddSlot? || (k == 0 && body[k] == Meet(masters[i], masters[0])))
  {
    MasterBodySlots(masters, i);
    MasterBodyLayout(masters, i);
    forall s: nat ensures s in SlotRange(i, |masters|, i) <==> s < SlotCount && s % |masters| == i {
      SlotOwnedBy(i, |masters|, s);
    }
  }

  // =====================================================================
  // The loops

  /** The master loop issues what the replica loop would issue for the same
      sessions; it only also collects identifiers. */
  lemma {:induction false} MasterLoopRunsInOrder(masters: seq<int>, idOf: int -> NodeId, sessions: seq<Run>, i: nat)
    requires |sessions| == |masters| && i <= |masters|
    ensures MasterLoop(masters, idOf, sessions, i).trace == RunInOrder(sessions, i).trace
    ensures MasterLoop(masters, idOf, sessions, i).failedAt == RunInOrder(sessions, i).failedAt
    decreases |masters| - i
  {
    if i < |masters| && !sessions[i].failed {
      MasterLoopRunsInOrder(masters, idOf, sessions, i + 1);
    }
  }

  /** What holds of every session holds of the loop: clients are scoped,
      nothing follows a failure, and a loop that completed saw no failure. */
  lemma {:induction false} RunInOrderFacts(sessions: seq<Run>, i: nat, fails: Oracle)
    requires i <= |sessions|
    requires forall k :: 0 <= k < |sessions| ==>
               && Scoped(sessions[k].issued, fails, None)
               && HaltsAtFailure(sessions[k].issued, fails)
               && (!sessions[k].failed ==> NoFailure(sessions[k].issued, fails))
    ensures var r := RunInOrder(sessions, i);
            && Scoped(r.trace, fails, None)
            && HaltsAtFailure(r.trace, fails)
            && (r.failedAt.None? ==> NoFailure(r.trace, fails))
    decreases |sessions| - i
  {
    if i < |sessions| && !sessions[i].failed {
      RunInOrderFacts(sessions, i + 1, fails);
      var rest := RunInOrder(sessions, i + 1);
      ScopedAppend(sessions[i].issued, rest.trace, fails, None);
      HaltsAfterClean(sessions[i].issued, rest.trace, fails);
      if rest.failedAt.None? {
        NoFailureAppend(sessions[i].issued, rest.trace, fails);
      }
    }
  }

  /** Every command of the loop comes from one of the sessions it ran. */
  lemma {:induction false} RunInOrderCommands(sessions: seq<Run>, i: nat)
    requires i <= |sessions|
    ensures forall c :: c in RunInOrder(sessions, i).trace ==>
              exists j :: i <= j < |sessions| && c in sessions[j].issued
    decreases |sessions| - i
  {
    if i < |sessions| && !sessions[i].failed {
      RunInOrderCommands(sessions, i + 1);
    }
  }

  /** A loop that completed issued every command of every session. */
  lemma {:induction false} RunInOrderIncludes(sessions: seq<Run>, i: nat)
    requires i <= |sessions|
    ensures var r := RunInOrder(sessions, i);
            r.failedAt.None? ==>
              forall j, c :: i <= j < |sessions| && c in sessions[j].issued ==> c in r.trace
    decreases |sessions| - i
  {
    if i < |sessions| && !sessions[i].failed {
      RunInOrderIncludes(sessions, i + 1);
    }
  }

  /** When session k opens one client, on ports[k], a loop that stopped at
      session f opened the clients of sessions i to f, in order, and none
      for the sessions after f. */
  lemma {:induction false} RunInOrderOpens(sessions: seq<Run>, ports: seq<int>, i: nat)
    requires i <= |sessions| == |ports|
    requires forall k :: 0 <= k < |sessions| ==> OpenedPorts(sessions[k].issued) == [ports[k]]
    ensures var r := RunInOrder(sessions, i);
            r.failedAt.Some? ==> OpenedPorts(r.trace) == ports[i..r.failedAt.value + 1]
    ensures var r := RunInOrder(sessions, i);
            r.failedAt.None? ==> OpenedPorts(r.trace) == ports[i..]
    decreases |sessions| - i
  {
    if i == |sessions| {
    } else if sessions[i].failed {
      assert ports[i..i + 1] == [ports[i]];
    } else {
      var r := RunInOrder(sessions, i);
      var rest := RunInOrder(sessions, i + 1);
      assert r.trace == sessions[i].issued + rest.trace && r.failedAt == rest.failedAt;
      RunInOrderOpens(sessions, ports, i + 1);
      var end := if rest.failedAt.Some? then rest.failedAt.value + 1 else |ports|;
      assert OpenedPorts(sessions[i].issued) == [ports[i]];
      OpenedPortsCons(sessions[i].issued, rest.trace, ports, i, end);
    }
  }

  /** One session's client followed by the clients of the rest. */
  lemma OpenedPortsCons(a: seq<Command>, rest: seq<Command>, ports: seq<int>, i: nat, end: nat)
    requires i < end <= |ports|
    requires OpenedPorts(a) == [ports[i]] && OpenedPorts(rest) == ports[i + 1..end]
    ensures OpenedPorts(a + rest) == ports[i..end]
  {
    OpenedPortsAppend(a, rest);
    assert ports[i..end] == [ports[i]] + ports[i + 1..end];
  }

  /** When every session k that completes sends exactly one replicate
      command, expected[k], a completed loop sent exactly those, in session
      order. */
  lemma {:induction false} RunInOrderReplications(sessions: seq<Run>, expected: seq<Command>, i: nat)
    requires i <= |sessions| == |expected|
    requires forall k :: 0 <= k < |sessions| && !sessions[k].failed ==> Replications(sessions[k].issued) == [expected[k]]
    ensures var r := RunInOrder(sessions, i);
            r.failedAt.None? ==> Replications(r.trace) == expected[i..]
    decreases |sessions| - i
  {
    if i < |sessions| && !sessions[i].failed {
      var r := RunInOrder(sessions, i);
      var rest := RunInOrder(sessions, i + 1);
      assert r.trace == sessions[i].issued + rest.trace && r.failedAt == rest.failedAt;
      RunInOrderReplications(sessions, expected, i + 1);
      if rest.failedAt.None? {
        ReplicationsAppend(sessions[i].issued, rest.trace);
        assert expected[i..] == [expected[i]] + expected[i + 1..];
      }
    }
  }

  /** The session a loop stopped at is in the loop's trace: every command
      it issued was issued by the loop. */
  lemma {:induction false} RunInOrderIssuesFailed(sessions: seq<Run>, i: nat)
    requires i <= |sessions|
    ensures var r := RunInOrder(sessions, i);
            r.failedAt.Some? ==> forall c :: c in sessions[r.failedAt.value].issued ==> c in r.trace
    decreases |sessions| - i
  {
    if i < |sessions| && !sessions[i].failed {
      RunInOrderIssuesFailed(sessions, i + 1);
    }
  }

  /** When session `owner` is the only completed session adding slot s, and
      adds it once, a completed loop adds s once if it ran that session and
      never otherwise. */
  lemma {:induction false} RunInOrderAdds(sessions: seq<Run>, i: nat, s: nat, owner: int)
    requires i <= |sessions|
    requires forall k :: 0 <= k < |sessions| && !sessions[k].failed ==>
               AddsOf(sessions[k].issued, s) == if k == owner then 1 else 0
    ensures var r := RunInOrder(sessions, i);
            r.failedAt.None? ==> AddsOf(r.trace, s) == if i <= owner < |sessions| then 1 else 0
    decreases |sessions| - i
  {
    if i < |sessions| && !sessions[i].failed {
      RunInOrderAdds(sessions, i + 1, s, owner);
      AddsOfAppend(sessions[i].issued, RunInOrder(sessions, i + 1).trace, s);
    }
  }

  /** When exactly the sessions from f on fail, the loop stops at f, if
      there is a session f. */
  lemma RunInOrderStopsAt(sessions: seq<Run>, f: nat)
    requires forall i :: 0 <= i < |sessions| ==> (sessions[i].failed <==> i >= f)
    ensures RunInOrder(sessions, 0).failedAt == if f < |sessions| then Some(f) else None
  {
    var r := RunInOrder(sessions, 0);
    if f < |sessions| {
      assert sessions[f].failed;
      assert r.failedAt.Some? && r.failedAt.value == f;
    } else {
      assert r.failedAt.None?;
    }
  }

  // =====================================================================
  // The phases of start()

  /** What the loops need of each session: its client is scoped, nothing
      follows a step that threw, and a session that completed saw no
      failure. */
  predicate WellBehaved(r: Run, fails: Oracle) {
    && Scoped(r.issued, fails, None)
    && HaltsAtFailure(r.issued, fails)
    && (!r.failed ==> NoFailure(r.issued, fails))
  }

  lemma MasterSessionWellBehaved(masters: seq<int>, k: nat, fails: Oracle)
    requires k < |masters|
    ensures WellBehaved(MasterSession(masters, k, fails), fails)
  {
    MasterBodyFacts(masters, k);
    SessionScoped(masters[k], MasterBody(masters, k), fails);
    SessionHalts(masters[k], MasterBody(masters, k), fails);
  }

  lemma SlaveSessionWellBehaved(port: int, target: int, id: Option<NodeId>, fails: Oracle)
    ensures WellBehaved(SlaveSession(port, target, id, fails), fails)
  {
    SlaveBodyFacts(port, target, id);
    SessionScoped(port, SlaveBody(port, target, id), fails);
    SessionHalts(port, SlaveBody(port, target, id), fails);
  }

  /** A replica whose session completed was given a master to follow, and
      its client saw exactly the Open, the meet, the replicate command naming
      that master and the Close; that replicate command is the only one the
      session sent. */
  lemma SlaveSessionCompleted(port: int, target: int, id: Option<NodeId>, fails: Oracle)
    requires !SlaveSession(port, target, id, fails).failed
    ensures id.Some?
    ensures Meet(port, target) in SlaveSession(port, target, id, fails).issued
    ensures Replicate(port, id.value) in SlaveSession(port, target, id, fails).issued
    ensures Replications(SlaveSession(port, target, id, fails).issued) == [Replicate(port, id.value)]
    ensures SlaveSession(port, target, id, fails).issued == [Open(port), Meet(port, target), Replicate(port, id.value), Close(port)]
  {
    var body := SlaveBody(port, target, id);
    SessionShape(port, body, fails);
    var issued := SlaveSession(port, target, id, fails).issued;
    assert !fails(Open(port)) && !Issue(body, fails).failed;
    assert body == [Meet(port, target), Replicate(port, id.value)];
    assert issued == [Open(port)] + body + [Close(port)];
    var full := [Open(port), Meet(port, target), Replicate(port, id.value), Close(port)];
    assert issued == full by {
      assert |issued| == 4;
      assert issued[0] == full[0] && issued[1] == full[1] && issued[2] == full[2] && issued[3] == full[3];
    }
    var pre := [Open(port), Meet(port, target)];
    assert full == pre + [Replicate(port, id.value)] + [Close(port)];
    ReplicationsAppend(pre + [Replicate(port, id.value)], [Close(port)]);
    ReplicationsAppend(pre, [Replicate(port, id.value)]);
    ReplicationsNone(pre);
    ReplicationsNone([Close(port)]);
    assert Replications([Replicate(port, id.value)]) == [Replicate(port, id.value)] by {
      assert [Replicate(port, id.value)][1..] == [];
    }
  }

  /** The server start loop issues only server starts and so opens no
      client. */
  lemma BootCommands(servers: seq<Node>, fails: Oracle)
    ensures var b := Boot(servers, fails, 0);
            && (forall k :: 0 <= k < |b.trace| ==> b.trace[k].StartServer?)
            && (forall cmd :: cmd in b.trace ==> cmd.StartServer?)
            && OpenedPorts(b.trace) == []
  {
    var b := Boot(servers, fails, 0);
    forall cmd | cmd in b.trace ensures cmd.StartServer? {
      var k :| 0 <= k < |b.trace| && b.trace[k] == cmd;
    }
    OpenedPortsNone(b.trace);
  }

  /** The server start loop adds no slot. */
  lemma BootAdds(servers: seq<Node>, fails: Oracle, s: nat)
    ensures AddsOf(Boot(servers, fails, 0).trace, s) == 0
  {
    AddsOfNone(Boot(servers, fails, 0).trace, s);
  }

  /** The server start loop touches no client and stops at the first start
      that throws. */
  lemma BootScoped(servers: seq<Node>, fails: Oracle)
    ensures var b := Boot(servers, fails, 0);
            && Scoped(b.trace, fails, None)
            && HaltsAtFailure(b.trace, fails)
            && (b.failedAt.None? ==> NoFailure(b.trace, fails))
  {
    var b := Boot(servers, fails, 0);
    ScopedWithoutClients(b.trace, fails);
    assert forall k :: 0 <= k < |b.trace| - 1 ==> !fails(b.trace[k]);
    if b.failedAt.None? {
      assert forall k :: 0 <= k < |b.trace| ==> !fails(b.trace[k]);
    }
  }

  /** The master phase keeps clients scoped and stops at its first failure. */
  lemma MasterPhaseScoped(masters: seq<int>, idOf: int -> NodeId, fails: Oracle)
    ensures var mp := MasterLoop(masters, idOf, MasterSessions(masters, fails), 0);
            && Scoped(mp.trace, fails, None)
            && HaltsAtFailure(mp.trace, fails)
            && (mp.failedAt.None? ==> NoFailure(mp.trace, fails))
  {
    var sessions := MasterSessions(masters, fails);
    forall k | 0 <= k < |sessions| ensures WellBehaved(sessions[k], fails) {
      MasterSessionWellBehaved(masters, k, fails);
    }
    MasterLoopRunsInOrder(masters, idOf, sessions, 0);
    RunInOrderFacts(sessions, 0, fails);
  }

  /** The master phase opened the clients of the masters it reached, in
      master order: up to and including the one that failed, or all of
      them. */
  lemma MasterPhaseOpens(masters: seq<int>, idOf: int -> NodeId, fails: Oracle)
    ensures var mp := MasterLoop(masters, idOf, MasterSessions(masters, fails), 0);
            OpenedPorts(mp.trace) == if mp.failedAt.Some? then masters[..mp.failedAt.value + 1] else masters
  {
    var sessions := MasterSessions(masters, fails);
    forall k | 0 <= k < |sessions| ensures OpenedPorts(sessions[k].issued) == [masters[k]] {
      MasterBodyFacts(masters, k);
      SessionCommands(masters[k], MasterBody(masters, k), fails);
    }
    MasterLoopRunsInOrder(masters, idOf, sessions, 0);
    RunInOrderOpens(sessions, masters, 0);
    assert masters[0..] == masters;
  }

  /** A master phase that stopped at master f did so because a step on
      master f's port threw. */
  lemma MasterPhaseBlame(masters: seq<int>, idOf: int -> NodeId, fails: Oracle)
    ensures var mp := MasterLoop(masters, idOf, MasterSessions(masters, fails), 0);
            mp.failedAt.Some? ==> ThrewOn(mp.trace, fails, masters[mp.failedAt.value])
  {
    var sessions := MasterSessions(masters, fails);
    var mp := MasterLoop(masters, idOf, sessions, 0);
    MasterLoopRunsInOrder(masters, idOf, sessions, 0);
    if mp.failedAt.Some? {
      var f := mp.failedAt.value;
      MasterBodyFacts(masters, f);
      SessionThrew(masters[f], MasterBody(masters, f), fails);
      RunInOrderIssuesFailed(sessions, 0);
      ThrewOnWithin(sessions[f].issued, mp.trace, fails, masters[f]);
    }
  }

  /** The same for the replica phase. */
  lemma SlavePhaseScoped(slaves: seq<int>, target: int, ids: seq<NodeId>, perShard: nat, fails: Oracle)
    ensures var sp := RunInOrder(SlaveSessions(slaves, target, ids, perShard, fails), 0);
            && Scoped(sp.trace, fails, None)
            && HaltsAtFailure(sp.trace, fails)
            && (sp.failedAt.None? ==> NoFailure(sp.trace, fails))
  {
    var sessions := SlaveSessions(slaves, target, ids, perShard, fails);
    forall k | 0 <= k < |sessions| ensures WellBehaved(sessions[k], fails) {
      SlaveSessionWellBehaved(slaves[k], target, Lookup(ids, perShard, k), fails);
    }
    RunInOrderFacts(sessions, 0, fails);
  }

  /** The replica phase opened the clients of the replicas it reached, in
      replica order: up to and including the one that failed, or all of
      them. */
  lemma SlavePhaseOpens(slaves: seq<int>, target: int, ids: seq<NodeId>, perShard: nat, fails: Oracle)
    ensures var sp := RunInOrder(SlaveSessions(slaves, target, ids, perShard, fails), 0);
            OpenedPorts(sp.trace) == if sp.failedAt.Some? then slaves[..sp.failedAt.value + 1] else slaves
  {
    var sessions := SlaveSessions(slaves, target, ids, perShard, fails);
    forall k | 0 <= k < |sessions| ensures OpenedPorts(sessions[k].issued) == [slaves[k]] {
      var id := Lookup(ids, perShard, k);
      SlaveBodyFacts(slaves[k], target, id);
      SessionCommands(slaves[k], SlaveBody(slaves[k], target, id), fails);
    }
    RunInOrderOpens(sessions, slaves, 0);
    assert slaves[0..] == slaves;
  }

  /** A replica phase that stopped at replica f did so because a step on
      replica f's port threw, or because replica f had no master to
      follow. */
  lemma SlavePhaseBlame(slaves: seq<int>, target: int, ids: seq<NodeId>, perShard: nat, fails: Oracle)
    ensures var sp := RunInOrder(SlaveSessions(slaves, target, ids, perShard, fails), 0);
            sp.failedAt.Some? ==>
              ThrewOn(sp.trace, fails, slaves[sp.failedAt.value]) || Lookup(ids, perShard, sp.failedAt.value).None?
  {
    var sessions := SlaveSessions(slaves, target, ids, perShard, fails);
    var sp := RunInOrder(sessions, 0);
    if sp.failedAt.Some? {
      var f := sp.failedAt.value;
      var id := Lookup(ids, perShard, f);
      if id.Some? {
        SlaveBodyFacts(slaves[f], target, id);
        SessionThrew(slaves[f], SlaveBody(slaves[f], target, id), fails);
        RunInOrderIssuesFailed(sessions, 0);
        ThrewOnWithin(sessions[f].issued, sp.trace, fails, slaves[f]);
      }
    }
  }

  /** A command the master phase may issue: no replicate command, no
      server start or teardown, a meet only with the first master, and a
      slot only to the master whose position is the slot's remainder. */
  predicate MasterCommand(masters: seq<int>, c: Command)
    requires |masters| > 0
  {
    && !c.Replicate? && !c.StartServer? && !c.StopAll?
    && (c.Meet? ==> c.target == masters[0])
    && (c.AddSlot? ==> c.slot < SlotCount && c.port == masters[c.slot % |masters|])
  }

  lemma MasterSessionCommands(masters: seq<int>, j: nat, fails: Oracle)
    requires j < |masters|
    ensures forall c :: c in MasterSession(masters, j, fails).issued ==> MasterCommand(masters, c)
  {
    var body := MasterBody(masters, j);
    MasterBodyFacts(masters, j);
    SessionCommands(masters[j], body, fails);
    forall c | c in MasterSession(masters, j, fails).issued ensures MasterCommand(masters, c) {
      if c in body {
        assert c.OnClient() && c.port == masters[j];
        assert c.AddSlot? ==> c.slot % |masters| == j;
      }
    }
  }

  /** The master phase issues master commands only. */
  lemma MasterPhaseCommands(masters: seq<int>, idOf: int -> NodeId, fails: Oracle)
    requires |masters| > 0
    ensures forall c :: c in MasterLoop(masters, idOf, MasterSessions(masters, fails), 0).trace ==>
              MasterCommand(masters, c)
  {
    var sessions := MasterSessions(masters, fails);
    MasterLoopRunsInOrder(masters, idOf, sessions, 0);
    RunInOrderCommands(sessions, 0);
    forall j | 0 <= j < |sessions|
      ensures forall c :: c in sessions[j].issued ==> MasterCommand(masters, c)
    {
      MasterSessionCommands(masters, j, fails);
    }
  }

  /** A command the replica phase may issue: no slot, no server start or
      teardown, and a meet only with the target. */
  predicate SlaveCommand(target: int, c: Command) {
    && !c.AddSlot? && !c.StartServer? && !c.StopAll?
    && (c.Meet? ==> c.target == target)
  }

  lemma SlaveSessionCommands(port: int, target: int, id: Option<NodeId>, fails: Oracle)
    ensures forall c :: c in SlaveSession(port, target, id, fails).issued ==> SlaveCommand(target, c)
  {
    SlaveBodyFacts(port, target, id);
    SessionCommands(port, SlaveBody(port, target, id), fails);
  }

  /** The replica phase meets only the target and adds no slot. */
  lemma SlavePhaseCommands(slaves: seq<int>, target: int, ids: seq<NodeId>, perShard: nat, fails: Oracle)
    ensures forall c :: c in RunInOrder(SlaveSessions(slaves, target, ids, perShard, fails), 0).trace ==>
              SlaveCommand(target, c)
  {
    var sessions := SlaveSessions(slaves, target, ids, perShard, fails);
    RunInOrderCommands(sessions, 0);
    forall j | 0 <= j < |sessions|
      ensures forall c :: c in sessions[j].issued ==> SlaveCommand(target, c)
    {
      SlaveSessionCommands(slaves[j], target, Lookup(ids, perShard, j), fails);
    }
  }

  /** Joining a phase that saw no failure to a later phase keeps both
      guarantees. */
  lemma JoinPhases(a: seq<Command>, b: seq<Command>, fails: Oracle)
    requires Scoped(a, fails, None) && NoFailure(a, fails)
    requires Scoped(b, fails, None) && HaltsAtFailure(b, fails)
    ensures Scoped(a + b, fails, None) && HaltsAtFailure(a + b, fails)
    ensures NoFailure(b, fails) ==> NoFailure(a + b, fails)
  {
    ScopedAppend(a, b, fails, None);
    HaltsAfterClean(a, b, fails);
    if NoFailure(b, fails) {
      NoFailureAppend(a, b, fails);
    }
  }

  /** Appending the teardown keeps both guarantees. */
  lemma JoinTeardown(a: seq<Command>, fails: Oracle)
    requires Scoped(a, fails, None) && HaltsAtFailure(a, fails)
    ensures Scoped(a + [StopAll], fails, None) && HaltsAtFailure(a + [StopAll], fails)
  {
    ScopedWithoutClients([StopAll], fails);
    ScopedAppend(a, [StopAll], fails, None);
    HaltsThenCleanup(a, [StopAll], fails);
  }

  // =====================================================================
  // start()

  /** Every client command goes to the one open client, every client is
      closed before the next is opened and before the teardown, and none is
      left open; nothing but closes and the teardown follows a step that
      threw; a formed cluster saw no step throw. */
  lemma StartKeepsClientsScoped(c: Cluster, idOf: int -> NodeId, fails: Oracle)
    ensures var r := Start(c, idOf, fails);
            && Scoped(r.trace, fails, None)
            && HaltsAtFailure(r.trace, fails)
            && (r.outcome.Formed? ==> NoFailure(r.trace, fails))
  {
    var boot := Boot(c.servers, fails, 0);
    BootScoped(c.servers, fails);
    if boot.failedAt.None? && |c.masters| > 0 {
      var mp := MasterLoop(c.masters, idOf, MasterSessions(c.masters, fails), 0);
      MasterPhaseScoped(c.masters, idOf, fails);
      JoinPhases(boot.trace, mp.trace, fails);
      if mp.failedAt.Some? {
        JoinTeardown(boot.trace + mp.trace, fails);
      } else {
        var perShard := PerShard(|c.slaves|, |c.masters|);
        var sp := RunInOrder(SlaveSessions(c.slaves, c.masters[0], mp.ids, perShard, fails), 0);
        SlavePhaseScoped(c.slaves, c.masters[0], mp.ids, perShard, fails);
        JoinPhases(boot.trace + mp.trace, sp.trace, fails);
        if sp.failedAt.Some? {
          JoinTeardown(boot.trace + mp.trace + sp.trace, fails);
        }
      }
    }
  }

  /** A trace start() may issue: every meet is with the first master, and
      every slot goes to the master at position slot mod the number of
      masters. */
  predicate FormationTrace(c: Cluster, trace: seq<Command>) {
    forall cmd :: cmd in trace ==>
      && (cmd.Meet? ==> |c.masters| > 0 && cmd.target == c.masters[0])
      && (cmd.AddSlot? ==> |c.masters| > 0 && cmd.slot < SlotCount && cmd.port == c.masters[cmd.slot % |c.masters|])
  }

  lemma FormationTraceJoin(c: Cluster, a: seq<Command>, b: seq<Command>)
    requires FormationTrace(c, a) && FormationTrace(c, b)
    ensures FormationTrace(c, a + b)
  {
  }

  /** The traces of the three phases and of the teardown are each of the
      allowed kind. */
  lemma FormationPhases(c: Cluster, idOf: int -> NodeId, fails: Oracle)
    ensures FormationTrace(c, Boot(c.servers, fails, 0).trace)
    ensures FormationTrace(c, [StopAll])
    ensures |c.masters| > 0 ==>
              var mp := MasterLoop(c.masters, idOf, MasterSessions(c.masters, fails), 0);
              && FormationTrace(c, mp.trace)
              && FormationTrace(c, RunInOrder(SlaveSessions(c.slaves, c.masters[0], mp.ids, PerShard(|c.slaves|, |c.masters|), fails), 0).trace)
  {
    BootCommands(c.servers, fails);
    if |c.masters| > 0 {
      var mp := MasterLoop(c.masters, idOf, MasterSessions(c.masters, fails), 0);
      MasterPhaseCommands(c.masters, idOf, fails);
      SlavePhaseCommands(c.slaves, c.masters[0], mp.ids, PerShard(|c.slaves|, |c.masters|), fails);
    }
  }

  /** Every meet start() issues introduces a server to the first master,
      and every slot it adds goes to the master at position slot mod the
      number of masters. */
  lemma StartMeetsAndSlots(c: Cluster, idOf: int -> NodeId, fails: Oracle)
    ensures FormationTrace(c, Start(c, idOf, fails).trace)
  {
    var r := Start(c, idOf, fails);
    var boot := Boot(c.servers, fails, 0);
    FormationPhases(c, idOf, fails);
    if boot.failedAt.None? && |c.masters| > 0 {
      var mp := MasterLoop(c.masters, idOf, MasterSessions(c.masters, fails), 0);
      FormationTraceJoin(c, boot.trace, mp.trace);
      if mp.failedAt.None? {
        var sp := RunInOrder(SlaveSessions(c.slaves, c.masters[0], mp.ids, PerShard(|c.slaves|, |c.masters|), fails), 0);
        FormationTraceJoin(c, boot.trace + mp.trace, sp.trace);
        FormationTraceJoin(c, boot.trace + mp.trace + sp.trace, [StopAll]);
      } else {
        FormationTraceJoin(c, boot.trace + mp.trace, [StopAll]);
      }
    }
  }

  /** A master phase that completed added every slot once and nothing
      else. */
  lemma MasterPhaseAdds(masters: seq<int>, idOf: int -> NodeId, fails: Oracle, s: nat)
    requires |masters| > 0
    requires MasterLoop(masters, idOf, MasterSessions(masters, fails), 0).failedAt.None?
    ensures AddsOf(MasterLoop(masters, idOf, MasterSessions(masters, fails), 0).trace, s)
              == if s < SlotCount then 1 else 0
  {
    var sessions := MasterSessions(masters, fails);
    MasterLoopRunsInOrder(masters, idOf, sessions, 0);
    var owner := if s < SlotCount then s % |masters| else -1;
    forall k | 0 <= k < |sessions| && !sessions[k].failed
      ensures AddsOf(sessions[k].issued, s) == if k == owner then 1 else 0
    {
      MasterSessionAdds(masters, k, fails, s);
    }
    RunInOrderAdds(sessions, 0, s, owner);
  }

  /** The replica phase adds no slot. */
  lemma SlavePhaseAdds(slaves: seq<int>, target: int, ids: seq<NodeId>, perShard: nat, fails: Oracle, s: nat)
    ensures AddsOf(RunInOrder(SlaveSessions(slaves, target, ids, perShard, fails), 0).trace, s) == 0
  {
    var t := RunInOrder(SlaveSessions(slaves, target, ids, perShard, fails), 0).trace;
    SlavePhaseCommands(slaves, target, ids, perShard, fails);
    forall k | 0 <= k < |t| ensures !t[k].AddSlot? {
      assert SlaveCommand(target, t[k]);
    }
    AddsOfNone(t, s);
  }

  /** Phases that add nothing around one that adds slot s n times. */
  lemma AddsOfPhases(boot: seq<Command>, masters: seq<Command>, slaves: seq<Command>, tail: seq<Command>, s: nat, n: nat)
    requires AddsOf(boot, s) == 0 && AddsOf(masters, s) == n
    requires AddsOf(slaves, s) == 0 && AddsOf(tail, s) == 0
    ensures AddsOf(boot + masters + slaves + tail, s) == n
  {
    AddsOfAppend(boot, masters, s);
    AddsOfAppend(boot + masters, slaves, s);
    AddsOfAppend(boot + masters + slaves, tail, s);
  }

  /** Slot s is added once by a start() whose master phase completed, if it
      is a slot at all. */
  lemma StartAddsSlotOnce(c: Cluster, idOf: int -> NodeId, fails: Oracle, s: nat)
    ensures var r := Start(c, idOf, fails);
            r.outcome.Formed? || r.outcome.SlaveFailed? ==>
              AddsOf(r.trace, s) == if s < SlotCount then 1 else 0
  {
    var r := Start(c, idOf, fails);
    var boot := Boot(c.servers, fails, 0);
    if boot.failedAt.None? && |c.masters| > 0 {
      var mp := MasterLoop(c.masters, idOf, MasterSessions(c.masters, fails), 0);
      if mp.failedAt.None? {
        var k := PerShard(|c.slaves|, |c.masters|);
        var sp := RunInOrder(SlaveSessions(c.slaves, c.masters[0], mp.ids, k, fails), 0);
        var tail := if sp.failedAt.Some? then [StopAll] else [];
        assert r.trace == boot.trace + mp.trace + sp.trace + tail;
        BootAdds(c.servers, fails, s);
        MasterPhaseAdds(c.masters, idOf, fails, s);
        SlavePhaseAdds(c.slaves, c.masters[0], mp.ids, k, fails, s);
        AddsOfNone(tail, s);
        AddsOfPhases(boot.trace, mp.trace, sp.trace, tail, s, if s < SlotCount then 1 else 0);
      }
    }
  }

  /** Once the master phase completed (the cluster formed, or a replica
      failed afterwards), every slot was added exactly once: the masters'
      slot sets are pairwise disjoint and cover the whole slot space. */
  lemma StartAssignsEverySlotOnce(c: Cluster, idOf: int -> NodeId, fails: Oracle)
    ensures var r := Start(c, idOf, fails);
            r.outcome.Formed? || r.outcome.SlaveFailed? ==>
              forall s: nat :: AddsOf(r.trace, s) == if s < SlotCount then 1 else 0
  {
    forall s: nat
      ensures var r := Start(c, idOf, fails);
              r.outcome.Formed? || r.outcome.SlaveFailed? ==> AddsOf(r.trace, s) == if s < SlotCount then 1 else 0
    {
      StartAddsSlotOnce(c, idOf, fails, s);
    }
  }

  /** No command of the trace makes a server a replica. */
  predicate Unattached(trace: seq<Command>) {
    forall cmd :: cmd in trace ==> !cmd.Replicate?
  }

  lemma OpenedPortsJoin(a: seq<Command>, b: seq<Command>, d: seq<Command>)
    ensures OpenedPorts(a + b + d) == OpenedPorts(a) + OpenedPorts(b) + OpenedPorts(d)
  {
    OpenedPortsAppend(a, b);
    OpenedPortsAppend(a + b, d);
  }

  /** How a start() that formed the cluster got there: the servers
      started, every master was set up, and every replica was attached;
      nothing followed. */
  lemma StartFormed(c: Cluster, idOf: int -> NodeId, fails: Oracle)
    requires Start(c, idOf, fails).outcome.Formed?
    ensures |c.masters| > 0 && Boot(c.servers, fails, 0).failedAt.None?
    ensures var mp := MasterLoop(c.masters, idOf, MasterSessions(c.masters, fails), 0);
            var sp := RunInOrder(SlaveSessions(c.slaves, c.masters[0], mp.ids, PerShard(|c.slaves|, |c.masters|), fails), 0);
            && mp.failedAt.None? && sp.failedAt.None?
            && Start(c, idOf, fails).trace == Boot(c.servers, fails, 0).trace + mp.trace + sp.trace
  {
  }

  /** The trace of a start() that formed the cluster: the server starts,
      the master phase and the replica phase. */
  lemma FormedTrace(boot: seq<Command>, mp: seq<Command>, sp: seq<Command>, masters: seq<int>, slaves: seq<int>)
    requires OpenedPorts(boot) == [] && OpenedPorts(mp) == masters && OpenedPorts(sp) == slaves
    ensures OpenedPorts(boot + mp + sp) == masters + slaves
  {
    OpenedPortsJoin(boot, mp, sp);
    assert [] + masters == masters;
  }

  /** Which clients start() opened when it did not fail in a master or a
      replica: none when a server did not start or there was no meet
      target, and every master's and then every replica's, in list order,
      when the cluster formed. */
  lemma StartOpenedClients(c: Cluster, idOf: int -> NodeId, fails: Oracle)
    ensures var r := Start(c, idOf, fails);
            && (r.outcome.ServerStartFailed? || r.outcome.NoMeetTarget? ==> OpenedPorts(r.trace) == [])
            && (r.outcome.Formed? ==> OpenedPorts(r.trace) == c.masters + c.slaves)
  {
    var r := Start(c, idOf, fails);
    var boot := Boot(c.servers, fails, 0);
    BootCommands(c.servers, fails);
    if r.outcome.Formed? {
      StartFormed(c, idOf, fails);
      var mp := MasterLoop(c.masters, idOf, MasterSessions(c.masters, fails), 0);
      var perShard := PerShard(|c.slaves|, |c.masters|);
      var sp := RunInOrder(SlaveSessions(c.slaves, c.masters[0], mp.ids, perShard, fails), 0);
      MasterPhaseOpens(c.masters, idOf, fails);
      SlavePhaseOpens(c.slaves, c.masters[0], mp.ids, perShard, fails);
      FormedTrace(boot.trace, mp.trace, sp.trace, c.masters, c.slaves);
    } else if r.outcome.ServerStartFailed? || r.outcome.NoMeetTarget? {
      assert r.trace == boot.trace;
    }
  }

  /** The trace of a start() that failed in the master phase: the server
      starts, the master phase, and the teardown. */
  lemma MasterFailureTrace(boot: seq<Command>, mp: seq<Command>, clients: seq<int>, fails: Oracle, port: int)
    requires OpenedPorts(boot) == [] && Unattached(boot)
    requires OpenedPorts(mp) == clients && Unattached(mp) && ThrewOn(mp, fails, port)
    ensures var t := boot + mp + [StopAll];
            Unattached(t) && ThrewOn(t, fails, port) && OpenedPorts(t) == clients
  {
    OpenedPortsJoin(boot, mp, [StopAll]);
    OpenedPortsNone([StopAll]);
    ThrewOnWithin(mp, boot + mp + [StopAll], fails, port);
  }

  /** How a start() that names a failing master got there: the servers
      started and the master loop stopped at the named master; the
      teardown followed. */
  lemma StartMasterFailed(c: Cluster, idOf: int -> NodeId, fails: Oracle)
    requires Start(c, idOf, fails).outcome.MasterFailed?
    ensures |c.masters| > 0 && Boot(c.servers, fails, 0).failedAt.None?
    ensures var mp := MasterLoop(c.masters, idOf, MasterSessions(c.masters, fails), 0);
            && mp.failedAt.Some?
            && Start(c, idOf, fails).trace == Boot(c.servers, fails, 0).trace + mp.trace + [StopAll]
            && Start(c, idOf, fails).outcome.port == c.masters[mp.failedAt.value]
  {
  }

  /** A failing master ends formation: a step on its port threw, the error
      names it, only the clients of the masters up to and including it
      were ever opened, and no replica was attached. */
  lemma MasterFailureStopsEarly(c: Cluster, idOf: int -> NodeId, fails: Oracle)
    ensures var r := Start(c, idOf, fails);
            r.outcome.MasterFailed? ==>
              && Unattached(r.trace)
              && ThrewOn(r.trace, fails, r.outcome.port)
              && exists f :: 0 <= f < |c.masters| && r.outcome.port == c.masters[f] && OpenedPorts(r.trace) == c.masters[..f + 1]
  {
    var r := Start(c, idOf, fails);
    if r.outcome.MasterFailed? {
      StartMasterFailed(c, idOf, fails);
      var boot := Boot(c.servers, fails, 0);
      var mp := MasterLoop(c.masters, idOf, MasterSessions(c.masters, fails), 0);
      var f := mp.failedAt.value;
      BootCommands(c.servers, fails);
      MasterPhaseOpens(c.masters, idOf, fails);
      MasterPhaseCommands(c.masters, idOf, fails);
      MasterPhaseBlame(c.masters, idOf, fails);
      assert Unattached(boot.trace) && Unattached(mp.trace);
      MasterFailureTrace(boot.trace, mp.trace, c.masters[..f + 1], fails, c.masters[f]);
    }
  }

  /** The trace of a start() that failed in the replica phase: the server
      starts and the master phase, the replica phase, and the teardown. */
  lemma SlaveFailureTrace(pre: seq<Command>, sp: seq<Command>, clients: seq<int>, fails: Oracle, port: int, orphan: bool)
    requires OpenedPorts(sp) == clients
    requires ThrewOn(sp, fails, port) || orphan
    ensures var t := pre + sp + [StopAll];
            && OpenedPorts(t) == OpenedPorts(pre) + clients
            && (ThrewOn(t, fails, port) || orphan)
  {
    OpenedPortsJoin(pre, sp, [StopAll]);
    OpenedPortsNone([StopAll]);
    if ThrewOn(sp, fails, port) {
      ThrewOnWithin(sp, pre + sp + [StopAll], fails, port);
    }
  }

  /** Why replica f failed: a step on its port threw, or it lies past the
      last full block of replicas and so had no master to follow. */
  predicate ReplicaBlamed(c: Cluster, trace: seq<Command>, fails: Oracle, f: nat)
    requires |c.masters| > 0 && f < |c.slaves|
  {
    ThrewOn(trace, fails, c.slaves[f]) || f >= PerShard(|c.slaves|, |c.masters|) * |c.masters|
  }

  /** How a start() that names a failing replica got there: the servers
      started, every master was set up, and the replica loop stopped at the
      named replica; the teardown followed. */
  lemma StartSlaveFailed(c: Cluster, idOf: int -> NodeId, fails: Oracle)
    requires Start(c, idOf, fails).outcome.SlaveFailed?
    ensures |c.masters| > 0 && Boot(c.servers, fails, 0).failedAt.None?
    ensures var mp := MasterLoop(c.masters, idOf, MasterSessions(c.masters, fails), 0);
            var sp := RunInOrder(SlaveSessions(c.slaves, c.masters[0], mp.ids, PerShard(|c.slaves|, |c.masters|), fails), 0);
            && mp.failedAt.None? && sp.failedAt.Some?
            && Start(c, idOf, fails).trace == Boot(c.servers, fails, 0).trace + mp.trace + sp.trace + [StopAll]
            && Start(c, idOf, fails).outcome.port == c.slaves[sp.failedAt.value]
  {
  }

  /** A failing replica ends formation: a step on its port threw or it had
      no master to follow (it lies past the last full block of replicas),
      the error names it, and the clients of every master and of the
      replicas up to and including it were opened, none after it. */
  lemma SlaveFailureStopsEarly(c: Cluster, idOf: int -> NodeId, fails: Oracle)
    ensures var r := Start(c, idOf, fails);
            r.outcome.SlaveFailed? ==>
              && |c.masters| > 0
              && exists f :: 0 <= f < |c.slaves| && r.outcome.port == c.slaves[f]
                   && OpenedPorts(r.trace) == c.masters + c.slaves[..f + 1]
                   && ReplicaBlamed(c, r.trace, fails, f)
  {
    var r := Start(c, idOf, fails);
    if r.outcome.SlaveFailed? {
      StartSlaveFailed(c, idOf, fails);
      var boot := Boot(c.servers, fails, 0);
      var mp := MasterLoop(c.masters, idOf, MasterSessions(c.masters, fails), 0);
      var perShard := PerShard(|c.slaves|, |c.masters|);
      var sp := RunInOrder(SlaveSessions(c.slaves, c.masters[0], mp.ids, perShard, fails), 0);
      var f := sp.failedAt.value;
      var orphan := f >= perShard * |c.masters|;
      BootCommands(c.servers, fails);
      MasterPhaseOpens(c.masters, idOf, fails);
      OpenedPortsAppend(boot.trace, mp.trace);
      SlavePhaseOpens(c.slaves, c.masters[0], mp.ids, perShard, fails);
      SlavePhaseBlame(c.slaves, c.masters[0], mp.ids, perShard, fails);
      LookupFailsFrom(mp.ids, |c.slaves|, f);
      assert OpenedPorts(boot.trace + mp.trace) == c.masters;
      SlaveFailureTrace(boot.trace + mp.trace, sp.trace, c.slaves[..f + 1], fails, c.slaves[f], orphan);
      assert ReplicaBlamed(c, r.trace, fails, f);
    }
  }

  // =====================================================================
  // The replica mapping

  lemma MulMonotone(a: int, b: int, k: int)
    requires a <= b && k >= 0
    ensures a * k <= b * k
  {
    assert b * k - a * k == (b - a) * k;
  }

  /** For a positive divisor q, i / q falls short of m exactly when i falls
      short of q * m. */
  lemma DivBelow(i: nat, q: nat, m: nat)
    requires q > 0
    ensures i / q < m <==> i < q * m
  {
    var d := i / q;
    assert i == d * q + i % q;
    if d < m {
      MulMonotone(d + 1, m, q);
    } else {
      MulMonotone(m, d, q);
    }
  }

  /** Replica i finds no master to follow exactly from index
      (replicas per master) * masters on: every replica when there are fewer
      replicas than masters, otherwise those past the last full block. */
  lemma LookupFailsFrom(ids: seq<NodeId>, replicas: nat, i: nat)
    requires |ids| > 0
    ensures Lookup(ids, PerShard(replicas, |ids|), i).None? <==> i >= PerShard(replicas, |ids|) * |ids|
  {
    var q := PerShard(replicas, |ids|);
    if q > 0 {
      DivBelow(i, q, |ids|);
    }
  }

  lemma QuotientOfProduct(k: nat, m: nat)
    requires m > 0
    ensures (k * m) / m == k
  {
    var d := (k * m) / m;
    assert k * m == d * m + (k * m) % m;
    if d < k {
      MulMonotone(d + 1, k, m);
    } else if d > k {
      MulMonotone(k + 1, d, m);
    }
  }

  /** i / k is j exactly when i lies in the block [j * k, (j + 1) * k). */
  lemma QuotientBlock(i: nat, k: nat, j: nat)
    requires k > 0
    ensures i / k == j <==> j * k <= i < (j + 1) * k
  {
    var d := i / k;
    assert i == d * k + i % k;
    assert (j + 1) * k == j * k + k;
    assert (d + 1) * k == d * k + k;
    if d < j {
      MulMonotone(d + 1, j, k);
    } else if d > j {
      MulMonotone(j + 1, d, k);
    }
  }

  /** With k replicas per master, master j is followed by exactly the
      contiguous block of replicas [j * k, (j + 1) * k). */
  lemma ReplicaBlocks(ids: seq<NodeId>, k: nat, i: nat, j: nat)
    requires k > 0 && j < |ids|
    ensures PerShard(k * |ids|, |ids|) == k
    ensures j * k <= i < (j + 1) * k <==> Lookup(ids, k, i).Some? && i / k == j
    ensures j * k <= i < (j + 1) * k ==> Lookup(ids, k, i) == Some(ids[j])
  {
    QuotientOfProduct(k, |ids|);
    QuotientBlock(i, k, j);
  }

  /** A session opened on a server that never fails completes. */
  lemma CleanSessionCompletes(port: int, body: seq<Command>, fails: Oracle)
    requires forall cmd :: !fails(cmd)
    ensures !Session(port, body, fails).failed
  {
  }

  /** The replicate command meant for each replica: replica i follows
      entry i / perShard of the identifiers. */
  function Attachments(slaves: seq<int>, ids: seq<NodeId>, perShard: nat): (r: seq<Command>)
    ensures |r| == |slaves|
  {
    seq(|slaves|, i requires 0 <= i < |slaves| =>
      var id := Lookup(ids, perShard, i);
      Replicate(slaves[i], if id.Some? then id.value else ""))
  }

  /** A completed replica phase sent exactly the intended replicate
      commands, one per replica, in replica order. */
  lemma CompletedReplications(slaves: seq<int>, target: int, ids: seq<NodeId>, k: nat, fails: Oracle)
    requires RunInOrder(SlaveSessions(slaves, target, ids, k, fails), 0).failedAt.None?
    ensures Replications(RunInOrder(SlaveSessions(slaves, target, ids, k, fails), 0).trace) == Attachments(slaves, ids, k)
  {
    var sessions := SlaveSessions(slaves, target, ids, k, fails);
    var expected := Attachments(slaves, ids, k);
    forall i | 0 <= i < |slaves|
      ensures Replications(sessions[i].issued) == [expected[i]]
    {
      var id := Lookup(ids, k, i);
      assert sessions[i] == SlaveSession(slaves[i], target, id, fails);
      SlaveSessionCompleted(slaves[i], target, id, fails);
    }
    RunInOrderReplications(sessions, expected, 0);
    assert expected[0..] == expected;
  }

  /** Every replica of a completed replica phase followed the master at
      position i / perShard: the replicate commands the phase sent are
      exactly one per replica, in replica order, replica i's naming
      ids[i / perShard]. */
  lemma CompletedReplicaPhase(slaves: seq<int>, target: int, ids: seq<NodeId>, k: nat, fails: Oracle)
    requires RunInOrder(SlaveSessions(slaves, target, ids, k, fails), 0).failedAt.None?
    ensures forall i :: 0 <= i < |slaves| ==>
              && 0 < k && i / k < |ids|
              && Replicate(slaves[i], ids[i / k]) in RunInOrder(SlaveSessions(slaves, target, ids, k, fails), 0).trace
    ensures |Replications(RunInOrder(SlaveSessions(slaves, target, ids, k, fails), 0).trace)| == |slaves|
    ensures forall i :: 0 <= i < |slaves| ==>
              Replications(RunInOrder(SlaveSessions(slaves, target, ids, k, fails), 0).trace)[i] == Replicate(slaves[i], ids[i / k])
  {
    var sessions := SlaveSessions(slaves, target, ids, k, fails);
    var sent := Replications(RunInOrder(sessions, 0).trace);
    CompletedReplications(slaves, target, ids, k, fails);
    RunInOrderIncludes(sessions, 0);
    forall i | 0 <= i < |slaves|
      ensures 0 < k && i / k < |ids|
      ensures Replicate(slaves[i], ids[i / k]) in RunInOrder(sessions, 0).trace
      ensures sent[i] == Replicate(slaves[i], ids[i / k])
    {
      var id := Lookup(ids, k, i);
      assert sessions[i] == SlaveSession(slaves[i], target, id, fails);
      SlaveSessionCompleted(slaves[i], target, id, fails);
      assert 0 < k && i / k < |ids| && id.value == ids[i / k];
      assert sent[i] == Attachments(slaves, ids, k)[i];
    }
  }

  /** When every one of s replicas finds a master among m at position
      i / (s / m), the replicas fill whole blocks: s is a multiple of m. */
  lemma WholeBlocks(s: nat, m: nat)
    requires m > 0
    requires forall i :: 0 <= i < s ==> PerShard(s, m) > 0 && i / PerShard(s, m) < m
    ensures s % m == 0
  {
    var k := PerShard(s, m);
    assert s == k * m + s % m;
    if s > 0 {
      assert k > 0 && (s - 1) / k < m;
      DivBelow(s - 1, k, m);
    }
  }

  /** The replicas in whole blocks: all of them when the count is a
      multiple of m, fewer otherwise. */
  lemma FullBlocks(s: nat, m: nat)
    requires m > 0
    ensures PerShard(s, m) * m <= s
    ensures s % m == 0 <==> PerShard(s, m) * m == s
  {
    assert s == PerShard(s, m) * m + s % m;
  }

  /** The position of the first replica past the last full block, when the
      replica count is not a multiple of the master count: the one multiple
      of m in the last, partial block. */
  function FirstOrphan(s: nat, m: nat): (r: nat)
    requires m > 0 && s % m != 0
    ensures r < s && r % m == 0 && s - r < m
  {
    FullBlocks(s, m);
    MultipleOfM(PerShard(s, m), m);
    PerShard(s, m) * m
  }

  lemma MultipleOfM(k: nat, m: nat)
    requires m > 0
    ensures (k * m) % m == 0
  {
    QuotientOfProduct(k, m);
    assert k * m == (k * m) / m * m + (k * m) % m;
  }

  /** The same by blocks: in a completed replica phase, master j's
      identifier is followed by every replica in [j * k, (j + 1) * k), and
      the replicate command sent for replica i is the one naming master j's
      identifier. */
  lemma CompletedReplicaBlocks(slaves: seq<int>, target: int, ids: seq<NodeId>, k: nat, fails: Oracle)
    requires RunInOrder(SlaveSessions(slaves, target, ids, k, fails), 0).failedAt.None?
    ensures forall i, j :: 0 <= i < |slaves| && 0 <= j < |ids| && j * k <= i < (j + 1) * k ==>
              Replicate(slaves[i], ids[j]) in RunInOrder(SlaveSessions(slaves, target, ids, k, fails), 0).trace
    ensures var sent := Replications(RunInOrder(SlaveSessions(slaves, target, ids, k, fails), 0).trace);
            && |sent| == |slaves|
            && forall i, j :: 0 <= i < |slaves| && 0 <= j < |ids| && j * k <= i < (j + 1) * k ==>
                 sent[i] == Replicate(slaves[i], ids[j])
  {
    CompletedReplicaPhase(slaves, target, ids, k, fails);
    forall i, j | 0 <= i < |slaves| && 0 <= j < |ids| && j * k <= i < (j + 1) * k
      ensures i / k == j
    {
      QuotientBlock(i, k, j);
    }
  }

  /** The replicate commands of a formed cluster's trace are those of its
      replica phase: the server starts and the master phase send none. */
  lemma FormedReplications(c: Cluster, idOf: int -> NodeId, fails: Oracle)
    requires Start(c, idOf, fails).outcome.Formed?
    ensures |c.masters| > 0
    ensures var mp := MasterLoop(c.masters, idOf, MasterSessions(c.masters, fails), 0);
            var sp := RunInOrder(SlaveSessions(c.slaves, c.masters[0], mp.ids, PerShard(|c.slaves|, |c.masters|), fails), 0);
            Replications(Start(c, idOf, fails).trace) == Replications(sp.trace)
  {
    StartFormed(c, idOf, fails);
    var boot := Boot(c.servers, fails, 0);
    var mp := MasterLoop(c.masters, idOf, MasterSessions(c.masters, fails), 0);
    var sp := RunInOrder(SlaveSessions(c.slaves, c.masters[0], mp.ids, PerShard(|c.slaves|, |c.masters|), fails), 0);
    BootCommands(c.servers, fails);
    MasterPhaseCommands(c.masters, idOf, fails);
    ReplicationsNone(boot.trace);
    ReplicationsNone(mp.trace);
    ReplicationsAppend(boot.trace + mp.trace, sp.trace);
    ReplicationsAppend(boot.trace, mp.trace);
  }

  /** A formed cluster had a multiple of the master count as its replica
      count, k per master, and master j's identifier is followed by exactly
      the replicas in [j * k, (j + 1) * k): replica i follows master
      i / k. */
  lemma FormedAttachesReplicas(c: Cluster, idOf: int -> NodeId, fails: Oracle)
    ensures var r := Start(c, idOf, fails);
            var k := if |c.masters| == 0 then 0 else PerShard(|c.slaves|, |c.masters|);
            r.outcome.Formed? ==>
              && |c.slaves| == k * |c.masters|
              && forall i, j :: 0 <= i < |c.slaves| && 0 <= j < |c.masters| && j * k <= i < (j + 1) * k ==>
                   Replicate(c.slaves[i], idOf(c.masters[j])) in r.trace
  {
    var r := Start(c, idOf, fails);
    if r.outcome.Formed? {
      StartFormed(c, idOf, fails);
      var mp := MasterLoop(c.masters, idOf, MasterSessions(c.masters, fails), 0);
      var k := PerShard(|c.slaves|, |c.masters|);
      CompletedReplicaBlocks(c.slaves, c.masters[0], mp.ids, k, fails);
      assert |c.slaves| == k * |c.masters| by {
        CompletedReplicaPhase(c.slaves, c.masters[0], mp.ids, k, fails);
        WholeBlocks(|c.slaves|, |c.masters|);
        FullBlocks(|c.slaves|, |c.masters|);
      }
    }
  }

  /** The replicate commands of a formed cluster's whole trace are exactly
      one per replica, in replica order, and the one for a replica in
      master j's block [j * k, (j + 1) * k) names the identifier master j
      reported: no other replicate command is ever sent. */
  lemma FormedReplicatesExactly(c: Cluster, idOf: int -> NodeId, fails: Oracle)
    ensures var r := Start(c, idOf, fails);
            var k := if |c.masters| == 0 then 0 else PerShard(|c.slaves|, |c.masters|);
            r.outcome.Formed? ==>
              && |Replications(r.trace)| == |c.slaves|
              && forall i, j :: 0 <= i < |c.slaves| && 0 <= j < |c.masters| && j * k <= i < (j + 1) * k ==>
                   Replications(r.trace)[i] == Replicate(c.slaves[i], idOf(c.masters[j]))
  {
    var r := Start(c, idOf, fails);
    if r.outcome.Formed? {
      StartFormed(c, idOf, fails);
      FormedReplications(c, idOf, fails);
      var mp := MasterLoop(c.masters, idOf, MasterSessions(c.masters, fails), 0);
      CompletedReplicaBlocks(c.slaves, c.masters[0], mp.ids, PerShard(|c.slaves|, |c.masters|), fails);
    }
  }

  /** When no step throws, every master completes its setup. */
  lemma CleanMasterPhase(masters: seq<int>, idOf: int -> NodeId, fails: Oracle)
    requires forall cmd :: !fails(cmd)
    ensures MasterLoop(masters, idOf, MasterSessions(masters, fails), 0).failedAt.None?
  {
    var ms := MasterSessions(masters, fails);
    forall j | 0 <= j < |masters| ensures !ms[j].failed {
      CleanSessionCompletes(masters[j], MasterBody(masters, j), fails);
    }
  }

  /** When no step throws, the replica phase stops exactly at the first
      replica past the last full block, if there is one. */
  lemma CleanReplicaPhase(slaves: seq<int>, target: int, ids: seq<NodeId>, fails: Oracle)
    requires |ids| > 0
    requires forall cmd :: !fails(cmd)
    ensures var k := PerShard(|slaves|, |ids|);
            RunInOrder(SlaveSessions(slaves, target, ids, k, fails), 0).failedAt
              == if |slaves| % |ids| == 0 then None else Some(k * |ids|)
  {
    var m := |ids|;
    var k := PerShard(|slaves|, m);
    var ss := SlaveSessions(slaves, target, ids, k, fails);
    forall i | 0 <= i < |ss| ensures ss[i].failed <==> i >= k * m {
      var id := Lookup(ids, k, i);
      CleanSessionCompletes(slaves[i], SlaveBody(slaves[i], target, id), fails);
      LookupFailsFrom(ids, |slaves|, i);
    }
    RunInOrderStopsAt(ss, k * m);
    FullBlocks(|slaves|, m);
  }

  /** Once the servers are up and every master is set up, start() forms
      the cluster exactly when the replica loop completes, and otherwise
      names the replica whose session failed. */
  lemma StartAfterMasters(c: Cluster, idOf: int -> NodeId, fails: Oracle)
    requires |c.masters| > 0 && Boot(c.servers, fails, 0).failedAt.None?
    requires MasterLoop(c.masters, idOf, MasterSessions(c.masters, fails), 0).failedAt.None?
    ensures var ids := MasterLoop(c.masters, idOf, MasterSessions(c.masters, fails), 0).ids;
            var sp := RunInOrder(SlaveSessions(c.slaves, c.masters[0], ids, PerShard(|c.slaves|, |c.masters|), fails), 0);
            && |ids| == |c.masters|
            && Start(c, idOf, fails).outcome == if sp.failedAt.None? then Formed else SlaveFailed(c.slaves[sp.failedAt.value])
  {
  }

  /** When no step throws, start() forms the cluster exactly when the
      replica count is a multiple of the master count; otherwise it fails at
      the first replica past the last full block, which has no master to
      follow. Without masters there is no meet target. */
  lemma CleanStartOutcome(c: Cluster, idOf: int -> NodeId, fails: Oracle)
    requires forall cmd :: !fails(cmd)
    ensures var r := Start(c, idOf, fails);
            r.outcome == if |c.masters| == 0 then NoMeetTarget
                         else if |c.slaves| % |c.masters| == 0 then Formed
                         else SlaveFailed(c.slaves[FirstOrphan(|c.slaves|, |c.masters|)])
  {
    assert Boot(c.servers, fails, 0).failedAt.None?;
    if |c.masters| > 0 {
      CleanMasterPhase(c.masters, idOf, fails);
      StartAfterMasters(c, idOf, fails);
      var mp := MasterLoop(c.masters, idOf, MasterSessions(c.masters, fails), 0);
      CleanReplicaPhase(c.slaves, c.masters[0], mp.ids, fails);
    }
  }
}
