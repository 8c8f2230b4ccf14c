/** How the two programs fit together: what the client sends is what the
    server's handshake and input handler expect, and what the server
    broadcasts is what the client's update loop takes in. */
module Protocol {
  import opened Wrappers
  import opened Bytes
  import opened WireCodec
  import opened GameHistories
  import opened Handshake
  import opened GameTicks
  import opened LockstepServer
  import opened LockstepClient

  /** A one-slot game: the client's `Syn`, `SynAckAck`, `JoinGame` and
      `StartReady` take its session through every state, the `SynAck` reply
      satisfies the client, the session lands in slot 0 with its name, and
      the last datagram ends the accept loop with everyone ready. */
  lemma SoloHandshake(e: Endpoint, name: seq<U8>)
    ensures var l0 := Lobby(map[], [None]);
            var (l1, r1, o1) := AcceptWaiting(l0, e, SynPayload);
            var (l2, r2, o2) := AcceptWaiting(l1, e, SynAckAckPayload);
            var (l3, r3, o3) := AcceptWaiting(l2, e, JoinPayload(name));
            var (l4, r4, o4) := AcceptWaiting(l3, e, StartReadyPayload);
            && ConnectAnswer(r1) == Some(SynAckAckPayload)
            && o1 == Continue && o2 == Continue && o3 == Continue
            && r2 == [] && r3 == [] && r4 == []
            && o4 == Ended(AllReady)
            && l4 == Lobby(map[e := PlayerData(StartGame, 0, Some(name))], [Some(e)])
  {
    var l0 := Lobby(map[], [None]);
    var l1 := l0.(byIp := map[e := PlayerData(SynAck, 0, None)]);
    assert AcceptWaiting(l0, e, SynPayload) == (l1, SynAckReply, Continue);
    var l2 := l1.(byIp := map[e := PlayerData(SynAckAck, 0, None)]);
    assert SynAckAckPayload[0] == SynAckAckTag != SynTag;
    assert l1.byIp[e := l1.byIp[e].(state := SynAckAck)] == l2.byIp;
    assert AcceptWaiting(l1, e, SynAckAckPayload) == (l2, [], Continue);
    var join := JoinPayload(name);
    assert join[0] == JoinGameTag && join[1..] == name;
    assert FirstFree(l2.byId, 0) == Some(0);
    var l3 := Lobby(map[e := PlayerData(JoinGame, 0, Some(name))], [Some(e)]);
    assert Join(l2, e, name) == l3;
    assert AcceptWaiting(l2, e, join) == (l3, [], Continue);
    var l4 := Lobby(map[e := PlayerData(StartGame, 0, Some(name))], [Some(e)]);
    assert StartReadyPayload[0] == StartReadyTag;
    assert l3.byIp[e := l3.byIp[e].(state := StartGame)] == l4.byIp;
    assert Started(l4, 0);
    assert Scan(l4, 0) == Ready;
    assert AcceptWaiting(l3, e, StartReadyPayload) == (l4, [], Ended(AllReady));
  }

  /** A key event sent by a known client is recorded under its player id:
      the console key then holds the new value, unless the key is already
      held with the other value, which ends the receive loop. */
  lemma InputReachesServer(byIp: map<Endpoint, PlayerData>, acc: map<U8, PlayerInputs>, from: Endpoint, k: KeyCode, on: bool)
    requires from in byIp && !k.OtherKey?
    ensures var code, id := MapKey(k).value, byIp[from].id;
            var r := Receive(byIp, acc, from, InputPayload(k, on).value);
            && (r.Failure? <==> code in Held(acc, id) && Held(acc, id)[code] != on)
            && (r.Failure? ==> r.error == Conflict(NotImplemented(id, code)))
            && (r.Success? ==> Held(r.value, id) == Held(acc, id)[code := on])
  {
    var payload := InputPayload(k, on).value;
    var id := byIp[from].id;
    assert payload[0] == PlayerInputTag;
    RecordFails(acc, id, payload);
    if Record(acc, id, payload).Success? {
      RecordUpdates(acc, id, payload);
    }
  }

  /** Every step the tick broadcasts is the new step or one stored in the
      history. */
  lemma BroadcastFromHistory(st: ServerState, elapsed: U8)
    ensures var coll := GameTicks.Tick(st, elapsed).1;
            forall s :: s in coll ==> s == NextStep(st, elapsed) || exists k :: k in st.history.steps && st.history.steps[k] == s
  {
    var step := NextStep(st, elapsed);
    var h := Added(st.history, step);
    var coll := GameTicks.Tick(st, elapsed).1;
    forall s | s in coll
      ensures s == step || exists k :: k in st.history.steps && st.history.steps[k] == s
    {
      if s != step {
        assert s in Present(h.steps, RedundantNumbers(st.stepNumber));
        var k :| k in h.steps && h.steps[k] == s;
        assert k != step.stepNumber;
        assert k in st.history.steps && st.history.steps[k] == s;
      }
    }
  }

  /** The broadcast decodes, newest first, on the client. */
  lemma BroadcastDecodes(st: ServerState, elapsed: U8, cst: ClientState)
    requires Keyed(st.history.steps)
    requires forall k :: k in st.history.steps ==> WellFormedStep(st.history.steps[k])
    requires WellFormedStep(NextStep(st, elapsed))
    ensures var coll := GameTicks.Tick(st, elapsed).1;
            Intake(cst, EncodeCollection(GameStepCollection(coll))) == Admit(cst, OrderByDescendingStep(coll))
  {
    var coll := GameTicks.Tick(st, elapsed).1;
    TickCollection(st, elapsed);
    BroadcastFromHistory(st, elapsed);
    var c := GameStepCollection(coll);
    CollectionRoundTrip(c, []);
    var datagram := EncodeCollection(c);
    assert datagram + [] == datagram;
    assert datagram[0] == CollectionTag;
  }

  /** Newest first, the broadcast starts with the tick's own step. */
  lemma BroadcastNewest(st: ServerState, elapsed: U8)
    requires Keyed(st.history.steps)
    ensures var sorted := OrderByDescendingStep(GameTicks.Tick(st, elapsed).1);
            sorted != [] && sorted[0].stepNumber == st.stepNumber
  {
    var step := NextStep(st, elapsed);
    var coll := GameTicks.Tick(st, elapsed).1;
    TickCollection(st, elapsed);
    var sorted := OrderByDescendingStep(coll);
    SortedSameSteps(coll);
    assert coll[0] == step;
    assert step in sorted;
    var top := sorted[0];
    assert top in coll;
    var i :| 0 <= i < |coll| && coll[i] == top;
    var j :| 0 <= j < |sorted| && sorted[j] == step;
    assert top.stepNumber >= step.stepNumber;
  }

  /** A broadcast is taken whole when the tick's step number is at most
      `MaxLead` ahead of the highest step the client has seen; otherwise
      the client disconnects on it and takes nothing. */
  lemma BroadcastReachesClient(st: ServerState, elapsed: U8, cst: ClientState)
    requires Keyed(st.history.steps)
    requires forall k :: k in st.history.steps ==> WellFormedStep(st.history.steps[k])
    requires WellFormedStep(NextStep(st, elapsed))
    ensures var sorted := OrderByDescendingStep(GameTicks.Tick(st, elapsed).1);
            var (cst', out) := Intake(cst, EncodeCollection(GameStepCollection(GameTicks.Tick(st, elapsed).1)));
            && (st.stepNumber <= cst.highest + MaxLead ==>
                  cst' == cst.(history := AddAll(cst.history, sorted), highest := RunMax(cst.highest, sorted)) && out == Listening)
            && (st.stepNumber > cst.highest + MaxLead ==> cst' == cst && out == Stopped(Disconnected(st.stepNumber)))
  {
    var sorted := OrderByDescendingStep(GameTicks.Tick(st, elapsed).1);
    BroadcastDecodes(st, elapsed, cst);
    BroadcastNewest(st, elapsed);
    AllOrNothing(cst.highest, sorted);
    if st.stepNumber <= cst.highest + MaxLead {
      assert sorted[..|sorted|] == sorted;
    } else {
      assert sorted[..0] == [];
    }
  }
}
