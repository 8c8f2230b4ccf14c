/** The connection handshake of LockstepServer/Server.cs
    (`AcceptPlayerConnections`): one step per received datagram, over the
    sessions keyed by endpoint (`_playersByIp`) and the player slots
    (`_playersById`). A slot holds the endpoint of the session placed in it,
    so the slot and the dictionary share one session record as in the source. */
module Handshake {
  import opened Wrappers
  import opened Bytes
  import Messages

  const SynTag: U8 := Messages.ClientMessage.Syn.Tag()
  const SynAckAckTag: U8 := Messages.ClientMessage.SynAckAck.Tag()
  const JoinGameTag: U8 := Messages.ClientMessage.JoinGame.Tag()
  const StartReadyTag: U8 := Messages.ClientMessage.StartReady.Tag()

  /** The only reply the handshake sends: `SynAck` to a `Syn`. */
  const SynAckReply: seq<U8> := [Messages.ServerMessage.SynAck.Tag()]

  /** `_minPlayerCount`. */
  const MinPlayerCount := 1

  /** `IPEndPoint`: where a datagram came from. */
  datatype Endpoint = Endpoint(address: nat, port: nat)

  /** `PlayerState`; the handshake never assigns `InGame` or `ExitGame`. */
  datatype PlayerState = SynAck | SynAckAck | JoinGame | StartGame | InGame | ExitGame

  /** `PlayerData` without its socket and join time. `name` is null until
      `JoinGame`, and is kept as the raw bytes after the tag. */
  datatype PlayerData = PlayerData(state: PlayerState, id: U8, name: Option<seq<U8>>)

  datatype Lobby = Lobby(byIp: map<Endpoint, PlayerData>, byId: seq<Option<Endpoint>>)

  /** Why the accept loop stops: the break once everyone is ready, or an
      exception caught around the loop (an empty datagram has no tag, a
      second `Syn` makes `Dictionary.Add` throw, a null slot is dereferenced). */
  datatype EndReason = AllReady | EmptyDatagram | DuplicateSyn | NullSlot

  datatype Outcome = Continue | Ended(reason: EndReason)

  predicate Joined(s: PlayerState) {
    s == JoinGame || s == StartGame
  }

  /** A placed session is registered, has joined, carries its slot index as
      its id, and sits in no other slot. */
  predicate ValidLobby(l: Lobby) {
    forall i :: 0 <= i < |l.byId| && l.byId[i].Some? ==>
      && l.byId[i].value in l.byIp
      && l.byIp[l.byId[i].value].id == ByteOf(i)
      && Joined(l.byIp[l.byId[i].value].state)
      && forall j :: 0 <= j < |l.byId| && j != i ==> l.byId[j] != l.byId[i]
  }

  /** The state change a `SynAckAck`, `JoinGame` or `StartReady` makes to a
      registered session: each is accepted in exactly one state. */
  function Advance(s: PlayerState, tag: U8): PlayerState {
    if tag == SynAckAckTag && s == SynAck then SynAckAck
    else if tag == JoinGameTag && s == SynAckAck then JoinGame
    else if tag == StartReadyTag && s == JoinGame then StartGame
    else s
  }

  /** The slot search: the lowest null slot at or after `from`. */
  function FirstFree(slots: seq<Option<Endpoint>>, from: nat): (r: Option<nat>)
    requires from <= |slots|
    ensures r.Some? ==> from <= r.value < |slots| && slots[r.value].None?
    ensures forall j :: from <= j < |slots| && (r.None? || j < r.value) ==> slots[j].Some?
    decreases |slots| - from
  {
    if from == |slots| then None
    else if slots[from].None? then Some(from)
    else FirstFree(slots, from + 1)
  }

  predicate Started(l: Lobby, j: int)
    requires 0 <= j < |l.byId|
  {
    l.byId[j].Some? && l.byId[j].value in l.byIp && l.byIp[l.byId[j].value].state == StartGame
  }

  datatype Readiness = Ready | NotReady | NullSlotHit

  /** `_playersById.All(p => p.State == StartGame)` from slot `i` on: it stops
      at the first slot that is not ready, and dereferencing a null slot
      before that throws. */
  function Scan(l: Lobby, i: nat): (r: Readiness)
    requires i <= |l.byId|
    ensures r == Ready <==> forall j :: i <= j < |l.byId| ==> Started(l, j)
    decreases |l.byId| - i
  {
    if i == |l.byId| then Ready
    else match l.byId[i]
      case None => assert !Started(l, i); NullSlotHit
      case Some(e) => if e in l.byIp && l.byIp[e].state == StartGame then Scan(l, i + 1) else assert !Started(l, i); NotReady
  }

  /** An accepted `JoinGame`: set the name and the state, then take the
      lowest null slot, if any, whose index becomes the id. */
  function Join(l: Lobby, from: Endpoint, name: seq<U8>): Lobby
    requires from in l.byIp
  {
    var p := l.byIp[from].(name := Some(name), state := JoinGame);
    match FirstFree(l.byId, 0)
    case Some(i) => Lobby(l.byIp[from := p.(id := ByteOf(i))], l.byId[i := Some(from)])
    case None => Lobby(l.byIp[from := p], l.byId)
  }

  /** One turn of the accept loop: the new lobby, the reply sent back to
      `from` (empty for none) and whether the loop goes on. */
  function Accept(l: Lobby, from: Endpoint, packet: seq<U8>): (Lobby, seq<U8>, Outcome) {
    if packet == [] then (l, [], Ended(EmptyDatagram))
    else if packet[0] == SynTag then
      if from in l.byIp then (l, [], Ended(DuplicateSyn))
      else (l.(byIp := l.byIp[from := PlayerData(SynAck, 0, None)]), SynAckReply, Continue)
    else if packet[0] == SynAckAckTag then
      if from in l.byIp && l.byIp[from].state == SynAck then
        (l.(byIp := l.byIp[from := l.byIp[from].(state := SynAckAck)]), [], Continue)
      else (l, [], Continue)
    else if packet[0] == JoinGameTag then
      if from in l.byIp && l.byIp[from].state == SynAckAck then (Join(l, from, packet[1..]), [], Continue)
      else (l, [], Continue)
    else if packet[0] == StartReadyTag then
      if from in l.byIp && l.byIp[from].state == JoinGame then
        var l' := l.(byIp := l.byIp[from := l.byIp[from].(state := StartGame)]);
        var out :=
          if |l'.byId| < MinPlayerCount then Continue
          else match Scan(l', 0)
            case Ready => Ended(AllReady)
            case NullSlotHit => Ended(NullSlot)
            case NotReady => Continue;
        (l', [], out)
      else (l, [], Continue)
    else (l, [], Continue)
  }

  /** Every turn keeps the lobby consistent. */
  lemma AcceptKeepsValid(l: Lobby, from: Endpoint, packet: seq<U8>)
    requires ValidLobby(l)
    ensures ValidLobby(Accept(l, from, packet).0)
  {
    if packet != [] && packet[0] == JoinGameTag && from in l.byIp && l.byIp[from].state == SynAckAck {
      var l' := Join(l, from, packet[1..]);
      forall i | 0 <= i < |l'.byId| && l'.byId[i].Some?
        ensures l'.byId[i].value in l'.byIp && l'.byIp[l'.byId[i].value].id == ByteOf(i)
        ensures Joined(l'.byIp[l'.byId[i].value].state)
        ensures forall j :: 0 <= j < |l'.byId| && j != i ==> l'.byId[j] != l'.byId[i]
      {
        if l.byId[i].Some? {
          assert l.byId[i].value != from;
        }
      }
    }
  }

  /** A `Syn` from an unknown endpoint opens a session in `SynAck` and is
      answered with the single byte `SynAck`; from a known one it ends the loop. */
  lemma SynRegisters(l: Lobby, from: Endpoint, packet: seq<U8>)
    requires packet != [] && packet[0] == SynTag
    ensures var (l', reply, out) := Accept(l, from, packet);
            if from in l.byIp then l' == l && out == Ended(DuplicateSyn)
            else l'.byIp == l.byIp[from := PlayerData(SynAck, 0, None)] && l'.byId == l.byId
                 && reply == [1] && out == Continue
  {
  }

  /** Any other datagram with a tag leaves the set of sessions and the other
      sessions alone, replies nothing, and moves the sender's session as
      `Advance` says. */
  lemma AcceptAdvances(l: Lobby, from: Endpoint, packet: seq<U8>)
    requires packet != [] && packet[0] != SynTag
    ensures var (l', reply, out) := Accept(l, from, packet);
            && l'.byIp.Keys == l.byIp.Keys
            && reply == []
            && (out == Continue || out == Ended(AllReady) || out == Ended(NullSlot))
            && (forall e :: e in l.byIp && e != from ==> l'.byIp[e] == l.byIp[e])
            && (from in l.byIp ==> l'.byIp[from].state == Advance(l.byIp[from].state, packet[0]))
            && (from !in l.byIp ==> l' == l && out == Continue)
  {
  }

  /** An accepted `JoinGame` records the name and takes the lowest null
      slot, whose index becomes the id; with no slot free the session keeps
      its id and is not placed. */
  lemma JoinTakesLowestSlot(l: Lobby, from: Endpoint, packet: seq<U8>)
    requires packet != [] && packet[0] == JoinGameTag
    requires from in l.byIp && l.byIp[from].state == SynAckAck
    ensures var l' := Accept(l, from, packet).0;
            && l'.byIp[from].name == Some(packet[1..])
            && l'.byIp[from].state == JoinGame
            && |l'.byId| == |l.byId|
            && if exists i :: 0 <= i < |l.byId| && l.byId[i].None? then
                 exists i :: 0 <= i < |l.byId| && l.byId[i].None?
                   && (forall j :: 0 <= j < i ==> l.byId[j].Some?)
                   && l'.byId == l.byId[i := Some(from)] && l'.byIp[from].id == ByteOf(i)
               else l'.byId == l.byId && l'.byIp[from].id == l.byIp[from].id
  {
  }

  /** An accepted `StartReady` ends the loop with everyone ready exactly
      when there is at least one slot and every slot holds a started
      session. */
  lemma ReadyEndsLoop(l: Lobby, from: Endpoint, packet: seq<U8>)
    requires packet != [] && packet[0] == StartReadyTag
    requires from in l.byIp && l.byIp[from].state == JoinGame
    ensures var (l', _, out) := Accept(l, from, packet);
            out == Ended(AllReady) <==> |l'.byId| >= 1 && forall j :: 0 <= j < |l'.byId| ==> Started(l', j)
  {
  }

  /** Only the ready check ends the loop without an exception. */
  lemma OnlyReadyEndsCleanly(l: Lobby, from: Endpoint, packet: seq<U8>)
    ensures var (l', _, out) := Accept(l, from, packet);
            out == Ended(AllReady) ==> |l'.byId| >= 1 && forall j :: 0 <= j < |l'.byId| ==> Started(l', j)
  {
  }

  // ---------------------------------------------------------------- an early StartReady

  /** As written: one slot holds a session that has just joined, the other
      is still empty. Its `StartReady` makes the ready check dereference the
      empty slot, and the exception ends the loop; the exception is caught
      inside the accepting task, so the game goes ahead with a slot empty. */
  lemma EarlyReadyEndsLoop(a: Endpoint, name: seq<U8>)
    ensures var l := Lobby(map[a := PlayerData(JoinGame, 0, Some(name))], [Some(a), None]);
            var (l', _, out) := Accept(l, a, [StartReadyTag]);
            && ValidLobby(l)
            && out == Ended(NullSlot)
            && l'.byId[1] == None
  {
    var l := Lobby(map[a := PlayerData(JoinGame, 0, Some(name))], [Some(a), None]);
    var l' := Accept(l, a, [StartReadyTag]).0;
    assert l'.byId == [Some(a), None];
    assert Started(l', 0);
    assert Scan(l', 1) == NullSlotHit;
  }

  /** The turn as evidently intended: a null slot counts as not ready, so
      the loop waits for the missing players. Everything else is as in
      `Accept`. */
  function AcceptWaiting(l: Lobby, from: Endpoint, packet: seq<U8>): (r: (Lobby, seq<U8>, Outcome))
    ensures r.2 != Ended(NullSlot)
    ensures r.2 != Accept(l, from, packet).2 ==> Accept(l, from, packet).2 == Ended(NullSlot) && r.2 == Continue
  {
    var (l', reply, out) := Accept(l, from, packet);
    (l', reply, if out == Ended(NullSlot) then Continue else out)
  }

  /** With the correction, a `StartReady` ends the loop exactly when it is
      accepted and afterwards every slot holds a started session. */
  lemma WaitingStartsOnlyWhenFull(l: Lobby, from: Endpoint, packet: seq<U8>)
    requires packet != [] && packet[0] == StartReadyTag
    ensures var (l', _, out) := AcceptWaiting(l, from, packet);
            out.Ended? <==> && from in l.byIp && l.byIp[from].state == JoinGame
                            && |l'.byId| >= 1 && forall j :: 0 <= j < |l'.byId| ==> Started(l', j)
  {
  }

  /** The lobby of `EarlyReadyEndsLoop` keeps waiting under the correction. */
  lemma EarlyReadyWaits(a: Endpoint, name: seq<U8>)
    ensures var l := Lobby(map[a := PlayerData(JoinGame, 0, Some(name))], [Some(a), None]);
            AcceptWaiting(l, a, [StartReadyTag]).2 == Continue
  {
    EarlyReadyEndsLoop(a, name);
  }

  // ---------------------------------------------------------------- handshake order

  /** A registered session's state after a run of messages, where a `Syn`
      leaves the state as it is. In the accept loop a repeated `Syn` from a
      known endpoint instead ends the loop with `DuplicateSyn` (see `Accept`);
      this function follows only the session's state. */
  function Run(s: PlayerState, tags: seq<U8>): PlayerState
    decreases tags
  {
    if tags == [] then s else Run(Advance(s, tags[0]), tags[1..])
  }

  /** The messages still needed to reach `StartGame`, in order. */
  function Needed(s: PlayerState): seq<U8>
    requires !s.InGame? && !s.ExitGame?
  {
    match s
    case SynAck => [SynAckAckTag, JoinGameTag, StartReadyTag]
    case SynAckAck => [JoinGameTag, StartReadyTag]
    case JoinGame => [StartReadyTag]
    case StartGame => []
  }

  /** `w` occurs in `tags` as a (not necessarily contiguous) subsequence. */
  predicate IsSubsequence(w: seq<U8>, tags: seq<U8>) {
    if w == [] then true
    else if tags == [] then false
    else if w[0] == tags[0] then IsSubsequence(w[1..], tags[1..])
    else IsSubsequence(w, tags[1..])
  }

  /** A session reaches `StartGame` exactly when `SynAckAck`, `JoinGame` and
      `StartReady` arrive in that order (other messages in between change
      nothing). */
  lemma {:induction false} HandshakeOrder(s: PlayerState, tags: seq<U8>)
    requires !s.InGame? && !s.ExitGame?
    ensures Run(s, tags) == StartGame <==> IsSubsequence(Needed(s), tags)
    decreases tags
  {
    if tags != [] {
      HandshakeOrder(Advance(s, tags[0]), tags[1..]);
    }
  }
}
