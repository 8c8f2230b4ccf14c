/** The `Server` class of LockstepServer/Server.cs with the network removed:
    each received datagram is a method argument, each datagram sent is a
    result, and each locked region is one method. */
module LockstepServer {
  import opened Wrappers
  import opened Bytes
  import opened WireCodec
  import opened GameHistories
  import opened Handshake
  import opened GameTicks
  import Messages
  import Seqs

  /** Why the input receive loop stops: the sender has no session
      (`_playersByIp[...]` throws), the datagram has no tag, or a recorded
      code arrives with the other value. */
  datatype ReceiveError = UnknownEndpoint(from: Endpoint) | NoTag | Conflict(error: InputError)

  const PlayerInputTag: U8 := Messages.ClientMessage.PlayerInput.Tag()

  /** One turn of the input receive loop: look up the sender's id, then
      hand `PlayerInput` datagrams to `HandlePlayerInput`; other tags are
      ignored. */
  function Receive(byIp: map<Endpoint, PlayerData>, acc: map<U8, PlayerInputs>, from: Endpoint, packet: seq<U8>): Result<map<U8, PlayerInputs>, ReceiveError> {
    if from !in byIp then Failure(UnknownEndpoint(from))
    else if packet == [] then Failure(NoTag)
    else if packet[0] != PlayerInputTag then Success(acc)
    else match Record(acc, byIp[from].id, packet)
      case Success(acc') => Success(acc')
      case Failure(e) => Failure(Conflict(e))
  }

  class Server {
    /** `_playersById`: the endpoint of the session in each slot. */
    const byId: array<Option<Endpoint>>
    /** `_playersByIp`. */
    var byIp: map<Endpoint, PlayerData>
    /** `_curPlayerInputs`. */
    var acc: map<U8, PlayerInputs>
    /** `_gameHistory`. */
    const history: GameHistory
    /** `_stepNumber`. */
    var stepNumber: U16

    function LobbyState(): Lobby
      reads this, byId
    {
      Lobby(byIp, byId[..])
    }

    function GameState(): ServerState
      reads this, history
    {
      ServerState(acc, history.State(), stepNumber)
    }

    ghost predicate Valid()
      reads this, byId, history
    {
      && ValidLobby(LobbyState())
      && ValidAccumulator(acc)
      && Keyed(history.steps)
      && history.size == HistorySize
    }

    /** `new Server(numPlayers)` up to the first accept loop. */
    constructor(numPlayers: nat)
      ensures Valid() && fresh(byId) && fresh(history)
      ensures LobbyState() == Lobby(map[], seq(numPlayers, _ => None))
      ensures GameState() == Fresh0()
    {
      history := new GameHistory(HistorySize);
      acc := map[];
      stepNumber := 0;
      byId := new Option<Endpoint>[numPlayers](_ => None);
      byIp := map[];
    }

    /** One turn of `AcceptPlayerConnections`, with a null slot counted as
        not ready. */
    method Accept(from: Endpoint, packet: seq<U8>) returns (reply: seq<U8>, out: Outcome)
      requires Valid()
      modifies this, byId
      ensures Valid()
      ensures (LobbyState(), reply, out) == AcceptWaiting(old(LobbyState()), from, packet)
      ensures GameState() == old(GameState())
    {
      ghost var before := LobbyState();
      AcceptKeepsValid(before, from, packet);
      reply, out := [], Continue;
      if packet == [] {
        out := Ended(EmptyDatagram);
      } else if packet[0] == SynTag {
        if from in byIp {
          out := Ended(DuplicateSyn);
        } else {
          byIp := byIp[from := PlayerData(SynAck, 0, None)];
          reply := SynAckReply;
        }
      } else if packet[0] == SynAckAckTag {
        if from in byIp && byIp[from].state == SynAck {
          byIp := byIp[from := byIp[from].(state := SynAckAck)];
        }
      } else if packet[0] == JoinGameTag {
        if from in byIp && byIp[from].state == SynAckAck {
          var p := byIp[from].(name := Some(packet[1..]), state := JoinGame);
          var id := 0;
          while id < byId.Length && byId[id].Some?
            invariant 0 <= id <= byId.Length
            invariant forall j :: 0 <= j < id ==> byId[j].Some?
            invariant byIp == before.byIp && byId[..] == before.byId
          {
            id := id + 1;
          }
          assert FirstFree(before.byId, 0) == if id < byId.Length then Some(id) else None;
          if id < byId.Length {
            byIp := byIp[from := p.(id := ByteOf(id))];
            byId[id] := Some(from);
          } else {
            byIp := byIp[from := p];
          }
        }
      } else if packet[0] == StartReadyTag {
        if from in byIp && byIp[from].state == JoinGame {
          byIp := byIp[from := byIp[from].(state := StartGame)];
          if byId.Length >= MinPlayerCount {
            var r := Scan(LobbyState(), 0);
            if r == Ready {
              out := Ended(AllReady);
            }
          }
        }
      }
    }

    /** `HandlePlayerInput(playerId, data)`. */
    method HandlePlayerInput(id: U8, data: seq<U8>) returns (r: Result<(), InputError>)
      requires Valid()
      modifies this
      ensures Valid()
      ensures Record(old(acc), id, data).Success? ==> r.Success? && acc == Record(old(acc), id, data).value
      ensures Record(old(acc), id, data).Failure? ==> r == Failure(Record(old(acc), id, data).error) && acc == old(acc)
      ensures byIp == old(byIp) && stepNumber == old(stepNumber)
    {
      ghost var before := acc;
      if |data| != 3 {
        return Success(());
      }
      var entry: PlayerInputs;
      if id in acc {
        entry := acc[id];
      } else {
        entry := PlayerInputs(id, []);
        acc := acc[id := entry];
        assert ToMap([]) == map[];
      }
      var code, v := data[1], data[2] != 0;
      var held := ToMap(entry.inputs);
      if code !in held {
        acc := acc[id := PlayerInputs(entry.playerId, entry.inputs + [Input(code, v)])];
      } else if held[code] != v {
        return Failure(NotImplemented(id, code));
      }
      RecordKeepsValid(before, id, data);
      return Success(());
    }

    /** One turn of the input receive loop. */
    method ReceiveInput(from: Endpoint, packet: seq<U8>) returns (r: Result<(), ReceiveError>)
      requires Valid()
      modifies this
      ensures Valid()
      ensures Receive(old(byIp), old(acc), from, packet).Success? ==> r.Success? && acc == Receive(old(byIp), old(acc), from, packet).value
      ensures Receive(old(byIp), old(acc), from, packet).Failure? ==> r == Failure(Receive(old(byIp), old(acc), from, packet).error) && acc == old(acc)
      ensures byIp == old(byIp) && stepNumber == old(stepNumber)
    {
      if from !in byIp {
        return Failure(UnknownEndpoint(from));
      }
      var playerId := byIp[from].id;
      if packet == [] {
        return Failure(NoTag);
      }
      if packet[0] == PlayerInputTag {
        var e := HandlePlayerInput(playerId, packet);
        if e.Failure? {
          return Failure(Conflict(e.error));
        }
      }
      return Success(());
    }

    /** The per-player loop of `SendPlayerUpdates` when the previous step
        exists: every accumulated entry, reduced to its delta where the
        previous step has an entry for that player. */
    method BuildDeltas(last: GameStep) returns (players: map<U8, PlayerInputs>)
      ensures players == Deltas(acc, last)
    {
      players := map[];
      var ids := acc.Keys;
      while ids != {}
        invariant ids <= acc.Keys
        invariant forall k :: k in players <==> k in acc && k !in ids
        invariant forall k :: k in players ==> players[k] == DeltaFor(acc[k], last, k)
        decreases ids
      {
        var id :| id in ids;
        var cur := acc[id];
        if id in last.players {
          var changed := Changed(cur.inputs, ToMap(last.players[id].inputs));
          players := players[id := PlayerInputs(id, changed)];
        } else {
          players := players[id := cur];
        }
        ids := ids - {id};
      }
      Seqs.MapExt(players, Deltas(acc, last));
    }

    /** The two `TryGet` calls that add older steps to the broadcast. */
    method RedundantSteps(n: U16) returns (older: seq<GameStep>)
      ensures older == Present(history.steps, RedundantNumbers(n))
    {
      older := [];
      if n >= 1 {
        var r := history.TryGet(Max0(n as int - 2));
        if r.Some? {
          older := older + [r.value];
        }
      }
      if n >= 3 {
        var r := history.TryGet(Max0(n as int - 8));
        if r.Some? {
          older := older + [r.value];
        }
      }
      assert RedundantNumbers(n) == (if n >= 1 then [Max0(n as int - 2)] else []) + (if n >= 3 then [Max0(n as int - 8)] else []);
    }

    /** The step a tick builds from the accumulator and the previous step. */
    method BuildStep(elapsed: U8) returns (step: GameStep)
      ensures step == NextStep(GameState(), elapsed)
    {
      var n := stepNumber;
      var players: map<U8, PlayerInputs>;
      var last := history.TryGet(Wrap16(n as int - 1));
      if history.Count() > 0 && last.Some? {
        players := BuildDeltas(last.value);
      } else {
        players := acc;
      }
      step := GameStep(n, elapsed, players);
    }

    /** Clear the accumulator, store the step and advance the step number. */
    method Commit(step: GameStep)
      requires Valid()
      modifies this, history
      ensures Valid()
      ensures GameState() == ServerState(map[], Added(old(history.State()), step), Inc16(old(stepNumber)))
      ensures LobbyState() == old(LobbyState())
    {
      AddKeepsKeyed(history.State(), step);
      acc := map[];
      history.Add(step);
      stepNumber := Inc16(stepNumber);
      assert byIp == old(byIp);
    }

    /** The locked body of one `SendPlayerUpdates` iteration, corrected so
        that the accumulator is copied into the step and cleared on every
        tick, including the first: returns the datagram broadcast to every
        player. The tick exactly as written, where the first step shares the
        accumulator, is `GameTicks.TickAsWritten`. */
    method Tick(elapsed: U8) returns (datagram: seq<U8>)
      requires Valid()
      modifies this, history
      ensures Valid()
      ensures GameState() == GameTicks.Tick(old(GameState()), elapsed).0
      ensures datagram == EncodeCollection(GameStepCollection(GameTicks.Tick(old(GameState()), elapsed).1))
      ensures LobbyState() == old(LobbyState())
    {
      var n := stepNumber;
      var step := BuildStep(elapsed);
      Commit(step);
      var older := RedundantSteps(n);
      datagram := EncodeCollection(GameStepCollection([step] + older));
    }
  }
}
