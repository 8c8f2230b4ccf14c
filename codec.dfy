/** The binary wire format of LockstepBase/DataStructures.cs: `PlayerInputs`,
    `GameStep` and `GameStepCollection`, each written by `SerializeToBuff` and
    read back by a `BinaryReader` constructor. Decoders take the bytes still to
    be read and return the value with the bytes left over; running out of
    bytes, a wrong tag or a key `Dictionary.Add` rejects is a `DecodeError`. */
module WireCodec {
  import opened Wrappers
  import opened Bytes
  import Messages
  import opened Seqs

  /** One input code (a `ConsoleKey` cast to a byte) and whether it is pressed. */
  datatype Input = Input(code: U8, pressed: bool)

  /** `Inputs` is a `Dictionary<ConsoleKey, bool>`; it is kept here as the list of
      its entries in enumeration (insertion) order, which is the order the encoder
      writes them in. */
  datatype PlayerInputs = PlayerInputs(playerId: U8, inputs: seq<Input>)

  datatype GameStep = GameStep(stepNumber: U16, elapsedMs: U8, players: map<U8, PlayerInputs>)

  datatype GameStepCollection = GameStepCollection(steps: seq<GameStep>)

  datatype DecodeError = EndOfStream | UnexpectedMessage(tag: U8) | DuplicatePlayer(id: U8) | DuplicateInput(code: U8)

  type Decoded<T> = Result<(T, seq<U8>), DecodeError>

  const CollectionTag: U8 := Messages.ServerMessage.GameStepCollection.Tag()

  function Codes(inputs: seq<Input>): set<U8> {
    set i | i in inputs :: i.code
  }

  /** The keys of a dictionary are distinct. */
  predicate DistinctCodes(inputs: seq<Input>) {
    forall i, j :: 0 <= i < j < |inputs| ==> inputs[i].code != inputs[j].code
  }

  /** The dictionary an entry list stands for. */
  function ToMap(inputs: seq<Input>): (m: map<U8, bool>)
    ensures m.Keys == Codes(inputs)
  {
    if inputs == [] then map[]
    else
      var last := inputs[|inputs| - 1];
      assert inputs == inputs[..|inputs| - 1] + [last];
      ToMap(inputs[..|inputs| - 1])[last.code := last.pressed]
  }

  lemma {:induction false} ToMapAt(inputs: seq<Input>, i: nat)
    requires DistinctCodes(inputs) && i < |inputs|
    ensures inputs[i].code in ToMap(inputs) && ToMap(inputs)[inputs[i].code] == inputs[i].pressed
  {
    if i < |inputs| - 1 {
      ToMapAt(inputs[..|inputs| - 1], i);
    }
  }

  predicate WellFormedInputs(p: PlayerInputs) {
    |p.inputs| < 256 && DistinctCodes(p.inputs)
  }

  /** Every entry is keyed by its own `PlayerId`, and both counts fit their count byte. */
  predicate WellFormedStep(s: GameStep) {
    && |s.players| < 256
    && forall id :: id in s.players ==> s.players[id].playerId == id && WellFormedInputs(s.players[id])
  }

  // ---------------------------------------------------------------- PlayerInputs

  function EncodeInputs(inputs: seq<Input>): (r: seq<U8>)
    ensures |r| == 2 * |inputs|
  {
    if inputs == [] then []
    else [inputs[0].code, if inputs[0].pressed then 1 else 0] + EncodeInputs(inputs[1..])
  }

  /** `[PlayerId][KeyCount][Key1][Val1]..[KeyN][ValN]`; the count byte is `(byte)Inputs.Count`. */
  function EncodePlayerInputs(p: PlayerInputs): seq<U8> {
    [p.playerId, ByteOf(|p.inputs|)] + EncodeInputs(p.inputs)
  }

  /** Reads `count` key/value pairs; only the value byte 1 reads as pressed. */
  function DecodeInputs(s: seq<U8>, count: nat, acc: seq<Input>): (r: Decoded<seq<Input>>)
    requires DistinctCodes(acc)
    ensures r.Success? ==> DistinctCodes(r.value.0) && |r.value.0| == |acc| + count
    decreases count
  {
    if count == 0 then Success((acc, s))
    else if |s| < 2 then Failure(EndOfStream)
    else if s[0] in Codes(acc) then Failure(DuplicateInput(s[0]))
    else DecodeInputs(s[2..], count - 1, acc + [Input(s[0], s[1] == 1)])
  }

  function DecodePlayerInputs(s: seq<U8>): (r: Decoded<PlayerInputs>)
    ensures r.Success? ==> |r.value.0.inputs| < 256 && DistinctCodes(r.value.0.inputs)
  {
    if |s| < 2 then Failure(EndOfStream)
    else
      var d :- DecodeInputs(s[2..], s[1], []);
      Success((PlayerInputs(s[0], d.0), d.1))
  }

  lemma {:induction false} InputsRoundTrip(inputs: seq<Input>, acc: seq<Input>, rest: seq<U8>)
    requires DistinctCodes(acc + inputs)
    ensures DistinctCodes(acc)
    ensures DecodeInputs(EncodeInputs(inputs) + rest, |inputs|, acc) == Success((acc + inputs, rest))
  {
    assert forall i :: 0 <= i < |acc| ==> acc[i] == (acc + inputs)[i];
    if inputs != [] {
      var x := inputs[0];
      var s := EncodeInputs(inputs) + rest;
      assert s == [x.code, if x.pressed then 1 else 0] + (EncodeInputs(inputs[1..]) + rest);
      forall i | 0 <= i < |acc| ensures acc[i].code != x.code {
        assert acc[i] == (acc + inputs)[i] && x == (acc + inputs)[|acc|];
      }
      assert x.code !in Codes(acc);
      assert acc + [x] + inputs[1..] == acc + inputs;
      InputsRoundTrip(inputs[1..], acc + [x], rest);
    } else {
      assert EncodeInputs(inputs) + rest == rest;
      assert acc + inputs == acc;
    }
  }

  /** Decoding what `SerializeToBuff` wrote restores the player id and the entries. */
  lemma PlayerInputsRoundTrip(p: PlayerInputs, rest: seq<U8>)
    requires WellFormedInputs(p)
    ensures DecodePlayerInputs(EncodePlayerInputs(p) + rest) == Success((p, rest))
  {
    var s := EncodePlayerInputs(p) + rest;
    assert s[2..] == EncodeInputs(p.inputs) + rest;
    assert [] + p.inputs == p.inputs;
    InputsRoundTrip(p.inputs, [], rest);
  }

  /** One step of `DecodeInputs` on a written pair. */
  lemma DecodeInputsHead(x: Input, tail: seq<U8>, n: nat, acc: seq<Input>)
    requires DistinctCodes(acc)
    ensures DecodeInputs([x.code, if x.pressed then 1 else 0] + tail, n + 1, acc)
         == if x.code in Codes(acc) then Failure(DuplicateInput(x.code)) else DecodeInputs(tail, n, acc + [x])
  {
    var s := [x.code, if x.pressed then 1 else 0] + tail;
    assert s[2..] == tail;
    assert Input(s[0], s[1] == 1) == x;
  }

  /** A code already read makes the whole list repeat a code. */
  lemma HeadRepeats(acc: seq<Input>, inputs: seq<Input>)
    requires inputs != [] && inputs[0].code in Codes(acc)
    ensures !DistinctCodes(acc + inputs)
  {
    var y :| y in acc && y.code == inputs[0].code;
    var i :| 0 <= i < |acc| && acc[i] == y;
    assert (acc + inputs)[i] == acc[i] && (acc + inputs)[|acc|] == inputs[0];
  }

  /** A code not read before keeps the codes read so far distinct. */
  lemma HeadFresh(acc: seq<Input>, x: Input)
    requires DistinctCodes(acc) && x.code !in Codes(acc)
    ensures DistinctCodes(acc + [x])
  {
    forall i | 0 <= i < |acc| ensures acc[i].code != x.code {
      assert acc[i] in acc;
    }
  }

  /** Written pairs read back exactly when no code repeats one read before
      it, in `acc` or earlier in the list. */
  lemma {:induction false} InputsDecodeIff(inputs: seq<Input>, acc: seq<Input>, rest: seq<U8>)
    requires DistinctCodes(acc)
    ensures DecodeInputs(EncodeInputs(inputs) + rest, |inputs|, acc).Success? <==> DistinctCodes(acc + inputs)
  {
    if inputs == [] {
      assert acc + inputs == acc;
      assert EncodeInputs(inputs) + rest == rest;
    } else {
      var x := inputs[0];
      var tail := EncodeInputs(inputs[1..]) + rest;
      assert EncodeInputs(inputs) + rest == [x.code, if x.pressed then 1 else 0] + tail;
      DecodeInputsHead(x, tail, |inputs| - 1, acc);
      if x.code in Codes(acc) {
        HeadRepeats(acc, inputs);
      } else {
        HeadFresh(acc, x);
        assert acc + [x] + inputs[1..] == acc + inputs;
        InputsDecodeIff(inputs[1..], acc + [x], rest);
      }
    }
  }

  /** When written pairs fail to read back, the error names a code that
      repeats one read before it. */
  lemma {:induction false} InputsRejectRepeats(inputs: seq<Input>, acc: seq<Input>, rest: seq<U8>)
    requires DistinctCodes(acc)
    ensures var r := DecodeInputs(EncodeInputs(inputs) + rest, |inputs|, acc);
            r.Failure? ==> exists j :: 0 <= j < |inputs| && r.error == DuplicateInput(inputs[j].code)
                                       && inputs[j].code in Codes(acc + inputs[..j])
  {
    if inputs != [] {
      var x := inputs[0];
      var tail := EncodeInputs(inputs[1..]) + rest;
      assert EncodeInputs(inputs) + rest == [x.code, if x.pressed then 1 else 0] + tail;
      DecodeInputsHead(x, tail, |inputs| - 1, acc);
      if x.code in Codes(acc) {
        assert acc + inputs[..0] == acc;
      } else {
        HeadFresh(acc, x);
        InputsRejectRepeats(inputs[1..], acc + [x], rest);
        var r := DecodeInputs(tail, |inputs| - 1, acc + [x]);
        if r.Failure? {
          var j :| 0 <= j < |inputs[1..]| && r.error == DuplicateInput(inputs[1..][j].code)
                   && inputs[1..][j].code in Codes(acc + [x] + inputs[1..][..j]);
          assert acc + [x] + inputs[1..][..j] == acc + inputs[..j + 1];
          assert inputs[1..][j] == inputs[j + 1];
        }
      }
    } else {
      assert EncodeInputs(inputs) + rest == rest;
    }
  }

  /** A written entry's pairs are what `DecodePlayerInputs` reads after the
      two header bytes. */
  lemma EntryBody(p: PlayerInputs, rest: seq<U8>)
    requires |p.inputs| < 256
    ensures DecodePlayerInputs(EncodePlayerInputs(p) + rest)
         == match DecodeInputs(EncodeInputs(p.inputs) + rest, |p.inputs|, [])
            case Success(d) => Success((PlayerInputs(p.playerId, d.0), d.1))
            case Failure(e) => Failure(e)
  {
    SplitHeader([p.playerId, ByteOf(|p.inputs|)], EncodeInputs(p.inputs), rest);
  }

  /** `Dictionary.Add` rejects a repeated code: a written entry reads back as
      itself exactly when its codes are distinct. */
  lemma RepeatedCodeRejected(p: PlayerInputs, rest: seq<U8>)
    requires |p.inputs| < 256
    ensures var r := DecodePlayerInputs(EncodePlayerInputs(p) + rest);
            && (r.Success? <==> DistinctCodes(p.inputs))
            && (r.Success? ==> r.value == (p, rest))
  {
    EntryBody(p, rest);
    assert [] + p.inputs == p.inputs;
    InputsDecodeIff(p.inputs, [], rest);
    if DistinctCodes(p.inputs) {
      PlayerInputsRoundTrip(p, rest);
    }
  }

  /** A written entry that fails to read back fails on a code that repeats an
      earlier one, wherever the two sit. */
  lemma RepeatedCodeNamed(p: PlayerInputs, rest: seq<U8>)
    requires |p.inputs| < 256
    ensures var r := DecodePlayerInputs(EncodePlayerInputs(p) + rest);
            r.Failure? ==> exists j :: 0 <= j < |p.inputs| && r.error == DuplicateInput(p.inputs[j].code)
                                       && p.inputs[j].code in Codes(p.inputs[..j])
  {
    EntryBody(p, rest);
    var d := DecodeInputs(EncodeInputs(p.inputs) + rest, |p.inputs|, []);
    if d.Failure? {
      InputsRejectRepeats(p.inputs, [], rest);
      var j :| 0 <= j < |p.inputs| && d.error == DuplicateInput(p.inputs[j].code)
               && p.inputs[j].code in Codes([] + p.inputs[..j]);
      assert [] + p.inputs[..j] == p.inputs[..j];
    }
  }

  // ---------------------------------------------------------------- GameStep

  /** The keys of `ids` at or above `from`, in ascending order: the order of
      `PlayerInputs.Values.OrderBy(p => p.PlayerId)` for entries keyed by their id. */
  function AscendingIds(ids: set<U8>, from: nat): (r: seq<U8>)
    ensures forall k :: k in r <==> k in ids && from <= k
    ensures forall i, j :: 0 <= i < j < |r| ==> r[i] < r[j]
    decreases 256 - from
  {
    if from >= 256 then []
    else
      var later := AscendingIds(ids, from + 1);
      if from in ids then
        assert forall i :: 0 <= i < |later| ==> later[i] in later;
        assert forall i :: 0 <= i < |later| ==> from < later[i];
        [from] + later
      else later
  }

  function EncodePlayers(players: map<U8, PlayerInputs>, ids: seq<U8>): seq<U8>
    requires forall k :: k in ids ==> k in players
  {
    if ids == [] then []
    else EncodePlayerInputs(players[ids[0]]) + EncodePlayers(players, ids[1..])
  }

  /** `[StepNumber:2, little-endian][EllapsedMs][PlayerCount][Player..]`, players by ascending id. */
  function EncodeStep(s: GameStep): seq<U8> {
    var ids := AscendingIds(s.players.Keys, 0);
    assert forall k :: k in ids ==> k in s.players;
    [LowByte(s.stepNumber), HighByte(s.stepNumber), s.elapsedMs, ByteOf(|s.players|)]
      + EncodePlayers(s.players, ids)
  }

  /** Reads `count` entries into the dictionary `acc`, keyed by each entry's own id. */
  function DecodePlayers(s: seq<U8>, count: nat, acc: map<U8, PlayerInputs>): (r: Decoded<map<U8, PlayerInputs>>)
    requires forall id :: id in acc ==> acc[id].playerId == id && WellFormedInputs(acc[id])
    ensures r.Success? ==> forall id :: id in r.value.0 ==> r.value.0[id].playerId == id && WellFormedInputs(r.value.0[id])
    decreases count
  {
    if count == 0 then Success((acc, s))
    else
      var d :- DecodePlayerInputs(s);
      var p := d.0;
      if p.playerId in acc then Failure(DuplicatePlayer(p.playerId))
      else DecodePlayers(d.1, count - 1, acc[p.playerId := p])
  }

  function DecodeStep(s: seq<U8>): Decoded<GameStep> {
    if |s| < 4 then Failure(EndOfStream)
    else
      var d :- DecodePlayers(s[4..], s[3], map[]);
      Success((GameStep(FromLittleEndian(s[0], s[1]), s[2], d.0), d.1))
  }

  /** The dictionary `acc` after adding the entry of each id in `ids`, in order. */
  function Collect(players: map<U8, PlayerInputs>, ids: seq<U8>, acc: map<U8, PlayerInputs>): map<U8, PlayerInputs>
    requires forall k :: k in ids ==> k in players
    decreases |ids|
  {
    if ids == [] then acc else Collect(players, ids[1..], acc[ids[0] := players[ids[0]]])
  }

  lemma {:induction false} CollectContents(players: map<U8, PlayerInputs>, ids: seq<U8>, acc: map<U8, PlayerInputs>)
    requires forall k :: k in ids ==> k in players
    ensures forall k :: k in Collect(players, ids, acc) <==> k in acc || k in ids
    ensures forall k :: k in ids ==> Collect(players, ids, acc)[k] == players[k]
    ensures forall k :: k in acc && k !in ids ==> Collect(players, ids, acc)[k] == acc[k]
    decreases |ids|
  {
    if ids != [] {
      CollectContents(players, ids[1..], acc[ids[0] := players[ids[0]]]);
      assert forall k :: k in ids <==> k == ids[0] || k in ids[1..];
    }
  }

  lemma {:induction false} PlayersRoundTrip(players: map<U8, PlayerInputs>, ids: seq<U8>, acc: map<U8, PlayerInputs>, rest: seq<U8>)
    requires forall k :: k in ids ==> k in players && k !in acc
    requires forall i, j :: 0 <= i < j < |ids| ==> ids[i] != ids[j]
    requires forall id :: id in players ==> players[id].playerId == id && WellFormedInputs(players[id])
    requires forall id :: id in acc ==> acc[id].playerId == id && WellFormedInputs(acc[id])
    ensures DecodePlayers(EncodePlayers(players, ids) + rest, |ids|, acc) == Success((Collect(players, ids, acc), rest))
    decreases |ids|
  {
    if ids != [] {
      var h := ids[0];
      var p := players[h];
      var tailBytes := EncodePlayers(players, ids[1..]) + rest;
      assert EncodePlayers(players, ids) + rest == EncodePlayerInputs(p) + tailBytes;
      PlayerInputsRoundTrip(p, tailBytes);
      forall k | k in ids[1..] ensures k in players && k !in acc[h := p] {
        var j :| 0 <= j < |ids[1..]| && ids[1..][j] == k;
        assert ids[j + 1] == k;
      }
      PlayersRoundTrip(players, ids[1..], acc[h := p], rest);
    } else {
      assert EncodePlayers(players, ids) + rest == rest;
    }
  }

  function Elements(s: seq<U8>): set<U8> {
    set k | k in s
  }

  lemma {:induction false} DistinctCardinality(s: seq<U8>)
    requires forall i, j :: 0 <= i < j < |s| ==> s[i] != s[j]
    ensures |Elements(s)| == |s|
  {
    if s != [] {
      DistinctCardinality(s[1..]);
      assert Elements(s) == {s[0]} + Elements(s[1..]);
    }
  }

  /** Decoding what `GameStep.SerializeToBuff` wrote restores the step: the
      little-endian step number, the elapsed byte and every player's entry. */
  lemma StepRoundTrip(s: GameStep, rest: seq<U8>)
    requires WellFormedStep(s)
    ensures DecodeStep(EncodeStep(s) + rest) == Success((s, rest))
  {
    var ids := AscendingIds(s.players.Keys, 0);
    var d := PlayersOfStep(s, ids, rest);
    var header := [LowByte(s.stepNumber), HighByte(s.stepNumber), s.elapsedMs, ByteOf(|s.players|)];
    SplitHeader(header, EncodePlayers(s.players, ids), rest);
    LittleEndianRoundTrip(s.stepNumber);

  }

  /** The player part of a step decodes to the step's dictionary. */
  lemma PlayersOfStep(s: GameStep, ids: seq<U8>, rest: seq<U8>) returns (d: Decoded<map<U8, PlayerInputs>>)
    requires WellFormedStep(s)
    requires ids == AscendingIds(s.players.Keys, 0)
    ensures forall k :: k in ids ==> k in s.players
    ensures |ids| == |s.players|
    ensures d == DecodePlayers(EncodePlayers(s.players, ids) + rest, |ids|, map[])
    ensures d == Success((s.players, rest))
  {
    DistinctCardinality(ids);
    assert Elements(ids) == s.players.Keys;
    PlayersRoundTrip(s.players, ids, map[], rest);
    var c := Collect(s.players, ids, map[]);
    CollectContents(s.players, ids, map[]);
    assert forall k :: k in c <==> k in s.players;
    MapExt(c, s.players);
    d := DecodePlayers(EncodePlayers(s.players, ids) + rest, |ids|, map[]);
  }

  /** A list of entries as `SerializeToBuff` writes them one after another. */
  function EncodeEntries(ps: seq<PlayerInputs>): seq<U8> {
    if ps == [] then [] else EncodePlayerInputs(ps[0]) + EncodeEntries(ps[1..])
  }

  function Ids(ps: seq<PlayerInputs>): set<U8> {
    set p | p in ps :: p.playerId
  }

  predicate DistinctIds(ps: seq<PlayerInputs>) {
    forall i, j :: 0 <= i < j < |ps| ==> ps[i].playerId != ps[j].playerId
  }

  /** One step of `DecodePlayers` on a written entry. */
  lemma DecodePlayersHead(p: PlayerInputs, tail: seq<U8>, n: nat, acc: map<U8, PlayerInputs>)
    requires WellFormedInputs(p)
    requires forall id :: id in acc ==> acc[id].playerId == id && WellFormedInputs(acc[id])
    ensures DecodePlayers(EncodePlayerInputs(p) + tail, n + 1, acc)
         == if p.playerId in acc then Failure(DuplicatePlayer(p.playerId)) else DecodePlayers(tail, n, acc[p.playerId := p])
  {
    PlayerInputsRoundTrip(p, tail);
  }

  lemma IdsCons(ps: seq<PlayerInputs>)
    requires ps != []
    ensures Ids(ps) == {ps[0].playerId} + Ids(ps[1..])
    ensures DistinctIds(ps) <==> DistinctIds(ps[1..]) && ps[0].playerId !in Ids(ps[1..])
  {
    var p := ps[0];
    forall q | q in ps ensures q == p || q in ps[1..] {
      var i :| 0 <= i < |ps| && ps[i] == q;
      if i > 0 { assert ps[1..][i - 1] == q; }
    }
    assert p in ps;
    if DistinctIds(ps) {
      forall i, j | 0 <= i < j < |ps[1..]| ensures ps[1..][i].playerId != ps[1..][j].playerId {
        assert ps[1..][i] == ps[i + 1] && ps[1..][j] == ps[j + 1];
      }
      forall q | q in ps[1..] ensures q.playerId != p.playerId {
        var i :| 0 <= i < |ps[1..]| && ps[1..][i] == q;
        assert ps[i + 1] == q;
      }
    }
    if DistinctIds(ps[1..]) && p.playerId !in Ids(ps[1..]) {
      forall i, j | 0 <= i < j < |ps| ensures ps[i].playerId != ps[j].playerId {
        assert ps[j] == ps[1..][j - 1] && ps[j] in ps[1..];
        if i > 0 { assert ps[i] == ps[1..][i - 1]; }
      }
    }
  }

  /** Written entries read back exactly when no player id repeats one read
      before it, in `acc` or earlier in the list. */
  lemma {:induction false} PlayersDecodeIff(ps: seq<PlayerInputs>, acc: map<U8, PlayerInputs>, rest: seq<U8>)
    requires forall id :: id in acc ==> acc[id].playerId == id && WellFormedInputs(acc[id])
    requires forall i :: 0 <= i < |ps| ==> WellFormedInputs(ps[i])
    ensures DecodePlayers(EncodeEntries(ps) + rest, |ps|, acc).Success? <==> DistinctIds(ps) && Ids(ps) !! acc.Keys
    decreases |ps|
  {
    if ps == [] {
      assert EncodeEntries(ps) + rest == rest;
    } else {
      var p := ps[0];
      var tail := EncodeEntries(ps[1..]) + rest;
      assert EncodeEntries(ps) + rest == EncodePlayerInputs(p) + tail;
      DecodePlayersHead(p, tail, |ps| - 1, acc);
      IdsCons(ps);
      if p.playerId !in acc {
        forall i | 0 <= i < |ps[1..]| ensures WellFormedInputs(ps[1..][i]) {
          assert ps[1..][i] == ps[i + 1];
        }
        PlayersDecodeIff(ps[1..], acc[p.playerId := p], rest);
      }
    }
  }

  /** When written entries fail to read back, the error names a player id
      that repeats one read before it. */
  lemma {:induction false} PlayersRejectRepeats(ps: seq<PlayerInputs>, acc: map<U8, PlayerInputs>, rest: seq<U8>)
    requires forall id :: id in acc ==> acc[id].playerId == id && WellFormedInputs(acc[id])
    requires forall i :: 0 <= i < |ps| ==> WellFormedInputs(ps[i])
    ensures var r := DecodePlayers(EncodeEntries(ps) + rest, |ps|, acc);
            r.Failure? ==> exists j :: 0 <= j < |ps| && r.error == DuplicatePlayer(ps[j].playerId)
                                       && (ps[j].playerId in acc || ps[j].playerId in Ids(ps[..j]))
    decreases |ps|
  {
    if ps != [] {
      var p := ps[0];
      var tail := EncodeEntries(ps[1..]) + rest;
      assert EncodeEntries(ps) + rest == EncodePlayerInputs(p) + tail;
      DecodePlayersHead(p, tail, |ps| - 1, acc);
      if p.playerId !in acc {
        var acc' := acc[p.playerId := p];
        forall i | 0 <= i < |ps[1..]| ensures WellFormedInputs(ps[1..][i]) {
          assert ps[1..][i] == ps[i + 1];
        }
        PlayersRejectRepeats(ps[1..], acc', rest);
        var r := DecodePlayers(tail, |ps| - 1, acc');
        if r.Failure? {
          var j :| 0 <= j < |ps[1..]| && r.error == DuplicatePlayer(ps[1..][j].playerId)
                   && (ps[1..][j].playerId in acc' || ps[1..][j].playerId in Ids(ps[1..][..j]));
          assert ps[1..][j] == ps[j + 1];
          assert ps[..j + 1][1..] == ps[1..][..j];
          IdsCons(ps[..j + 1]);
        }
      } else {
        assert ps[..0] == [];
      }
    } else {
      assert EncodeEntries(ps) + rest == rest;
    }
  }

  /** `Dictionary.Add` rejects a repeated player: a step's entries read back
      exactly when their player ids are distinct, and otherwise decoding fails
      on the first id that repeats an earlier one, wherever the two sit. */
  lemma RepeatedPlayerRejected(header: seq<U8>, ps: seq<PlayerInputs>, rest: seq<U8>)
    requires |header| == 3 && |ps| < 256
    requires forall i :: 0 <= i < |ps| ==> WellFormedInputs(ps[i])
    ensures var r := DecodeStep(header + [|ps| as U8] + EncodeEntries(ps) + rest);
            && (r.Success? <==> DistinctIds(ps))
            && (r.Failure? ==> exists j :: 0 <= j < |ps| && r.error == DuplicatePlayer(ps[j].playerId)
                                          && ps[j].playerId in Ids(ps[..j]))
  {
    var h := header + [|ps| as U8];
    var s := h + EncodeEntries(ps) + rest;
    SplitHeader(h, EncodeEntries(ps), rest);
    assert s[3] == h[3];
    var d := DecodePlayers(EncodeEntries(ps) + rest, |ps|, map[]);
    assert DecodeStep(s).Success? <==> d.Success?;
    assert d.Failure? ==> DecodeStep(s).error == d.error;
    PlayersDecodeIff(ps, map[], rest);
    PlayersRejectRepeats(ps, map[], rest);
  }

  // ---------------------------------------------------------------- GameStepCollection

  predicate NewestFirst(steps: seq<GameStep>) {
    forall i, j :: 0 <= i < j < |steps| ==> steps[i].stepNumber >= steps[j].stepNumber
  }

  lemma PrependNewest(x: GameStep, t: seq<GameStep>)
    requires NewestFirst(t)
    requires t != [] ==> x.stepNumber >= t[0].stepNumber
    ensures NewestFirst([x] + t)
  {
    forall i, j | 0 <= i < j < |[x] + t| ensures ([x] + t)[i].stepNumber >= ([x] + t)[j].stepNumber {
      if i == 0 && j > 1 {
        assert t[0].stepNumber >= t[j - 1].stepNumber;
      }
    }
  }

  /** Places `s` before the first element it is not older than (stable). */
  function InsertByStep(s: GameStep, sorted: seq<GameStep>): (r: seq<GameStep>)
    ensures |r| == |sorted| + 1
    ensures multiset(r) == multiset(sorted) + multiset{s}
    ensures r[0] == s || (sorted != [] && r[0] == sorted[0])
    ensures NewestFirst(sorted) ==> NewestFirst(r)
  {
    if sorted == [] || s.stepNumber >= sorted[0].stepNumber then
      if NewestFirst(sorted) then PrependNewest(s, sorted); [s] + sorted
      else [s] + sorted
    else
      var tail := InsertByStep(s, sorted[1..]);
      assert sorted == [sorted[0]] + sorted[1..];
      if NewestFirst(sorted) then
        assert NewestFirst(sorted[1..]);
        assert |sorted| > 1 ==> sorted[0].stepNumber >= sorted[1].stepNumber;
        PrependNewest(sorted[0], tail);
        [sorted[0]] + tail
      else [sorted[0]] + tail
  }

  /** `GameSteps.OrderByDescending(gs => gs.StepNumber)`. LINQ's sort is
      stable; the contract leaves the order of equal step numbers open, as
      the steps of one broadcast carry distinct numbers (`TickCollection`). */
  function OrderByDescendingStep(steps: seq<GameStep>): (r: seq<GameStep>)
    ensures multiset(r) == multiset(steps)
    ensures NewestFirst(r)
  {
    if steps == [] then []
    else
      assert steps == [steps[0]] + steps[1..];
      InsertByStep(steps[0], OrderByDescendingStep(steps[1..]))
  }

  function EncodeSteps(steps: seq<GameStep>): seq<U8> {
    if steps == [] then [] else EncodeStep(steps[0]) + EncodeSteps(steps[1..])
  }

  /** `[GameStepCollection tag][StepCount][Step..]`, newest step first. */
  function EncodeCollection(c: GameStepCollection): seq<U8> {
    [CollectionTag, ByteOf(|c.steps|)] + EncodeSteps(OrderByDescendingStep(c.steps))
  }

  function DecodeSteps(s: seq<U8>, count: nat, acc: seq<GameStep>): (r: Decoded<seq<GameStep>>)
    decreases count
  {
    if count == 0 then Success((acc, s))
    else
      var d :- DecodeStep(s);
      DecodeSteps(d.1, count - 1, acc + [d.0])
  }

  /** Bytes after the last step are not read. */
  function DecodeCollection(s: seq<U8>): (r: Result<GameStepCollection, DecodeError>)
    ensures r.Success? ==> |s| >= 2 && s[0] == CollectionTag && |r.value.steps| == s[1]
  {
    if |s| < 1 then Failure(EndOfStream)
    else if s[0] != CollectionTag then Failure(UnexpectedMessage(s[0]))
    else if |s| < 2 then Failure(EndOfStream)
    else
      var d :- DecodeSteps(s[2..], s[1], []);
      assert |d.0| == s[1] by { DecodeStepsLength(s[2..], s[1], []); }
      Success(GameStepCollection(d.0))
  }

  lemma {:induction false} DecodeStepsLength(s: seq<U8>, count: nat, acc: seq<GameStep>)
    ensures DecodeSteps(s, count, acc).Success? ==> |DecodeSteps(s, count, acc).value.0| == |acc| + count
    decreases count
  {
    if count > 0 {
      var d := DecodeStep(s);
      if d.Success? {
        DecodeStepsLength(d.value.1, count - 1, acc + [d.value.0]);
      }
    }
  }

  lemma {:induction false} StepsRoundTrip(steps: seq<GameStep>, acc: seq<GameStep>, rest: seq<U8>)
    requires forall s :: s in steps ==> WellFormedStep(s)
    ensures DecodeSteps(EncodeSteps(steps) + rest, |steps|, acc) == Success((acc + steps, rest))
  {
    if steps == [] {
      assert EncodeSteps(steps) + rest == rest;
      assert acc + steps == acc;
    } else {
      SplitHeader(EncodeStep(steps[0]), EncodeSteps(steps[1..]), rest);
      StepRoundTrip(steps[0], EncodeSteps(steps[1..]) + rest);
      StepsRoundTrip(steps[1..], acc + [steps[0]], rest);
      Uncons(acc, steps);
    }
  }

  /** A collection is a datagram that starts with tag 4; any other first byte fails. */
  lemma TagChecked(s: seq<U8>)
    requires |s| > 0 && s[0] != CollectionTag
    ensures DecodeCollection(s) == Failure(UnexpectedMessage(s[0]))
  {
  }

  lemma SortedSameSteps(steps: seq<GameStep>)
    ensures |OrderByDescendingStep(steps)| == |steps|
    ensures forall s :: s in OrderByDescendingStep(steps) <==> s in steps
  {
    var sorted := OrderByDescendingStep(steps);
    assert |multiset(sorted)| == |multiset(steps)|;
    forall s ensures s in sorted <==> s in steps {
      assert s in sorted <==> s in multiset(sorted);
      assert s in steps <==> s in multiset(steps);
    }
  }

  /** Decoding a written collection yields the same steps, newest first. */
  lemma CollectionRoundTrip(c: GameStepCollection, rest: seq<U8>)
    requires |c.steps| < 256
    requires forall s :: s in c.steps ==> WellFormedStep(s)
    ensures DecodeCollection(EncodeCollection(c) + rest) == Success(GameStepCollection(OrderByDescendingStep(c.steps)))
  {
    var sorted := OrderByDescendingStep(c.steps);
    SortedSameSteps(c.steps);
    var header := [CollectionTag, ByteOf(|c.steps|)];
    SplitHeader(header, EncodeSteps(sorted), rest);
    StepsRoundTrip(sorted, [], rest);
    var bytes := EncodeCollection(c) + rest;
    assert bytes == (header + EncodeSteps(sorted)) + rest;
    assert bytes[2..] == EncodeSteps(sorted) + rest;
    assert bytes[0] == CollectionTag && bytes[1] == |sorted|;
    assert [] + sorted == sorted;
    assert DecodeSteps(bytes[2..], bytes[1], []) == Success((sorted, rest));

  }
}
