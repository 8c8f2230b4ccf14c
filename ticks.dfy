/** The game-step side of LockstepServer/Server.cs: the per-tick input
    accumulator filled by `HandlePlayerInput`, and the step that each tick of
    `SendPlayerUpdates` builds, stores and broadcasts with up to two older
    steps. */
module GameTicks {
  import opened Wrappers
  import opened Bytes
  import opened WireCodec
  import opened GameHistories
  import opened Seqs

  /** The capacity of the server's `_gameHistory`. */
  const HistorySize := 120

  /** The `NotImplementedException` thrown when a code already recorded in
      this tick arrives with the other value. */
  datatype InputError = NotImplemented(playerId: U8, code: U8)

  /** `_curPlayerInputs`: each entry is keyed by its own player id and holds
      each code once. */
  predicate ValidAccumulator(acc: map<U8, PlayerInputs>) {
    forall id :: id in acc ==> acc[id].playerId == id && DistinctCodes(acc[id].inputs)
  }

  lemma AppendDistinct(inputs: seq<Input>, x: Input)
    requires DistinctCodes(inputs) && x.code !in Codes(inputs)
    ensures DistinctCodes(inputs + [x])
  {
    forall i, j | 0 <= i < j < |inputs + [x]|
      ensures (inputs + [x])[i].code != (inputs + [x])[j].code
    {
      if j == |inputs| {
        assert inputs[i] in inputs;
      }
    }
  }

  lemma LastCodeFresh(cur: seq<Input>)
    requires DistinctCodes(cur) && cur != []
    ensures DistinctCodes(cur[..|cur| - 1])
    ensures cur[|cur| - 1].code !in Codes(cur[..|cur| - 1])
  {
    var n := |cur| - 1;
    forall x | x in cur[..n]
      ensures x.code != cur[n].code
    {
      var i :| 0 <= i < n && cur[..n][i] == x;
    }
  }

  lemma UpdateSame<K, V>(m: map<K, V>, k: K, v: V)
    requires k in m && m[k] == v
    ensures m[k := v] == m
  {
    MapExt(m[k := v], m);
  }

  /** Laying `n[k := v]` over `m` is laying `n` over it and then setting `k`. */
  lemma MergeUpdate<K, V>(m: map<K, V>, n: map<K, V>, k: K, v: V)
    ensures m + n[k := v] == (m + n)[k := v]
  {
    MapExt(m + n[k := v], (m + n)[k := v]);
  }

  lemma ToMapAppend(inputs: seq<Input>, x: Input)
    ensures ToMap(inputs + [x]) == ToMap(inputs)[x.code := x.pressed]
  {
    assert (inputs + [x])[..|inputs|] == inputs;
  }

  // ---------------------------------------------------------------- HandlePlayerInput

  /** `HandlePlayerInput(id, data)`: a payload that is not 3 bytes long is
      ignored; otherwise code `data[1]` is recorded for the player with value
      `data[2] != 0`, unless it is already recorded. */
  function Record(acc: map<U8, PlayerInputs>, id: U8, data: seq<U8>): Result<map<U8, PlayerInputs>, InputError> {
    if |data| != 3 then Success(acc)
    else
      var entry := if id in acc then acc[id] else PlayerInputs(id, []);
      var code, v := data[1], data[2] != 0;
      if code !in ToMap(entry.inputs) then
        Success(acc[id := PlayerInputs(entry.playerId, entry.inputs + [Input(code, v)])])
      else if ToMap(entry.inputs)[code] != v then Failure(NotImplemented(id, code))
      else Success(acc)
  }

  /** What a player's accumulated inputs say, as a dictionary. */
  function Held(acc: map<U8, PlayerInputs>, id: U8): map<U8, bool> {
    if id in acc then ToMap(acc[id].inputs) else map[]
  }

  /** Recording fails exactly when the code is already held with the other
      value, and then reports that player and code. */
  lemma RecordFails(acc: map<U8, PlayerInputs>, id: U8, data: seq<U8>)
    ensures var r := Record(acc, id, data);
            && (r.Failure? <==> |data| == 3 && data[1] in Held(acc, id) && Held(acc, id)[data[1]] != (data[2] != 0))
            && (r.Failure? ==> r.error == NotImplemented(id, data[1]))
  {
  }

  /** A recorded payload leaves the code holding the new value and every
      other code and every other player untouched; other lengths change
      nothing. */
  lemma RecordUpdates(acc: map<U8, PlayerInputs>, id: U8, data: seq<U8>)
    requires Record(acc, id, data).Success?
    ensures var acc' := Record(acc, id, data).value;
            && (|data| != 3 ==> acc' == acc)
            && (|data| == 3 ==> acc'.Keys == acc.Keys + {id} && Held(acc', id) == Held(acc, id)[data[1] := data[2] != 0])
            && (forall j :: j in acc && j != id ==> j in acc' && acc'[j] == acc[j])
  {
    if |data| == 3 {
      var entry := if id in acc then acc[id] else PlayerInputs(id, []);
      var x := Input(data[1], data[2] != 0);
      ToMapAppend(entry.inputs, x);
      if data[1] in ToMap(entry.inputs) {
        UpdateSame(Held(acc, id), data[1], data[2] != 0);
        assert acc.Keys + {id} == acc.Keys;
      }
    }
  }

  /** Recording keeps the accumulator valid. */
  lemma RecordKeepsValid(acc: map<U8, PlayerInputs>, id: U8, data: seq<U8>)
    requires ValidAccumulator(acc) && Record(acc, id, data).Success?
    ensures ValidAccumulator(Record(acc, id, data).value)
  {
    if |data| == 3 {
      var entry := if id in acc then acc[id] else PlayerInputs(id, []);
      if data[1] !in ToMap(entry.inputs) {
        AppendDistinct(entry.inputs, Input(data[1], data[2] != 0));
      }
    }
  }

  /** Recording the same payload twice is the same as recording it once. */
  lemma RecordIdempotent(acc: map<U8, PlayerInputs>, id: U8, data: seq<U8>)
    requires Record(acc, id, data).Success?
    ensures Record(Record(acc, id, data).value, id, data) == Record(acc, id, data)
  {
    RecordUpdates(acc, id, data);
  }

  // ---------------------------------------------------------------- deltas

  /** The filter of `SendPlayerUpdates`: an input goes out when its code is
      absent from the player's previous entry or has a different value there. */
  predicate Fresh(last: map<U8, bool>, x: Input) {
    x.code !in last || last[x.code] != x.pressed
  }

  /** `Inputs.Where(i => Fresh).ToDictionary(...)`, in enumeration order. */
  function Changed(cur: seq<Input>, last: map<U8, bool>): seq<Input> {
    if cur == [] then []
    else
      var n := |cur| - 1;
      Changed(cur[..n], last) + if Fresh(last, cur[n]) then [cur[n]] else []
  }

  /** The delta keeps exactly the fresh inputs, each code at most once. */
  lemma {:induction false} ChangedFilters(cur: seq<Input>, last: map<U8, bool>)
    ensures forall x :: x in Changed(cur, last) <==> x in cur && Fresh(last, x)
    ensures Codes(Changed(cur, last)) <= Codes(cur)
    ensures DistinctCodes(cur) ==> DistinctCodes(Changed(cur, last))
  {
    if cur != [] {
      var n := |cur| - 1;
      var init := cur[..n];
      assert cur == init + [cur[n]];
      ChangedFilters(init, last);
      if DistinctCodes(cur) {
        LastCodeFresh(cur);
        if Fresh(last, cur[n]) {
          AppendDistinct(Changed(init, last), cur[n]);
        }
      }
    }
  }

  /** Sending only the delta loses nothing: laid over the previous entry it
      gives what laying the full accumulated entry over it gives. */
  lemma {:induction false} ChangedPatch(cur: seq<Input>, last: map<U8, bool>)
    requires DistinctCodes(cur)
    ensures last + ToMap(Changed(cur, last)) == last + ToMap(cur)
  {
    if cur != [] {
      var n := |cur| - 1;
      var init, x := cur[..n], cur[n];
      LastCodeFresh(cur);
      ChangedPatch(init, last);
      var before := last + ToMap(init);
      assert ToMap(cur) == ToMap(init)[x.code := x.pressed];
      MergeUpdate(last, ToMap(init), x.code, x.pressed);
      if Fresh(last, x) {
        var d := Changed(init, last);
        assert Changed(cur, last) == d + [x];
        ToMapAppend(d, x);
        MergeUpdate(last, ToMap(d), x.code, x.pressed);
      } else {
        assert Changed(cur, last) == Changed(init, last) + [];
        assert Changed(init, last) + [] == Changed(init, last);
        assert x.code !in ToMap(init);
        UpdateSame(before, x.code, x.pressed);
      }
    }
  }

  /** One player's entry in the new step. */
  function DeltaFor(cur: PlayerInputs, last: GameStep, id: U8): PlayerInputs {
    if id in last.players then PlayerInputs(id, Changed(cur.inputs, ToMap(last.players[id].inputs)))
    else cur
  }

  /** The new step's entries when the previous step exists. */
  function Deltas(acc: map<U8, PlayerInputs>, last: GameStep): (r: map<U8, PlayerInputs>)
    ensures r.Keys == acc.Keys
  {
    map id | id in acc :: DeltaFor(acc[id], last, id)
  }

  // ---------------------------------------------------------------- redundancy

  function Max0(x: int): nat {
    if x < 0 then 0 else x
  }

  /** The older steps each broadcast tries to repeat: step `max(n - 2, 0)`
      from step 1 on, and step `max(n - 8, 0)` from step 3 on. */
  function RedundantNumbers(n: U16): seq<U16> {
    (if n >= 1 then [Max0(n - 2)] else []) + (if n >= 3 then [Max0(n - 8)] else [])
  }

  /** The repeated numbers are older than `n` and distinct. */
  lemma RedundantDistinct(n: U16)
    ensures var ks := RedundantNumbers(n);
            && |ks| <= 2
            && (forall i :: 0 <= i < |ks| ==> ks[i] < n)
            && (|ks| == 2 ==> ks[0] != ks[1])
  {
  }

  lemma RedundantExamples()
    ensures RedundantNumbers(0) == []
    ensures RedundantNumbers(1) == [0]
    ensures RedundantNumbers(2) == [0]
    ensures RedundantNumbers(3) == [1, 0]
    ensures RedundantNumbers(10) == [8, 2]
  {
  }

  /** The `TryGet` calls: the steps found under the given numbers, in order.
      A step is repeated exactly when it is stored under a looked-up number. */
  function Present(steps: map<U16, GameStep>, ks: seq<U16>): (r: seq<GameStep>)
    ensures |r| <= |ks|
    ensures forall s :: s in r ==> exists k :: k in ks && k in steps && steps[k] == s
    ensures forall k :: k in ks && k in steps ==> steps[k] in r
  {
    if ks == [] then []
    else (if ks[0] in steps then [steps[ks[0]]] else []) + Present(steps, ks[1..])
  }

  /** Found steps carry the numbers they were looked up by. */
  lemma {:induction false} PresentKeyed(steps: map<U16, GameStep>, ks: seq<U16>)
    requires Keyed(steps)
    ensures forall i :: 0 <= i < |Present(steps, ks)| ==> Present(steps, ks)[i].stepNumber in ks
  {
    if ks != [] {
      var tail := ks[1..];
      PresentKeyed(steps, tail);
      var t := Present(steps, tail);
      var head := if ks[0] in steps then [steps[ks[0]]] else [];
      var r := head + t;
      assert r == Present(steps, ks);
      forall i | 0 <= i < |r|
        ensures r[i].stepNumber in ks
      {
        if i >= |head| {
          assert r[i] == t[i - |head|];
          assert t[i - |head|].stepNumber in tail;
          var j :| 0 <= j < |tail| && tail[j] == t[i - |head|].stepNumber;
          assert ks[j + 1] == tail[j];
        }
      }
    }
  }

  /** Distinct numbers find distinct steps. */
  lemma {:induction false} PresentNumbers(steps: map<U16, GameStep>, ks: seq<U16>)
    requires Keyed(steps)
    requires forall i, j :: 0 <= i < j < |ks| ==> ks[i] != ks[j]
    ensures forall i :: 0 <= i < |Present(steps, ks)| ==> Present(steps, ks)[i].stepNumber in ks
    ensures forall i, j :: 0 <= i < j < |Present(steps, ks)| ==> Present(steps, ks)[i].stepNumber != Present(steps, ks)[j].stepNumber
  {
    PresentKeyed(steps, ks);
    if ks != [] {
      var tail := ks[1..];
      PresentNumbers(steps, tail);
      var t := Present(steps, tail);
      var head := if ks[0] in steps then [steps[ks[0]]] else [];
      var r := head + t;
      assert r == Present(steps, ks);
      forall i | 0 <= i < |t|
        ensures t[i].stepNumber != ks[0]
      {
        assert t[i].stepNumber in tail;
        var j :| 0 <= j < |tail| && tail[j] == t[i].stepNumber;
        assert ks[j + 1] == tail[j];
      }
      forall i, j | 0 <= i < j < |r|
        ensures r[i].stepNumber != r[j].stepNumber
      {
        assert r[j] == t[j - |head|];
        if i >= |head| {
          assert r[i] == t[i - |head|];
        }
      }
    }
  }

  // ---------------------------------------------------------------- one tick

  /** The server's game state: the accumulator, the history and `_stepNumber`. */
  datatype ServerState = ServerState(acc: map<U8, PlayerInputs>, history: History, stepNumber: U16)

  function Fresh0(): (st: ServerState)
    ensures st.acc == map[] && st.history.steps == map[] && st.stepNumber == 0
  {
    ServerState(map[], Empty(HistorySize), 0)
  }

  /** `_gameHistory.Count > 0 && _gameHistory.TryGet((UInt16)(_stepNumber - 1), ...)`. */
  function Previous(h: History, n: U16): (r: Option<GameStep>)
    ensures r.Some? <==> Wrap16(n - 1) in h.steps
    ensures r.Some? ==> r.value == h.steps[Wrap16(n - 1)]
  {
    var k := Wrap16(n - 1);
    if |h.steps| > 0 && k in h.steps then Some(h.steps[k]) else None
  }

  /** The step a tick builds: deltas against the previous step when there is
      one, otherwise every accumulated entry as it stands. */
  function NextStep(st: ServerState, elapsed: U8): GameStep {
    var players := match Previous(st.history, st.stepNumber)
      case Some(last) => Deltas(st.acc, last)
      case None => st.acc;
    GameStep(st.stepNumber, elapsed, players)
  }

  /** One tick, with the accumulator copied into the step and cleared on
      every tick: the new state and the collection to broadcast. */
  function Tick(st: ServerState, elapsed: U8): (ServerState, seq<GameStep>) {
    var step := NextStep(st, elapsed);
    var h := Added(st.history, step);
    (ServerState(map[], h, Inc16(st.stepNumber)), [step] + Present(h.steps, RedundantNumbers(st.stepNumber)))
  }

  /** What the previous step said about player `id`. */
  function Before(st: ServerState, id: U8): map<U8, bool> {
    match Previous(st.history, st.stepNumber)
    case Some(last) => if id in last.players then ToMap(last.players[id].inputs) else map[]
    case None => map[]
  }

  /** Every input recorded since the last tick reaches the new step: laid
      over the previous step's entry, the new entry gives the accumulated
      values. The accumulator is then empty and the step number advances. */
  lemma TickDelivers(st: ServerState, elapsed: U8, id: U8)
    requires ValidAccumulator(st.acc) && id in st.acc
    ensures var (st', coll) := Tick(st, elapsed);
            && coll[0].stepNumber == st.stepNumber
            && id in coll[0].players
            && Before(st, id) + ToMap(coll[0].players[id].inputs) == Before(st, id) + ToMap(st.acc[id].inputs)
            && st'.acc == map[] && st'.stepNumber == Inc16(st.stepNumber)
  {
    var step := NextStep(st, elapsed);
    match Previous(st.history, st.stepNumber)
    case Some(last) =>
      if id in last.players {
        ChangedPatch(st.acc[id].inputs, ToMap(last.players[id].inputs));
      }
    case None =>
  }

  /** Ticks keep every stored step under its own number and the collection
      free of repeats: the new step first, then exactly the older steps
      stored under the repeated numbers. */
  lemma TickCollection(st: ServerState, elapsed: U8)
    requires Keyed(st.history.steps)
    ensures var (st', coll) := Tick(st, elapsed);
            && Keyed(st'.history.steps)
            && 1 <= |coll| <= 3
            && (forall i :: 1 <= i < |coll| ==> coll[i].stepNumber < st.stepNumber)
            && (forall i, j :: 0 <= i < j < |coll| ==> coll[i].stepNumber != coll[j].stepNumber)
            && (forall k :: k in RedundantNumbers(st.stepNumber) && k in st'.history.steps ==> st'.history.steps[k] in coll[1..])
            && (forall s :: s in coll[1..] ==> exists k :: k in RedundantNumbers(st.stepNumber) && k in st'.history.steps && st'.history.steps[k] == s)
  {
    var step := NextStep(st, elapsed);
    var h := Added(st.history, step);
    AddKeepsKeyed(st.history, step);
    var ks := RedundantNumbers(st.stepNumber);
    RedundantDistinct(st.stepNumber);
    PresentNumbers(h.steps, ks);
    var p := Present(h.steps, ks);
    var coll := [step] + p;
    assert coll == Tick(st, elapsed).1;
    forall i | 1 <= i < |coll|
      ensures coll[i].stepNumber < st.stepNumber
    {
      assert coll[i] == p[i - 1];
    }
    forall i, j | 0 <= i < j < |coll|
      ensures coll[i].stepNumber != coll[j].stepNumber
    {
      assert coll[j] == p[j - 1];
      if i > 0 {
        assert coll[i] == p[i - 1];
      }
    }
  }

  // ---------------------------------------------------------------- the first tick as written

  /** The state of the source as written, where the step stored on the
      first tick keeps the accumulator dictionary itself: `shared` names that
      step, and reading it back shows the accumulator's current contents. */
  datatype WrittenState = WrittenState(acc: map<U8, PlayerInputs>, history: History, stepNumber: U16, shared: Option<U16>)

  /** The stored steps as the server reads them back. */
  function View(ws: WrittenState): map<U16, GameStep> {
    map k | k in ws.history.steps :: if ws.shared == Some(k) then ws.history.steps[k].(players := ws.acc) else ws.history.steps[k]
  }

  function RecordWritten(ws: WrittenState, id: U8, data: seq<U8>): Result<WrittenState, InputError> {
    var acc :- Record(ws.acc, id, data);
    Success(ws.(acc := acc))
  }

  /** The tick as written: without a previous step the new step takes the
      accumulator itself and nothing is cleared; with one, the deltas are
      taken against the previous step as read back, and the clear empties
      the shared dictionary too. A delta step gets a dictionary of its own,
      so once the step numbers wrap, the one stored under the shared number
      no longer shares the accumulator. */
  function TickAsWritten(ws: WrittenState, elapsed: U8): (WrittenState, seq<GameStep>) {
    var view := View(ws);
    var n := ws.stepNumber;
    var k := Wrap16(n - 1);
    if |view| > 0 && k in view then
      var step := GameStep(n, elapsed, Deltas(ws.acc, view[k]));
      var shared := if ws.shared == Some(n) then None else ws.shared;
      var ws' := WrittenState(map[], Added(ws.history, step), Inc16(n), shared);
      (ws', [step] + Present(View(ws'), RedundantNumbers(n)))
    else
      var step := GameStep(n, elapsed, ws.acc);
      var ws' := WrittenState(ws.acc, Added(ws.history, step), Inc16(n), Some(n));
      (ws', [step] + Present(View(ws'), RedundantNumbers(n)))
  }

  /** A tick as written with room in the history stores the step it
      broadcasts first, and that step reads back as broadcast. */
  lemma WrittenTickStoresStep(ws: WrittenState, elapsed: U8)
    requires |ws.history.steps| < ws.history.size
    ensures var (ws', coll) := TickAsWritten(ws, elapsed);
            ws.stepNumber in View(ws') && View(ws')[ws.stepNumber] == coll[0]
  {
    var view := View(ws);
    var n := ws.stepNumber;
    var k := Wrap16(n as int - 1);
    var step := if |view| > 0 && k in view then GameStep(n, elapsed, Deltas(ws.acc, view[k])) else GameStep(n, elapsed, ws.acc);
    AddThenGet(ws.history, step);
  }

  /** Up arrow pressed by player 0 between the first two ticks: the payload
      the client sends for it. */
  const UpPressed: seq<U8> := [5, 38, 1]

  /** Down arrow pressed by player 0. */
  const DownPressed: seq<U8> := [5, 40, 1]

  /** Tick 0 as written: the step takes the (empty) accumulator, which it
      now shares. */
  lemma WrittenTick0()
    ensures TickAsWritten(WrittenState(map[], Empty(HistorySize), 0, None), 0)
         == (WrittenState(map[], History(map[0 := GameStep(0, 0, map[])], 0, HistorySize), 1, Some(0)), [GameStep(0, 0, map[])])
  {
    var ws0 := WrittenState(map[], Empty(HistorySize), 0, None);
    assert View(ws0) == map[];
    var s0 := GameStep(0, 0, map[]);
    assert Added(Empty(HistorySize), s0) == History(map[0 := s0], 0, HistorySize);
    assert RedundantNumbers(0) == [];
    assert [s0] + [] == [s0];
  }

  /** Tick 1 as written, after player 0 recorded the up arrow: the deltas
      are taken against the shared dictionary itself. */
  lemma WrittenTick1()
    ensures var s0 := GameStep(0, 0, map[]);
            var held := map[0 := PlayerInputs(0, [Input(38, true)])];
            var s1 := GameStep(1, 0, map[0 := PlayerInputs(0, [])]);
            TickAsWritten(WrittenState(held, History(map[0 := s0], 0, HistorySize), 1, Some(0)), 0)
            == (WrittenState(map[], History(map[0 := s0, 1 := s1], 0, HistorySize), 2, Some(0)), [s1, s0])
  {
    var s0 := GameStep(0, 0, map[]);
    var held := map[0 := PlayerInputs(0, [Input(38, true)])];
    var s1 := GameStep(1, 0, map[0 := PlayerInputs(0, [])]);
    var ws2 := WrittenState(held, History(map[0 := s0], 0, HistorySize), 1, Some(0));
    var last := s0.(players := held);
    MapExt(View(ws2), map[0 := last]);
    assert |View(ws2)| == 1 && Wrap16(1 - 1) == 0;
    assert RedundantNumbers(1) == [0];
    assert ToMap([Input(38, true)]) == map[38 := true] by {
      ToMapAppend([], Input(38, true));
    }
    assert Changed([Input(38, true)], map[38 := true]) == [];
    MapExt(Deltas(held, last), map[0 := PlayerInputs(0, [])]);
    var steps := map[0 := s0, 1 := s1];
    assert |steps| == 2;
    assert Added(ws2.history, s1) == History(steps, 0, HistorySize);
    var ws3 := WrittenState(map[], History(steps, 0, HistorySize), 2, Some(0));
    MapExt(View(ws3), steps);
    assert Present(View(ws3), [0]) == [s0] + [];
    assert [s1] + ([s0] + []) == [s1, s0];
  }

  lemma RecordUpPressed()
    ensures Record(map[], 0, UpPressed) == Success(map[0 := PlayerInputs(0, [Input(38, true)])])
  {
    assert ToMap([]) == map[];
    assert [] + [Input(38, true)] == [Input(38, true)];
    assert UpPressed[1] == 38 && UpPressed[2] == 1;
  }

  /** As written, an input recorded between tick 0 and tick 1 reaches no
      broadcast: step 1 carries an empty entry, the repeated step 0 reads
      back empty, and the accumulator is cleared. */
  lemma FirstTickInputsLost()
    ensures var ws0 := WrittenState(map[], Empty(HistorySize), 0, None);
            var (ws1, c0) := TickAsWritten(ws0, 0);
            var ws2 := RecordWritten(ws1, 0, UpPressed);
            && c0 == [GameStep(0, 0, map[])]
            && ws2.Success?
            && var (ws3, c1) := TickAsWritten(ws2.value, 0);
               && c1 == [GameStep(1, 0, map[0 := PlayerInputs(0, [])]), GameStep(0, 0, map[])]
               && ws3.acc == map[]
  {
    WrittenTick0();
    RecordUpPressed();
    WrittenTick1();
  }

  /** The tick that wraps the step numbers to 0, as written: step 0 has
      long left the history while 0 is still the shared number. The new
      step 0 is a delta step with its own entries and no longer shared. */
  lemma WrappedTick0()
    ensures var s := GameStep(65535, 0, map[]);
            var held := map[0 := PlayerInputs(0, [Input(38, true)])];
            var s0 := GameStep(0, 0, held);
            TickAsWritten(WrittenState(held, History(map[65535 := s], 0, HistorySize), 0, Some(0)), 0)
            == (WrittenState(map[], History(map[65535 := s, 0 := s0], 0, HistorySize), 1, None), [s0])
  {
    var s := GameStep(65535, 0, map[]);
    var held := map[0 := PlayerInputs(0, [Input(38, true)])];
    var ws0 := WrittenState(held, History(map[65535 := s], 0, HistorySize), 0, Some(0));
    var s0 := GameStep(0, 0, held);
    MapExt(View(ws0), map[65535 := s]);
    assert |View(ws0)| == 1 && Wrap16(0 - 1) == 65535;
    MapExt(Deltas(held, s), held);
    var steps := map[65535 := s, 0 := s0];
    assert |steps| == 2;
    assert Added(ws0.history, s0) == History(steps, 0, HistorySize);
    assert RedundantNumbers(0) == [];
    assert [s0] + [] == [s0];
  }

  lemma RecordDownPressed()
    ensures Record(map[], 0, DownPressed) == Success(map[0 := PlayerInputs(0, [Input(40, true)])])
  {
    assert ToMap([]) == map[];
    assert [] + [Input(40, true)] == [Input(40, true)];
    assert DownPressed[1] == 40 && DownPressed[2] == 1;
  }

  /** The tick after the wrap, as written: it diffs against the new step 0's
      own entries, and its repeat of step 0 reads them back. */
  lemma WrappedTick1()
    ensures var s := GameStep(65535, 0, map[]);
            var s0 := GameStep(0, 0, map[0 := PlayerInputs(0, [Input(38, true)])]);
            var down := map[0 := PlayerInputs(0, [Input(40, true)])];
            TickAsWritten(WrittenState(down, History(map[65535 := s, 0 := s0], 0, HistorySize), 1, None), 0).1
            == [GameStep(1, 0, down), s0]
  {
    var s := GameStep(65535, 0, map[]);
    var s0 := GameStep(0, 0, map[0 := PlayerInputs(0, [Input(38, true)])]);
    var down := map[0 := PlayerInputs(0, [Input(40, true)])];
    var steps := map[65535 := s, 0 := s0];
    var ws2 := WrittenState(down, History(steps, 0, HistorySize), 1, None);
    MapExt(View(ws2), steps);
    assert Wrap16(1 - 1) == 0;
    assert RedundantNumbers(1) == [0];
    assert ToMap([Input(38, true)]) == map[38 := true] by {
      ToMapAppend([], Input(38, true));
    }
    assert Changed([Input(40, true)], map[38 := true]) == [Input(40, true)] by {
      assert [Input(40, true)][..0] == [];
    }
    MapExt(Deltas(down, s0), down);
    var s1 := GameStep(1, 0, down);
    var steps2 := steps[1 := s1];
    assert |steps2| == 3;
    assert Added(ws2.history, s1) == History(steps2, 0, HistorySize);
    var ws3 := WrittenState(map[], History(steps2, 0, HistorySize), 2, None);
    MapExt(View(ws3), steps2);
    assert Present(View(ws3), [0]) == [s0] + [];
    assert [s1] + ([s0] + []) == [s1, s0];
  }

  /** Across the wrap of the step numbers, as written, a press recorded
      after the new step 0 arrives in step 1, and step 0 is repeated with its
      own entries. */
  lemma WrappedTickKeepsOwnStep()
    ensures var s := GameStep(65535, 0, map[]);
            var held := map[0 := PlayerInputs(0, [Input(38, true)])];
            var ws0 := WrittenState(held, History(map[65535 := s], 0, HistorySize), 0, Some(0));
            var s0 := GameStep(0, 0, held);
            var (ws1, c0) := TickAsWritten(ws0, 0);
            var ws2 := RecordWritten(ws1, 0, DownPressed);
            && c0 == [s0]
            && ws2.Success?
            && TickAsWritten(ws2.value, 0).1 == [GameStep(1, 0, map[0 := PlayerInputs(0, [Input(40, true)])]), s0]
  {
    WrappedTick0();
    RecordDownPressed();
    WrappedTick1();
  }

  /** With the step taking a copy and the accumulator cleared on every tick,
      the same input arrives in step 1. */
  lemma FirstTickInputsDelivered()
    ensures var (st1, c0) := Tick(Fresh0(), 0);
            var acc := Record(st1.acc, 0, UpPressed);
            && c0 == [GameStep(0, 0, map[])]
            && acc.Success?
            && var (st2, c1) := Tick(st1.(acc := acc.value), 0);
               c1 == [GameStep(1, 0, map[0 := PlayerInputs(0, [Input(38, true)])]), GameStep(0, 0, map[])]
  {
    var s0 := GameStep(0, 0, map[]);
    var st1 := ServerState(map[], History(map[0 := s0], 0, HistorySize), 1);
    assert Tick(Fresh0(), 0).0 == st1;
    var held := map[0 := PlayerInputs(0, [Input(38, true)])];
    RecordUpPressed();
    MapExt(Deltas(held, s0), held);
    var s1 := GameStep(1, 0, held);
    assert |map[0 := s0][1 := s1]| == 2;
  }
}
