/** The `Client` class of LockstepClient/Client.cs with the socket removed:
    each datagram received is a method argument and each datagram sent is a
    function of what the client knows. */
module LockstepClient {
  import opened Wrappers
  import opened Bytes
  import opened WireCodec
  import opened GameHistories
  import Messages

  /** `new GameHistory(2048)`. */
  const ClientHistorySize := 2048

  /** A received step may be at most this far ahead of the highest seen. */
  const MaxLead := 8

  // ---------------------------------------------------------------- keys

  /** The Unity key codes the client can be asked to send. */
  datatype KeyCode = RightArrow | LeftArrow | DownArrow | UpArrow | OtherKey(code: int)

  /** The `ArgumentException` of `MapKey`. */
  datatype KeyError = UnsupportedKey(key: KeyCode)

  /** The `System.ConsoleKey` values of the four arrows. */
  const ConsoleLeftArrow: U8 := 37
  const ConsoleUpArrow: U8 := 38
  const ConsoleRightArrow: U8 := 39
  const ConsoleDownArrow: U8 := 40

  /** `MapKey`: each arrow to its console key; every other key is refused. */
  function MapKey(k: KeyCode): (r: Result<U8, KeyError>)
    ensures r.Failure? <==> k.OtherKey?
    ensures r.Failure? ==> r.error == UnsupportedKey(k)
    ensures r.Success? ==> ConsoleLeftArrow <= r.value <= ConsoleDownArrow
  {
    match k
    case RightArrow => Success(ConsoleRightArrow)
    case LeftArrow => Success(ConsoleLeftArrow)
    case DownArrow => Success(ConsoleDownArrow)
    case UpArrow => Success(ConsoleUpArrow)
    case OtherKey(_) => Failure(UnsupportedKey(k))
  }

  /** The arrow a console key stands for. */
  function KeyOf(c: U8): Option<KeyCode> {
    if c == ConsoleRightArrow then Some(RightArrow)
    else if c == ConsoleLeftArrow then Some(LeftArrow)
    else if c == ConsoleDownArrow then Some(DownArrow)
    else if c == ConsoleUpArrow then Some(UpArrow)
    else None
  }

  /** `MapKey` is one-to-one: the console key sent names the arrow pressed,
      and every arrow console key is sent for some key. */
  lemma MapKeyRoundTrip(k: KeyCode, c: U8)
    ensures MapKey(k).Success? ==> KeyOf(MapKey(k).value) == Some(k)
    ensures KeyOf(c).Some? ==> MapKey(KeyOf(c).value) == Success(c)
    ensures KeyOf(c).Some? <==> ConsoleLeftArrow <= c <= ConsoleDownArrow
  {
  }

  // ---------------------------------------------------------------- payloads

  const SynAckTag: U8 := Messages.ServerMessage.SynAck.Tag()
  const SynPayload: seq<U8> := [Messages.ClientMessage.Syn.Tag()]
  const SynAckAckPayload: seq<U8> := [Messages.ClientMessage.SynAckAck.Tag()]
  const StartReadyPayload: seq<U8> := [Messages.ClientMessage.StartReady.Tag()]

  /** `JoinGame`: the tag followed by the encoded name. */
  function JoinPayload(name: seq<U8>): (r: seq<U8>)
    ensures |r| == |name| + 1 && r[0] == Messages.ClientMessage.JoinGame.Tag() && r[1..] == name
  {
    [Messages.ClientMessage.JoinGame.Tag()] + name
  }

  /** `SendPlayerInput(k, on)`: tag, console key, 1 for pressed and 0 for
      released; `MapKey` throws before anything is sent for other keys. */
  function InputPayload(k: KeyCode, on: bool): (r: Result<seq<U8>, KeyError>)
    ensures r.Success? <==> !k.OtherKey?
    ensures r.Success? ==> && |r.value| == 3
                           && r.value[0] == Messages.ClientMessage.PlayerInput.Tag()
                           && KeyOf(r.value[1]) == Some(k)
                           && r.value[2] == (if on then 1 else 0)
  {
    var code :- MapKey(k);
    Success([Messages.ClientMessage.PlayerInput.Tag(), code, if on then 1 else 0])
  }

  /** `ConnectToServer` after its `Syn`: a reply starting with `SynAck` is
      answered with `SynAckAck`; any other reply, the empty one included
      (`msg[0]` throws and the exception is caught), fails the connection. */
  function ConnectAnswer(reply: seq<U8>): (r: Option<seq<U8>>)
    ensures r.Some? <==> |reply| > 0 && reply[0] == SynAckTag
    ensures r.Some? ==> r.value == SynAckAckPayload
  {
    if |reply| > 0 && reply[0] == SynAckTag then Some(SynAckAckPayload) else None
  }

  // ---------------------------------------------------------------- state

  /** The history, `_highestGameStepNum` and `_unityGameStepNum`. */
  datatype ClientState = ClientState(history: History, highest: U16, next: U16)

  /** Why the update loop ends: `msg[0]` of an empty datagram throws, the
      collection does not decode, or a step is too far ahead. */
  datatype StopReason = EmptyDatagram | Malformed(error: DecodeError) | Disconnected(stepNumber: U16)

  datatype IntakeOutcome = Listening | Stopped(reason: StopReason)

  /** `Math.Max` on two `UInt16`s. */
  function Max16(a: U16, b: U16): (r: U16)
    ensures r >= a && r >= b && (r == a || r == b)
  {
    if a >= b then a else b
  }

  /** `_highestGameStepNum` after the steps `ss` have been taken in turn,
      starting from `hi`. */
  function RunMax(hi: U16, ss: seq<GameStep>): U16
    decreases |ss|
  {
    if ss == [] then hi else Max16(ss[|ss| - 1].stepNumber, RunMax(hi, ss[..|ss| - 1]))
  }

  /** The running maximum is the largest of `hi` and the step numbers taken. */
  lemma {:induction false} RunMaxBounds(hi: U16, ss: seq<GameStep>)
    ensures RunMax(hi, ss) >= hi
    ensures forall i :: 0 <= i < |ss| ==> ss[i].stepNumber <= RunMax(hi, ss)
    ensures RunMax(hi, ss) == hi || exists i :: 0 <= i < |ss| && ss[i].stepNumber == RunMax(hi, ss)
    decreases |ss|
  {
    if ss != [] {
      var p := ss[..|ss| - 1];
      RunMaxBounds(hi, p);
      assert forall i :: 0 <= i < |p| ==> ss[i] == p[i];
    }
  }

  /** Step `j` passes the `StepNumber > _highestGameStepNum + 8` test when its
      turn comes (the sum is taken in `int`, so it does not wrap). */
  predicate Admissible(hi: U16, ss: seq<GameStep>, j: nat)
    requires j < |ss|
  {
    ss[j].stepNumber <= RunMax(hi, ss[..j]) + MaxLead
  }

  /** The index of the first step, from `i` on, that fails the test, or
      `|ss|` when none does. */
  function FirstGap(hi: U16, ss: seq<GameStep>, i: nat): (r: nat)
    requires i <= |ss|
    ensures i <= r <= |ss|
    ensures forall j :: i <= j < r ==> Admissible(hi, ss, j)
    ensures r < |ss| ==> !Admissible(hi, ss, r)
    decreases |ss| - i
  {
    if i == |ss| || !Admissible(hi, ss, i) then i else FirstGap(hi, ss, i + 1)
  }

  /** The `foreach` over a decoded collection: steps are taken in turn until
      one is too far ahead; the ones before it stay added. */
  function Admit(st: ClientState, ss: seq<GameStep>): (ClientState, IntakeOutcome) {
    var k := FirstGap(st.highest, ss, 0);
    var st' := st.(history := AddAll(st.history, ss[..k]), highest := RunMax(st.highest, ss[..k]));
    (st', if k < |ss| then Stopped(Disconnected(ss[k].stepNumber)) else Listening)
  }

  /** One turn of `GetGameUpdates`: a datagram whose tag is not
      `GameStepCollection` is ignored. */
  function Intake(st: ClientState, datagram: seq<U8>): (ClientState, IntakeOutcome) {
    if datagram == [] then (st, Stopped(EmptyDatagram))
    else if datagram[0] != CollectionTag then (st, Listening)
    else match DecodeCollection(datagram)
      case Failure(e) => (st, Stopped(Malformed(e)))
      case Success(c) => Admit(st, c.steps)
  }

  lemma {:induction false} AddAllKeyed(h: History, ss: seq<GameStep>)
    requires Keyed(h.steps)
    ensures Keyed(AddAll(h, ss).steps)
    decreases |ss|
  {
    if ss != [] {
      AddAllKeyed(h, ss[..|ss| - 1]);
      AddKeepsKeyed(AddAll(h, ss[..|ss| - 1]), ss[|ss| - 1]);
    }
  }

  /** A turn never lowers the highest step seen, never moves the playback
      cursor, keeps every step under its own number, and a disconnect names
      a step more than `MaxLead` ahead of the highest step then seen. */
  lemma IntakeMonotone(st: ClientState, datagram: seq<U8>)
    requires Keyed(st.history.steps)
    ensures var (st', out) := Intake(st, datagram);
            && st'.highest >= st.highest
            && st'.next == st.next
            && Keyed(st'.history.steps)
            && (out.Stopped? && out.reason.Disconnected? ==> out.reason.stepNumber > st'.highest + MaxLead)
  {
    if datagram != [] && datagram[0] == CollectionTag && DecodeCollection(datagram).Success? {
      var ss := DecodeCollection(datagram).value.steps;
      var k := FirstGap(st.highest, ss, 0);
      RunMaxBounds(st.highest, ss[..k]);
      AddAllKeyed(st.history, ss[..k]);
    }
  }

  /** Newest first, as the server writes it, a collection is taken whole or
      not at all: everything when its newest step is at most `MaxLead` ahead,
      nothing otherwise. */
  lemma AllOrNothing(hi: U16, ss: seq<GameStep>)
    requires NewestFirst(ss) && ss != []
    ensures ss[0].stepNumber <= hi + MaxLead ==> FirstGap(hi, ss, 0) == |ss|
    ensures ss[0].stepNumber > hi + MaxLead ==> FirstGap(hi, ss, 0) == 0
  {
    if ss[0].stepNumber <= hi + MaxLead {
      forall j | 0 <= j < |ss| ensures Admissible(hi, ss, j) {
        RunMaxBounds(hi, ss[..j]);
      }
    } else {
      assert ss[..0] == [];
      assert !Admissible(hi, ss, 0);
    }
  }

  /** From highest step 0: step 9 disconnects and step 8 is taken; steps 8
      then 17 take 8 and then disconnect on 17, since the bound moved only
      to 16. */
  lemma LeadExamples(h: History)
    ensures var s8, s9, s17 := GameStep(8, 0, map[]), GameStep(9, 0, map[]), GameStep(17, 0, map[]);
            && Admit(ClientState(h, 0, 0), [s9]) == (ClientState(h, 0, 0), Stopped(Disconnected(9)))
            && Admit(ClientState(h, 0, 0), [s8]) == (ClientState(Added(h, s8), 8, 0), Listening)
            && Admit(ClientState(h, 0, 0), [s8, s17]) == (ClientState(Added(h, s8), 8, 0), Stopped(Disconnected(17)))
  {
    var s8, s9, s17 := GameStep(8, 0, map[]), GameStep(9, 0, map[]), GameStep(17, 0, map[]);
    assert [s9][..0] == [] && [s8][..0] == [] && [s8][..1] == [s8];
    assert !Admissible(0, [s9], 0);
    assert Admissible(0, [s8], 0);
    assert AddAll(h, [s8]) == Added(AddAll(h, []), s8);
    var two := [s8, s17];
    assert two[..0] == [] && two[..1] == [s8];
    assert RunMax(0, [s8]) == 8;
    assert Admissible(0, two, 0) && !Admissible(0, two, 1);
    assert FirstGap(0, two, 0) == 1;
  }

  // ---------------------------------------------------------------- playback

  /** The `InvalidProgramException` of `GetNextStep`. */
  datatype PollError = OutOfOrder(expected: U16, found: U16)

  /** `GetNextStep`: the step numbered `_unityGameStepNum`, if it has
      arrived, after which the cursor moves on (wrapping at 65536). */
  function Poll(st: ClientState): (r: (Result<Option<GameStep>, PollError>, ClientState))
    ensures r.1.history == st.history && r.1.highest == st.highest
    ensures r.0 == Success(None) <==> st.next !in st.history.steps
    ensures r.0.Success? && r.0.value.Some? ==> r.0.value.value.stepNumber == st.next && r.1.next == Inc16(st.next)
    ensures r.0.Success? && r.0.value.Some? ==> r.0.value.value == st.history.steps[st.next]
    ensures (r.0 == Success(None) || r.0.Failure?) ==> r.1 == st
  {
    if st.next in st.history.steps then
      var s := st.history.steps[st.next];
      if st.next != s.stepNumber then (Failure(OutOfOrder(st.next, s.stepNumber)), st)
      else (Success(Some(s)), st.(next := Inc16(st.next)))
    else (Success(None), st)
  }

  /** The exception cannot happen while every step is stored under its own
      number. */
  lemma PollNeverFails(st: ClientState)
    requires Keyed(st.history.steps)
    ensures Poll(st).0.Success?
  {
  }

  /** A step just added with room to spare, numbered as the cursor, is the
      next one played back. */
  lemma PollFindsAdded(st: ClientState, s: GameStep)
    requires |st.history.steps| < st.history.size
    requires s.stepNumber == st.next
    ensures Poll(st.(history := Added(st.history, s))) == (Success(Some(s)), ClientState(Added(st.history, s), st.highest, Inc16(st.next)))
  {
    AddThenGet(st.history, s);
  }

  // ---------------------------------------------------------------- the class

  class Client {
    /** `_name`, already encoded. */
    const name: seq<U8>
    /** `_gameHistory`. */
    const history: GameHistory
    /** `_highestGameStepNum`. */
    var highest: U16
    /** `_unityGameStepNum`. */
    var next: U16

    function State(): ClientState
      reads this, history
    {
      ClientState(history.State(), highest, next)
    }

    ghost predicate Valid()
      reads this, history
    {
      Keyed(history.steps) && history.size == ClientHistorySize
    }

    constructor(name: seq<U8>)
      ensures Valid() && fresh(history)
      ensures this.name == name
      ensures State() == ClientState(Empty(ClientHistorySize), 0, 0)
    {
      this.name := name;
      history := new GameHistory(ClientHistorySize);
      highest := 0;
      next := 0;
    }

    /** `GetNextStep`. The step found is always numbered as the cursor, so
        the source's `InvalidProgramException` is never thrown. */
    method GetNextStep() returns (r: Option<GameStep>)
      requires Valid()
      modifies this
      ensures Valid()
      ensures (Success(r), State()) == Poll(old(State()))
    {
      r := history.TryGet(next);
      if r.Some? {
        assert next == r.value.stepNumber;
        next := Inc16(next);
      }
    }

    /** One turn of `GetGameUpdates`. */
    method Receive(datagram: seq<U8>) returns (out: IntakeOutcome)
      requires Valid()
      modifies this, history
      ensures Valid()
      ensures (State(), out) == Intake(old(State()), datagram)
    {
      if datagram == [] {
        return Stopped(EmptyDatagram);
      }
      if datagram[0] != CollectionTag {
        return Listening;
      }
      var d := DecodeCollection(datagram);
      if d.Failure? {
        return Stopped(Malformed(d.error));
      }
      var steps := d.value.steps;
      ghost var st0 := State();
      assert Intake(st0, datagram) == Admit(st0, steps);
      ghost var k := FirstGap(st0.highest, steps, 0);
      var i := 0;
      while i < |steps|
        invariant 0 <= i <= k
        invariant highest == RunMax(st0.highest, steps[..i])
        invariant history.State() == AddAll(st0.history, steps[..i])
        invariant next == st0.next
        invariant Keyed(history.steps)
      {
        var s := steps[i];
        if s.stepNumber > highest + MaxLead {
          assert !Admissible(st0.highest, steps, i);
          assert i == k;
          return Stopped(Disconnected(s.stepNumber));
        }
        assert Admissible(st0.highest, steps, i);
        assert i < k;
        assert steps[..i + 1][..i] == steps[..i];
        AddKeepsKeyed(history.State(), s);
        highest := Max16(s.stepNumber, highest);
        history.Add(s);
        i := i + 1;
      }
      assert steps[..i] == steps;
      return Listening;
    }
  }
}
