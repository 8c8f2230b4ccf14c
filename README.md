# LockStep in Dafny

A model of the deterministic core of LockStep, a small lockstep-multiplayer
protocol written in C#. A server collects each player's key presses and
packs them into numbered game steps, about sixty a second. It broadcasts
every step, along with up to two older ones, to all clients over UDP. Each
client plays the steps back strictly in order.

The model covers:

- the binary wire codec of `GameStepCollection`, `GameStep` and
  `PlayerInputs` (`codec.dfy`, module `WireCodec`), and the message tags
  (`base.dfy`, module `Messages`);
- `GameHistory`, the bounded step dictionary with its wrapping eviction
  cursor (`history.dfy`);
- `BitVector` (`bitvector.dfy`) and the two ring buffers `CircularBuffer<T>`
  and `CircularBuff<T>` (`circular.dfy`);
- the server:
  - the connection handshake of `AcceptPlayerConnections` (`handshake.dfy`);
  - the input accumulator of `HandlePlayerInput` and the step builder of
    `SendPlayerUpdates` (`ticks.dfy`);
  - the `Server` class that holds their state (`server.dfy`);
- the client: `GetNextStep`, the intake loop of `GetGameUpdates`, the
  payloads it sends and `MapKey` (`client.dfy`);
- how the two sides fit together (`protocol.dfy`).

Code that mutates state is modelled as classes and methods:

- `GameHistory.Add` has its eviction loop;
- the ring buffers write into an `array`;
- `BitVector` holds a `bv64` field;
- `Server` and `Client` hold the dictionaries, counters and history.

Each of these methods is proved against a pure function. The properties are
then proved about that function.

Integers are unbounded in Dafny, so the source's fixed widths are spelled
out:

- `UInt16` arithmetic wraps at 65536 (`Bytes.Wrap16`, `Bytes.Inc16`);
- `(byte)` casts truncate (`Bytes.ByteOf`);
- C#'s `%` takes the sign of the dividend (`ModArith.CRem`);
- shifts of a `UInt64` use the low six bits of the count
  (`BitVectors.ShiftOf`).

The code reads a pressed flag two ways, and the model keeps both:
`HandlePlayerInput` on the server takes any non-zero value byte as pressed
(LockstepServer/Server.cs:217), while the `PlayerInputs` decoder takes only
the byte 1 as pressed (LockstepBase/DataStructures.cs:114).

The code behaves as follows where its error handling decides the outcome:

- On the client, an empty datagram or a collection that does not decode
  throws inside the receive loop. The catch ends the loop rather than
  dropping the datagram.
- The accept loop's catch is inside the `Task.Run` delegate it awaits. So every exception
  ends the accept loop, and the server goes on to the game phase. This
  includes an empty datagram, a second `Syn` from the same endpoint and a
  null slot. See "## Findings".

The `Server` class runs the corrected behaviour of both findings below, not
the code as written:

- `Server.Tick` follows `GameTicks.Tick`, which copies the accumulator into
  the step and clears it on every tick. The first tick exactly as written is
  `GameTicks.TickAsWritten`.
- `Server.Accept` follows `Handshake.AcceptWaiting`, where a null slot counts
  as not ready. The accept turn exactly as written is `Handshake.Accept`.

The two ring buffers `CircularBuffers.CircularBuffer` and
`CircularBuffs.CircularBuff` are two separate classes in the source, with
the same `IsEmpty`; the model keeps both, so that member appears twice.

## Model

| member | source | states |
|---|---|---|
| Bytes.Inc16 | LockstepServer/Server.cs:314 | `_stepNumber++` adds one below 65535 and wraps 65535 to 0 |
| Bytes.ByteOf | LockstepBase/DataStructures.cs:86 | the `(byte)` cast of a count is the count itself below 256 |
| Bytes.FromLittleEndian | LockstepBase/DataStructures.cs:66 | two bytes read as a `UInt16` give back those low and high bytes |
| Bytes.LittleEndianRoundTrip | LockstepBase/DataStructures.cs:84 | a `UInt16` written little-endian reads back unchanged |
| Messages.ServerMessageOf | LockstepBase/DataStructures.cs:11-17 | exactly the bytes 1 to 5 name a server message, and the message named has that tag |
| Messages.ServerTagRoundTrip | LockstepBase/DataStructures.cs:11-17 | every server message's tag reads back as that message |
| Messages.ClientMessageOf | LockstepBase/DataStructures.cs:19-25 | exactly the bytes 1 to 5 name a client message, and the message named has that tag |
| Messages.ClientTagRoundTrip | LockstepBase/DataStructures.cs:19-25 | every client message's tag reads back as that message |
| ModArith.CRem | LockstepBase/DataStructures.cs:226 | C#'s `%`: the Euclidean remainder for a non-negative dividend, its negation for a negative one, never below `-b` |
| WireCodec.ToMap | LockstepBase/DataStructures.cs:98 | the dictionary view of an input list has exactly the list's codes as keys |
| WireCodec.ToMapAt | LockstepBase/DataStructures.cs:98 | with distinct codes, each listed code maps to its listed value |
| WireCodec.EncodeInputs | LockstepBase/DataStructures.cs:122-125 | each input takes two bytes |
| WireCodec.DecodeInputs | LockstepBase/DataStructures.cs:111-115 | a successful read yields exactly `count` more inputs, with no code repeated |
| WireCodec.DecodePlayerInputs | LockstepBase/DataStructures.cs:105-116 | a decoded entry has fewer than 256 inputs and no repeated code |
| WireCodec.InputsRoundTrip | LockstepBase/DataStructures.cs:105-126 | reading back the written inputs restores them in order and leaves the remaining bytes |
| WireCodec.PlayerInputsRoundTrip | LockstepBase/DataStructures.cs:105-126 | an entry with fewer than 256 distinct codes decodes to itself |
| WireCodec.EncodePlayerInputs | LockstepBase/DataStructures.cs:118-126 | the player id, the `(byte)` count and two bytes per input; `PlayerInputsRoundTrip` and `RepeatedCodeRejected` state what reads back |
| WireCodec.InputsDecodeIff | LockstepBase/DataStructures.cs:111-115 | for any written list, reading succeeds exactly when no code repeats one read before it |
| WireCodec.InputsRejectRepeats | LockstepBase/DataStructures.cs:111-115 | a failed read names a code that repeats one read before it |
| WireCodec.RepeatedCodeRejected | LockstepBase/DataStructures.cs:105-116 | for any written entry of fewer than 256 inputs, decoding succeeds exactly when its codes are distinct, and then gives the entry back |
| WireCodec.RepeatedCodeNamed | LockstepBase/DataStructures.cs:111-115 | a written entry that fails to decode fails on a code repeating an earlier one, wherever the two sit |
| WireCodec.AscendingIds | LockstepBase/DataStructures.cs:88 | the write order of players: every id present, strictly ascending |
| WireCodec.DecodePlayers | LockstepBase/DataStructures.cs:71-74 | each decoded entry is keyed by its own player id and well formed |
| WireCodec.PlayersRoundTrip | LockstepBase/DataStructures.cs:71-89 | players written in a given id order read back into the same dictionary |
| WireCodec.EncodeStep | LockstepBase/DataStructures.cs:83-91 | the little-endian step number, the elapsed byte, the `(byte)` player count and the entries by ascending id; `StepRoundTrip` states what reads back |
| WireCodec.DecodeStep | LockstepBase/DataStructures.cs:65-75 | reads the header and the player entries; `StepRoundTrip` and `RepeatedPlayerRejected` state its results |
| WireCodec.StepRoundTrip | LockstepBase/DataStructures.cs:65-91 | a step with fewer than 256 well-formed players decodes to itself |
| WireCodec.PlayersDecodeIff | LockstepBase/DataStructures.cs:71-74 | for any written list of well-formed entries, reading succeeds exactly when no player id repeats or is already present |
| WireCodec.PlayersRejectRepeats | LockstepBase/DataStructures.cs:71-74 | a failed read names a player id that repeats one read before it |
| WireCodec.RepeatedPlayerRejected | LockstepBase/DataStructures.cs:65-75 | for any step header and any fewer than 256 well-formed entries, decoding succeeds exactly when the player ids are distinct; otherwise it fails on an id repeating an earlier one, wherever the two sit |
| WireCodec.InsertByStep | LockstepBase/DataStructures.cs:53 | inserting keeps the same steps plus the new one and keeps newest-first order |
| WireCodec.OrderByDescendingStep | LockstepBase/DataStructures.cs:53 | the write order of steps is a permutation of the steps, newest first |
| WireCodec.SortedSameSteps | LockstepBase/DataStructures.cs:53 | sorting keeps the count and exactly the same steps |
| WireCodec.EncodeSteps | LockstepBase/DataStructures.cs:53-55 | the steps written one after another; `StepsRoundTrip` states what reads back |
| WireCodec.EncodeCollection | LockstepBase/DataStructures.cs:50-56 | tag 4, the `(byte)` count, then the steps newest first; `CollectionRoundTrip` states what reads back |
| WireCodec.DecodeSteps | LockstepBase/DataStructures.cs:42-47 | reads `count` steps in order; `DecodeStepsLength` and `StepsRoundTrip` state its results |
| WireCodec.DecodeCollection | LockstepBase/DataStructures.cs:39-48 | a decoded collection started with tag 4 and has as many steps as its count byte |
| WireCodec.DecodeStepsLength | LockstepBase/DataStructures.cs:44-47 | a successful read yields exactly the announced number of steps |
| WireCodec.StepsRoundTrip | LockstepBase/DataStructures.cs:44-55 | written steps read back in order and leave the remaining bytes |
| WireCodec.TagChecked | LockstepBase/DataStructures.cs:39-41 | any first byte other than 4 makes decoding fail with that byte |
| WireCodec.CollectionRoundTrip | LockstepBase/DataStructures.cs:35-56 | a collection of fewer than 256 well-formed steps decodes to its steps newest first |
| BitVectors.WithBit | LockstepBase/DataStructures.cs:148-153 | or-s the mask into `Data` for 1 and clears it otherwise; `SetThenGet` and `SetLeavesOthers` state its effect |
| BitVectors.Pack | LockstepBase/DataStructures.cs:132-137 | the constructor's or-ing of each byte shifted by eight times its index; `PackBytes` and `NinthByteWraps` state its value |
| BitVectors.BitOf | LockstepBase/DataStructures.cs:156-161 | `GetBit` yields 0 or 1 |
| BitVectors.SetThenGet | LockstepBase/DataStructures.cs:143-161 | after `SetBit(i, v)`, `GetBit(i)` is 1 exactly when v is 1 |
| BitVectors.SetLeavesOthers | LockstepBase/DataStructures.cs:143-161 | `SetBit` leaves every other bit as it was |
| BitVectors.ShiftOfIndex | LockstepBase/DataStructures.cs:144-147 | indices 0 to 63 are distinct bits; the shift count wraps, so a negative index such as -1 names bit 63 |
| BitVectors.Serialized | LockstepBase/DataStructures.cs:163-165 | `Serialize(length)` has `length` bytes clamped to 0 to 8, the little-endian bytes of `Data` |
| BitVectors.PackBytes | LockstepBase/DataStructures.cs:132-137 | up to eight input bytes land in lanes 0 to 7 in order, with zero lanes above them |
| BitVectors.PackRoundTrip | LockstepBase/DataStructures.cs:132-165 | `new BitVector(data).Serialize(data.Length)` returns `data` for at most eight bytes |
| BitVectors.NinthByteWraps | LockstepBase/DataStructures.cs:135 | a ninth byte's shift of 64 wraps to 0, so it is or-ed into the first byte |
| BitVectors.BitVector.FromBytes | LockstepBase/DataStructures.cs:132-137 | the constructor's loop accumulates the packed value of the bytes |
| BitVectors.BitVector.Copy | LockstepBase/DataStructures.cs:139-141 | the copy holds the same data |
| BitVectors.BitVector.SetBit | LockstepBase/DataStructures.cs:143-154 | an index above 63 fails and changes nothing; otherwise the bit is set for 1 and cleared for any other value |
| BitVectors.BitVector.GetBit | LockstepBase/DataStructures.cs:156-161 | fails exactly for an index above 63, else reads the bit |
| BitVectors.BitVector.Serialize | LockstepBase/DataStructures.cs:163-165 | the first `length` little-endian bytes of the data |
| BitVectors.BitVector.ToEnumerable | LockstepBase/DataStructures.cs:167-171 | 64 flags, flag i being bit i |
| GameHistories.Empty | LockstepBase/DataStructures.cs:182-186 | a new history holds nothing, with cursor 0 and the given bound |
| GameHistories.Dist | LockstepBase/DataStructures.cs:194-198 | the number of wrapping `_min++` steps between two keys: below 65536, zero exactly for equal keys |
| GameHistories.FirstPresent | LockstepBase/DataStructures.cs:192-200 | the eviction scan stops at a present key no further than any known present key |
| GameHistories.FirstPresentIsFirst | LockstepBase/DataStructures.cs:192-200 | no key between the cursor and the key evicted is present |
| GameHistories.FirstPresentSkip | LockstepBase/DataStructures.cs:197-198 | an absent key at the cursor just moves the scan one on |
| GameHistories.FirstPresentUnique | LockstepBase/DataStructures.cs:192-200 | the key evicted does not depend on which present key bounds the scan |
| GameHistories.DistInjective | LockstepBase/DataStructures.cs:194-198 | equal distances from the cursor mean equal keys |
| GameHistories.Added | LockstepBase/DataStructures.cs:188-202 | `Add` keeps the bound |
| GameHistories.AddKeepsBound | LockstepBase/DataStructures.cs:188-202 | if `Count <= size` held before `Add`, it holds after |
| GameHistories.OverflowEvictsOne | LockstepBase/DataStructures.cs:191-200 | on overflow exactly one key is removed, the first present at or after `_min` with wrap-around, and `_min` ends one past it |
| GameHistories.ReAddOverwrites | LockstepBase/DataStructures.cs:188-191 | re-adding a present step number overwrites it, evicts nothing and keeps the count |
| GameHistories.AddThenGet | LockstepBase/DataStructures.cs:188-206 | with room, or when overwriting, `TryGet(s.StepNumber)` after `Add(s)` finds `s` |
| GameHistories.AddKeepsKeyed | LockstepBase/DataStructures.cs:189 | every step stays stored under its own step number |
| GameHistories.FillStep | LockstepBase/DataStructures.cs:188-201 | one ascending add moves the window of retrievable numbers up by one |
| GameHistories.AscendingFill | LockstepBase/DataStructures.cs:188-201 | adding steps 0, 1, 2, ... in order leaves exactly the last `size` retrievable, with the cursor at the oldest |
| GameHistories.GameHistory.constructor | LockstepBase/DataStructures.cs:182-186 | a new history is empty with the given bound |
| GameHistories.GameHistory.Count | LockstepBase/DataStructures.cs:176 | the number of stored steps |
| GameHistories.GameHistory.Add | LockstepBase/DataStructures.cs:188-202 | the loop stores the step and performs exactly the eviction `Added` describes |
| GameHistories.GameHistory.TryGet | LockstepBase/DataStructures.cs:204-206 | finds a step exactly when its number is stored, and returns that step |
| CircularBuffers.Inc | LockstepBase/CircularBuffer.cs:36-38 | moves one slot forward in range and wraps `length - 1` to 0 |
| CircularBuffers.Dec | LockstepBase/CircularBuffer.cs:40-42 | moves one slot back in range and wraps 0 to `length - 1` |
| CircularBuffers.IncDecInverse | LockstepBase/CircularBuffer.cs:36-42 | `Inc` and `Dec` undo each other on the valid slots |
| CircularBuffers.DecMod | LockstepBase/CircularBuffer.cs:40-42 | stepping back from a slot is the slot of one add earlier |
| CircularBuffers.CircularBuffer.constructor | LockstepBase/CircularBuffer.cs:14-17 | a new buffer is empty with the given capacity |
| CircularBuffers.CircularBuffer.IsEmpty | LockstepBase/CircularBuffer.cs:12 | true exactly when nothing has been added |
| CircularBuffers.CircularBuffer.Add | LockstepBase/CircularBuffer.cs:19-22 | appends to the contents, advances the index with `Inc` into range, and writes exactly that one slot |
| CircularBuffers.CircularBuffer.GetTop | LockstepBase/CircularBuffer.cs:24-26 | the element added last |
| CircularBuffers.CircularBuffer.GetNth | LockstepBase/CircularBuffer.cs:28-34 | throws exactly on an empty buffer when `n <= 0` or the capacity is 0; otherwise `GetNth(0)` is `GetTop()`, for `n` below the capacity and the number of adds it is the element added `n` adds before the latest, in general the slot `n` back with wrap-around, and on an empty buffer the slot `-n` with wrap-around |
| CircularBuffs.CircularBuff.constructor | LockstepBase/DataStructures.cs:215-218 | a new buffer is empty with the given capacity |
| CircularBuffs.CircularBuff.Count | LockstepBase/DataStructures.cs:213 | the number of adds, not capped at the capacity |
| CircularBuffs.CircularBuff.IsEmpty | LockstepBase/DataStructures.cs:238-240 | true exactly when nothing has been added |
| CircularBuffs.CircularBuff.CurIdx | LockstepBase/DataStructures.cs:225-227 | the slot of the latest add; before the first add -1, or 0 for capacity 1 |
| CircularBuffs.CircularBuff.Add | LockstepBase/DataStructures.cs:220-223 | appends to the contents and writes exactly slot `(adds - 1) % capacity` |
| CircularBuffs.CircularBuff.GetTop | LockstepBase/DataStructures.cs:229-231 | the element added last; before the first add it fails, except at capacity 1 |
| CircularBuffs.CircularBuff.GetLast | LockstepBase/DataStructures.cs:233-236 | for `n <= _curIdx` and `n` below the capacity, the element `n` adds before the latest; fails exactly when `n` reaches before the first add by a non-multiple of the capacity |
| Handshake.Advance | LockstepServer/Server.cs:87-159 | the state a `SynAckAck`, `JoinGame` or `StartReady` moves a session to, each accepted in one state only; `HandshakeOrder` states the resulting order |
| Handshake.Join | LockstepServer/Server.cs:109-138 | an accepted `JoinGame`; `JoinTakesLowestSlot` states its effect |
| Handshake.Accept | LockstepServer/Server.cs:58-177 | one accept turn exactly as written; `AcceptKeepsValid`, `SynRegisters`, `AcceptAdvances`, `ReadyEndsLoop` and `EarlyReadyEndsLoop` state its effect |
| Handshake.Run | LockstepServer/Server.cs:87-159 | a session's state after a run of messages, a `Syn` leaving it unchanged (in the accept loop a repeated `Syn` ends the loop instead, as `Accept` states); `HandshakeOrder` states when it reaches `StartGame` |
| Handshake.FirstFree | LockstepServer/Server.cs:132-138 | the slot search finds the lowest null slot, or reports that every slot is taken |
| Handshake.Scan | LockstepServer/Server.cs:162 | the ready check succeeds exactly when every slot holds a session in `StartGame` |
| Handshake.AcceptKeepsValid | LockstepServer/Server.cs:109-138 | every turn keeps each placed session registered, joined, carrying its slot index as id, and in one slot only |
| Handshake.SynRegisters | LockstepServer/Server.cs:70-85 | a `Syn` from a new endpoint opens a `SynAck` session and replies `[1]`; from a known endpoint it ends the loop |
| Handshake.AcceptAdvances | LockstepServer/Server.cs:87-171 | other tags keep the set of sessions and every other session, reply nothing, and move the sender as `Advance` says; unknown senders change nothing |
| Handshake.JoinTakesLowestSlot | LockstepServer/Server.cs:109-138 | an accepted `JoinGame` records the name and takes the lowest null slot, whose index becomes the id; with no slot free the id is kept |
| Handshake.ReadyEndsLoop | LockstepServer/Server.cs:142-167 | an accepted `StartReady` ends the loop with everyone ready exactly when there is a slot and every slot is started |
| Handshake.OnlyReadyEndsCleanly | LockstepServer/Server.cs:162-167 | the clean end of the loop implies every slot is started |
| Handshake.EarlyReadyEndsLoop | LockstepServer/Server.cs:162 | as written: with a slot still empty, a `StartReady` ends the loop on the null slot |
| Handshake.AcceptWaiting | LockstepServer/Server.cs:162-167 | the corrected turn never ends on a null slot and differs from the source only there |
| Handshake.WaitingStartsOnlyWhenFull | LockstepServer/Server.cs:142-167 | corrected: a `StartReady` ends the loop exactly when it is accepted and every slot then holds a started session |
| Handshake.EarlyReadyWaits | LockstepServer/Server.cs:162-167 | corrected: the lobby of the counterexample keeps waiting |
| Handshake.HandshakeOrder | LockstepServer/Server.cs:87-159 | a session reaches `StartGame` exactly when `SynAckAck`, `JoinGame` and `StartReady` arrive in that order |
| GameTicks.Record | LockstepServer/Server.cs:203-230 | `HandlePlayerInput` on the accumulator; `RecordFails`, `RecordUpdates`, `RecordKeepsValid` and `RecordIdempotent` state its effect |
| GameTicks.RecordFails | LockstepServer/Server.cs:203-230 | recording fails exactly when the code is held with the other value, and reports that player and code |
| GameTicks.RecordUpdates | LockstepServer/Server.cs:203-223 | other lengths change nothing; otherwise the player gets an entry and the code holds the new value, and all else is kept |
| GameTicks.RecordKeepsValid | LockstepServer/Server.cs:210-223 | every entry stays keyed by its player with no code repeated |
| GameTicks.RecordIdempotent | LockstepServer/Server.cs:221-225 | recording the same payload twice is the same as once |
| GameTicks.Changed | LockstepServer/Server.cs:262-264 | the inputs absent from, or differing from, the previous entry; `ChangedFilters` and `ChangedPatch` state its result |
| GameTicks.DeltaFor | LockstepServer/Server.cs:257-277 | one player's entry in the new step; `ChangedPatch` and `TickDelivers` state its result |
| GameTicks.ChangedFilters | LockstepServer/Server.cs:262-264 | the delta keeps exactly the inputs absent from, or differing from, the previous entry, with no code repeated |
| GameTicks.ChangedPatch | LockstepServer/Server.cs:257-277 | the previous entry overlaid with the delta equals it overlaid with everything accumulated |
| GameTicks.Deltas | LockstepServer/Server.cs:257-277 | the new step has an entry for exactly the accumulated players |
| GameTicks.RedundantDistinct | LockstepServer/Server.cs:289-308 | at most two older numbers are repeated, all below `n` and distinct |
| GameTicks.RedundantExamples | LockstepServer/Server.cs:293-307 | n = 0, 1, 2, 3 and 10 repeat none, [0], [0], [1, 0] and [8, 2] |
| GameTicks.Present | LockstepServer/Server.cs:296-306 | a step is repeated exactly when it is stored under one of the looked-up numbers |
| GameTicks.PresentNumbers | LockstepServer/Server.cs:289-308 | the repeated steps carry the numbers looked up, pairwise distinct |
| GameTicks.Fresh0 | LockstepServer/Server.cs:36-37 | the server starts with no inputs, an empty history and step 0 |
| GameTicks.Previous | LockstepServer/Server.cs:256 | the previous step is found exactly when step `n - 1`, taken modulo 65536, is stored |
| GameTicks.NextStep | LockstepServer/Server.cs:252-284 | the step a tick builds, with deltas when the previous step is stored; `TickDelivers` states what it carries |
| GameTicks.Tick | LockstepServer/Server.cs:248-314 | one tick, corrected to copy and clear the accumulator every time; `TickDelivers`, `TickCollection` and `FirstTickInputsDelivered` state its effect |
| GameTicks.TickAsWritten | LockstepServer/Server.cs:248-314 | one tick exactly as written: the first step shares the accumulator, and a later delta step under the same number has its own entries; `WrittenTick0`, `WrittenTick1` and `FirstTickInputsLost` state its effect |
| GameTicks.WrittenTickStoresStep | LockstepServer/Server.cs:252-314 | with room in the history, the step a tick as written broadcasts first is stored under its number and reads back unchanged |
| GameTicks.WrappedTick0 | LockstepServer/Server.cs:252-287 | the tick that wraps to step 0, as written, stores a delta step 0 with its own entries that no longer shares the accumulator |
| GameTicks.WrappedTick1 | LockstepServer/Server.cs:252-307 | the tick after the wrap diffs against the new step 0's entries and repeats step 0 with them |
| GameTicks.WrappedTickKeepsOwnStep | LockstepServer/Server.cs:252-307 | after the step numbers wrap, the new step 0 keeps its own entries: the next tick diffs against them and its repeat of step 0 reads them back |
| GameTicks.TickDelivers | LockstepServer/Server.cs:248-287 | every accumulated input reaches the new step, as a delta that restores it over the previous step; then the accumulator is empty and the number advances |
| GameTicks.TickCollection | LockstepServer/Server.cs:286-308 | the broadcast holds one to three steps with distinct numbers, the new step first, then exactly the stored steps under the repeated numbers, and the history stays keyed |
| GameTicks.WrittenTick0 | LockstepServer/Server.cs:283-286 | as written, tick 0 stores a step that shares the accumulator |
| GameTicks.WrittenTick1 | LockstepServer/Server.cs:256-286 | as written, tick 1 diffs the accumulator against itself and sends an empty entry |
| GameTicks.RecordUpPressed | LockstepServer/Server.cs:203-223 | the up-arrow payload records code 38 as pressed for player 0 |
| GameTicks.FirstTickInputsLost | LockstepServer/Server.cs:256-308 | as written, an input recorded between ticks 0 and 1 reaches no broadcast and is cleared |
| GameTicks.FirstTickInputsDelivered | LockstepServer/Server.cs:248-308 | corrected, the same input arrives in step 1 |
| LockstepServer.Receive | LockstepServer/Server.cs:184-199 | one turn of the input loop on values; `Server.ReceiveInput` and `InputReachesServer` state its effect |
| LockstepServer.Server.constructor | LockstepServer/Server.cs:34-44 | empty sessions, all slots null, no inputs, empty history of 120, step 0 |
| LockstepServer.Server.Accept | LockstepServer/Server.cs:58-177 | one accept turn, slot search loop included, is the corrected `AcceptWaiting` on the lobby and keeps it valid |
| LockstepServer.Server.HandlePlayerInput | LockstepServer/Server.cs:203-230 | updates the accumulator as `Record` says, or reports the conflict and changes nothing |
| LockstepServer.Server.ReceiveInput | LockstepServer/Server.cs:184-199 | an unknown sender or an empty datagram ends the loop; only `PlayerInput` datagrams reach `HandlePlayerInput` |
| LockstepServer.Server.BuildDeltas | LockstepServer/Server.cs:257-277 | the per-player loop yields exactly `Deltas` |
| LockstepServer.Server.RedundantSteps | LockstepServer/Server.cs:289-308 | the two lookups yield exactly the present steps among the repeated numbers |
| LockstepServer.Server.BuildStep | LockstepServer/Server.cs:252-284 | the step built is `NextStep` of the state |
| LockstepServer.Server.Commit | LockstepServer/Server.cs:279-314 | clears the accumulator, adds the step and advances the number, keeping the invariant |
| LockstepServer.Server.Tick | LockstepServer/Server.cs:248-314 | one tick, corrected to copy and clear the accumulator every tick, moves the state as `GameTicks.Tick` says and returns the encoded collection it broadcasts; the tick as written is `GameTicks.TickAsWritten` |
| LockstepClient.MapKey | LockstepClient/Client.cs:191-199 | the four arrows map to console keys 37 to 40, and every other key fails |
| LockstepClient.MapKeyRoundTrip | LockstepClient/Client.cs:191-199 | `MapKey` is one-to-one onto the four arrow console keys |
| LockstepClient.JoinPayload | LockstepClient/Client.cs:88-92 | tag 3 followed by the name bytes |
| LockstepClient.InputPayload | LockstepClient/Client.cs:134-139 | three bytes: tag 5, the key's console code, and 1 when pressed or 0 when released; fails for non-arrow keys |
| LockstepClient.ConnectAnswer | LockstepClient/Client.cs:60-81 | answers `SynAckAck` exactly when the reply starts with `SynAck` |
| LockstepClient.Max16 | LockstepClient/Client.cs:160 | `Math.Max` is one of its arguments and at least both |
| LockstepClient.RunMax | LockstepClient/Client.cs:160 | `_highestGameStepNum` after taking steps in turn; `RunMaxBounds` states its value |
| LockstepClient.RunMaxBounds | LockstepClient/Client.cs:160 | the highest step seen is the largest of the start value and the steps taken |
| LockstepClient.FirstGap | LockstepClient/Client.cs:154-158 | the first step more than 8 ahead of the highest seen so far, every earlier one passing |
| LockstepClient.Admit | LockstepClient/Client.cs:154-164 | takes steps in turn up to the first more than 8 ahead; `AllOrNothing` and `IntakeMonotone` state its effect |
| LockstepClient.Intake | LockstepClient/Client.cs:146-186 | one turn of `GetGameUpdates` on values; `IntakeMonotone` and `BroadcastReachesClient` state its effect |
| LockstepClient.AddAllKeyed | LockstepClient/Client.cs:163 | adding steps in turn keeps each stored under its own number |
| LockstepClient.IntakeMonotone | LockstepClient/Client.cs:150-164 | a turn never lowers the highest step or moves the playback cursor; a disconnect names a step more than 8 ahead of the highest |
| LockstepClient.AllOrNothing | LockstepClient/Client.cs:154-160 | a newest-first collection is taken whole if its newest step is at most 8 ahead, else not at all |
| LockstepClient.LeadExamples | LockstepClient/Client.cs:155-163 | from 0, step 9 disconnects, step 8 is taken, and 8 then 17 disconnects on 17 |
| LockstepClient.Poll | LockstepClient/Client.cs:113-131 | returns the step numbered as the cursor, which then advances by one with wrap; absent, nothing changes; the history is never touched |
| LockstepClient.PollNeverFails | LockstepClient/Client.cs:119-122 | with steps stored under their own numbers, the exception is never thrown |
| LockstepClient.PollFindsAdded | LockstepClient/Client.cs:113-125 | a step just added under the cursor's number is the next played back |
| LockstepClient.Client.constructor | LockstepClient/Client.cs:38-43 | an empty history of 2048, with the highest step and the cursor at 0 |
| LockstepClient.Client.GetNextStep | LockstepClient/Client.cs:113-131 | behaves as `Poll`, never throwing |
| LockstepClient.Client.Receive | LockstepClient/Client.cs:146-186 | one turn of the update loop, its step loop included, is `Intake` |
| Protocol.SoloHandshake | LockstepServer/Server.cs:67-167 | in a one-slot game the client's four handshake payloads take its session to `StartGame` in slot 0 with its name and end the loop with everyone ready |
| Protocol.InputReachesServer | LockstepClient/Client.cs:134-139 | a key event from a known client is recorded under its id, unless the key is held with the other value |
| Protocol.BroadcastFromHistory | LockstepServer/Server.cs:289-308 | every broadcast step is the new step or one already stored |
| Protocol.BroadcastDecodes | LockstepClient/Client.cs:150-154 | the broadcast decodes on the client to its steps newest first |
| Protocol.BroadcastNewest | LockstepBase/DataStructures.cs:53 | newest first, the broadcast starts with the tick's own step |
| Protocol.BroadcastReachesClient | LockstepClient/Client.cs:150-164 | a broadcast is taken whole when the tick is at most 8 ahead of the client, and otherwise disconnects it with nothing taken |

## Left out

- UDP sockets and every send and receive call. Received datagrams are
  method arguments and sent datagrams are results.
- Threads, `Task.Run`, `lock`, `volatile` and the parallel fan-out of the
  broadcast with its shared 4096-byte buffer. Each locked region is one
  sequential method.
- Wall-clock time, `Thread.Sleep` and the floating-point interval
  arithmetic. The saturated elapsed byte is a parameter of `Tick`.
- UTF-8 encoding and decoding of player names. A name is its byte
  sequence.
- Logging, the debug strings, the `lag` value `GetNextStep` computes and
  discards, `Main`, `Dispose` and the server's restart loop, which
  reallocates the lobby.
- Unity's `KeyCode` beyond the four arrows, which are constructors.
- The client's `ConnectToServer`, `JoinGame` and `StartReady` socket calls.
  Their payloads and the reply check are modelled.
- WireCodec.CollectionRoundTrip: holds for fewer than 256 steps, players
  and inputs. Beyond that, the `(byte)` count wraps and the bytes no longer
  read back. The counts are modelled as truncated, but no round trip is
  claimed.
- CircularBuffers.CircularBuffer.Add: requires a capacity above 0. A
  zero-length buffer throws `DivideByZeroException`, which is not
  modelled. The same applies to the `CircularBuffs.CircularBuff` members.
- CircularBuffs.CircularBuff.Add: `_curIdx` is an unbounded integer here.
  The source's `int` would overflow after 2^31 adds.
- CircularBuffers.CircularBuffer.GetTop: requires a non-empty buffer.
  Reading slot -1 throws in the source. `GetNth` models that case as a
  failure.
- WireCodec.OrderByDescendingStep: does not state that LINQ's sort is
  stable. The steps of one broadcast carry distinct numbers
  (`GameTicks.TickCollection`), so no ties arise there.
- LockstepClient.Client.Receive: a successful turn returns `Listening`.
  The source then waits for the next datagram, and the `_shutdown` flag is
  not modelled.
- Protocol.BroadcastReachesClient: requires every stored and new step to be
  well formed (fewer than 256 players and inputs). The model does not
  track this through the accumulator.

## Findings

| source | as written | input that shows it | evidently intended | confidence | as-written member | corrected member |
|---|---|---|---|---|---|---|
| LockstepServer/Server.cs:283 | On the first tick the new step takes the accumulator dictionary itself and nothing is cleared. Tick 1 then diffs the accumulator against itself, and the clear at line 279 empties step 0 too. | Player 0 sends up-arrow `[5, 38, 1]` between tick 0 and tick 1. Step 1 carries an empty entry for player 0 and step 0 reads back empty. | Step 0 takes a copy and the accumulator is cleared on every tick, so the press arrives in step 1. | high, not executed | GameTicks.FirstTickInputsLost | GameTicks.FirstTickInputsDelivered |
| LockstepServer/Server.cs:162 | `_playersById.All(...)` dereferences a still-empty slot. The `NullReferenceException` is caught inside the accepting `Task.Run` delegate (lines 174-176), so the accept loop ends and the server starts the game. | Two slots. One client completes `Syn`, `SynAckAck`, `JoinGame` and sends `StartReady` before a second client joins. | An empty slot counts as not ready, and the loop waits for every slot to be filled and started. | medium, not executed | Handshake.EarlyReadyEndsLoop | Handshake.AcceptWaiting |
