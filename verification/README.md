# Verification of a mobile shell

This project models four parts of a remote terminal program and proves what they promise. Everything is
plain Dafny; `dafny verify dfyconfig.toml` checks the whole of it.

**State synchronisation** (`Arithmetic`, `BigEndian`, `Instructions`, `PlainCodecs`, `Fragments`, `FragmentObjects`,
`Streams`, `UserStreams`, `Protobuf`, `States`, `SenderSpec`, `Sender`, `TransportSpec`, `TransportObjects`, `World`,
`SenderProofs`, `ReceiverProofs`, `SyncProofs`, `SyncTheorems`, `Recovery`). Two endpoints number their states and send
differences "from old number to new number", cut into fragments, over a network that loses, repeats and reorders. A
state is what was written to a pipe or what a user typed (`States`); the laws of both kinds are proved, and every
result holds for either kind in either direction. The objects the program keeps are
classes proved against functions of their state; the functions are the steps of a system of two endpoints, in which
any fragment ever sent may be delivered at any time, any number of times. An invariant of the joint state is kept by
every step, and from it follow agreement on every numbered state, exactly-once in-order delivery, the lasting use of
the acknowledged baseline, and recovery from any loss.

**Frames** (`Rendition`, `Screens`, `Actions`, `ScreenLaws`, `Framebuffers`, `Views`, `FrameStates`, `Displays`,
`Completes`). A terminal emulator, as functions on screens and as a class updated in place, and the display code that
turns one screen into another with as few operations as it can. Frames are lists of the emulator's own actions, and
what they mean is what the emulator makes of them: on a terminal that looks like the last screen they give one that
looks like the new screen. The operations are also given as a function of the two screens (`Displays.Display.FrameOps`).
Looking alike is meant cell by cell as in `crates/mosh-state/src/complete.rs:195-221`: the
same grapheme (a space for an empty cell), width and rendition.

**Predictions** (`Overlays`, `Predictions`). The local guesses laid over the server's screen: typing and erasing, as
loops over overlay cells, refine insertion into and deletion from the row as guessed; judging, abandoning and
rebuilding leave nothing that the screen contradicts.

**Small codecs and counters** (`ShellWords`, `Keys`, `Nonces`, `EchoHistories`, with `Utf8` for lengths in bytes).

Five properties do not hold as one might expect; each is settled as stated here.

- A frame that has drawn the bottom right corner and then has to bring the cursor back to column 1 or later, by at
  most four columns, in the same row leaves it one column too far left: the frame counts backspaces from the column
  past the end, where the terminal's cursor never is (`crates/mosh-terminal/src/display.rs:88-92`).
  `Displays.Display.NewFrame` states the cursor's place in all cases, with `Overshoots` as the condition, a function
  of the two screens; `Completes.CursorIsMissed` gives an instance. More follows than a misplaced cursor: the next frame
  trusts the cursor of the screen last drawn (`crates/mosh-terminal/src/display.rs:262-265`), so that a character it
  reaches by distance is written in the wrong column. `FrameStates.StaleMove` and `Completes.ChangeAfterMiss` say exactly
  when a move does that. A whole frame after a missed cursor comes out right if the first of its operations that
  concerns the cursor's column sets it, and passes the miss on if none does (`Completes.DiffFrom`, with `Misdraws` for
  the remaining case, and `Completes.Follow` for chains); `Completes.NextFrameSpoilsCells` gives two frames of which the
  second is of the remaining kind and overwrites a cell it should not.
- A colour component of 256 or more runs into the bits above the 24 of a colour, and such a rendition is not
  reproduced by the sequence written for it. `Rendition.SgrRoundTrip` says which are.
- Guessing afresh replays keystrokes with a new parser but after the last byte typed. When that was an escape and the
  first keystroke replayed is a delete or the letter O, it is read as following that escape: the delete erases a word
  and the letter stands for a bracket. The replay is still one a new engine would make, whatever keystrokes follow, if
  the word is at most one cell, or for the letter if the cursor stands in the bottom right corner, where nothing is
  guessed (`Predictions.PredictionEngine.ReplayAsNew`); and for a keystroke and an escape in flight, the shortest such
  list, only then (`ReplayAfterEscape`, with an instance in `EscapeIsFelt`). That the parser prints these characters in
  its ground state (`crates/mosh-terminal/src/parser.rs:130-188`) is `StartsInGround`.
- A piece of a pipe's difference of 4 GiB or more has its length cut to four bytes, and the difference then never gives
  the new state: `Streams.DiffThenApply` says that it does exactly when the lengths fit.
- A frame of input registered at time zero is due at once rather than after 50 ms: `EchoHistories.DueWhenOld`.

What the models assume of their surroundings: the clock passed in does not go back; a state is not written to once
its end has been shut down; state numbers in ordinary use stay below the one that means shutting down; less than
4 GiB is written to a pipe between two acknowledgements, and as little lies between what was last handed over and the
newest state received, lengths having four bytes on the wire (2^63 events, for what a user types); serialisation
and compression together give back what was put in or refuse (`Codec.Faithful`, for which `PlainCodecs` has an
instance); two rows of a screen with one identity are one row, and so equal; a screen to be drawn holds characters of
one column without accents.

## Model

| member | source | states |
|---|---|---|
| BigEndian.ReadWrite | crates/mosh-network/src/fragment.rs:61-98 | a number written in so many big-endian bytes reads back, whatever the width |
| BigEndian.WriteRead | crates/mosh-network/src/fragment.rs:61-98 | and every run of bytes is the writing of the number read from it |
| Fragments.HeaderRoundTrip | crates/mosh-network/src/fragment.rs:61-98 | a fragment can be written exactly when its number leaves the final bit free, and then reads back the same |
| Fragments.HeaderOnto | crates/mosh-network/src/fragment.rs:61-98 | bytes are refused exactly when they are too short for a header, and what is read from the others is written back as those bytes |
| Fragments.PiecesCarryPayload | crates/mosh-network/src/fragment.rs:228-262 | the contents of the pieces, joined, are the payload: nothing is lost or repeated by splitting |
| Fragments.PieceAt | crates/mosh-network/src/fragment.rs:228-262 | pieces are numbered in order, no piece exceeds the size, and exactly the last is marked final |
| Fragments.PieceCount | crates/mosh-network/src/fragment.rs:228-262 | how many pieces a payload makes, as a condition on its length |
| Fragments.FitsIffNumberable | crates/mosh-network/src/fragment.rs:241-264 | splitting succeeds if and only if the payload fits 32768 pieces |
| Fragments.AddKeepsCollecting | crates/mosh-network/src/fragment.rs:130-168 | an arriving piece leaves an assembly that holds only pieces of that call, whose held bytes are the sum of their contents |
| Fragments.CompleteIffAll | crates/mosh-network/src/fragment.rs:160-187 | an assembly is complete exactly when the final piece and every other is held, and then holds the payload |
| Fragments.ReassemblyInAnyOrder | crates/mosh-network/src/fragment.rs:130-187 | whatever the order and the repeats, on top of pieces of the same call held before or of anything else left behind: completion is first reported by the arrival that makes the set whole, the byte count is exact, and the payload comes out |
| FragmentObjects.Fragmenter.MakeFragments | crates/mosh-network/src/fragment.rs:210-264 | the id changes exactly when header fields or size do, and the fragments are the pieces of the encoded instruction, or an error |
| FragmentObjects.Fragmenter.CutUp | crates/mosh-network/src/fragment.rs:241-262 | the loop cuts the payload into exactly its pieces, and fails exactly when a number would reach the final bit |
| FragmentObjects.FragmentAssembly.AddFragment | crates/mosh-network/src/fragment.rs:130-168 | the map, byte count, total and id afterwards, and what is reported |
| FragmentObjects.FragmentAssembly.GetAssembly | crates/mosh-network/src/fragment.rs:170-187 | the pieces joined in order and decoded, and the assembly emptied |
| Streams.TakePut | crates/mosh-pipe/src/stream.rs:24-42 | what is put is taken again, with what follows it untouched |
| Streams.IntRoundTrip | crates/mosh-pipe/src/stream.rs:53-86 | an exit code survives its four bytes, negative ones included |
| Streams.DiffEmptyIffEqual | crates/mosh-pipe/src/stream.rs:53-66 | between states in prefix order the difference is empty exactly when they are equal |
| Streams.DiffThenApply | crates/mosh-pipe/src/stream.rs:53-86 | the difference applied to the old state gives the new one if and only if its lengths fit 32 bits |
| Streams.DiffIgnoresBase | crates/mosh-pipe/src/stream.rs:44-66 | a prefix both states lack never shows in a difference |
| Streams.AdvanceCommutesWithBase | crates/mosh-pipe/src/stream.rs:72-86 | a difference applies to a stripped state exactly when it applies to the whole one, with the same effect |
| Streams.SubtractMovesIntoBase | crates/mosh-pipe/src/stream.rs:44-51 | stripping a shared prefix leaves absolute content alone |
| Streams.SubtractKeepsDiff | crates/mosh-pipe/src/stream.rs:44-66 | subtracting a shared prefix from both states leaves the bytes of the difference unchanged |
| Protobuf.TakeVarintWritten | crates/mosh-protobufs/proto/userinput.proto:7-22 | every number below 2^64 reads back from its seven bits a byte, with what follows it untouched |
| Protobuf.TakeAllWritten | crates/mosh-protobufs/proto/userinput.proto:7-22 | any list of fields reads back from its bytes |
| UserStreams.EncodedDecodes | crates/mosh-state/src/user.rs:68-119 | every difference, instruction by instruction and part by part, reads back from its bytes |
| States.DiffEmptyIffEqual | crates/mosh-state/src/user.rs:68-108 | for either kind of state, the bytes of a difference are none exactly when there is no difference |
| States.DiffThenApply | crates/mosh-state/src/user.rs:68-131 | for either kind, the bytes applied to the old state give the new one |
| States.DiffIgnoresBase | crates/mosh-state/src/user.rs:49-108 | for either kind, a prefix both states lack never shows |
| States.AdvanceCommutesWithBase | crates/mosh-state/src/user.rs:115-131 | for either kind, bytes apply to a stripped state exactly when they apply to the whole one, with the same effect |
| States.SubtractMovesIntoBase | crates/mosh-state/src/user.rs:49-65 | for either kind, stripping a shared prefix leaves absolute content alone |
| States.SubtractKeepsDiff | crates/mosh-state/src/user.rs:49-108 | for either kind, subtracting a shared prefix from both states leaves the bytes unchanged |
| States.GrownInPlace | crates/mosh-state/src/user.rs:31-37 | for either kind, what is written lands after what was, whatever has been stripped |
| Sender.TransportSender.UpdateAssumedReceiverState | crates/mosh-network/src/sender.rs:190-199 | the assumed state is the end of the unbroken run of recent states after the front |
| Sender.TransportSender.RationalizeStates | crates/mosh-network/src/sender.rs:202-208 | the front state is subtracted from every sent state and from the current one |
| Sender.TransportSender.ScheduleSend | crates/mosh-network/src/sender.rs:219-240 | when the next frame is due, in each of the four cases |
| Sender.TransportSender.CalculateTimers | crates/mosh-network/src/sender.rs:210-247 | the whole sender state after the timer calculation |
| Sender.TransportSender.WaitTime | crates/mosh-network/src/sender.rs:249-257 | the wait lasts until the acknowledgement or the frame that is due first, is nothing exactly when one is due, and endless without a remote |
| Sender.TransportSender.AddSentState | crates/mosh-network/src/sender.rs:333-348 | a state is appended, a full queue is thinned in the middle, and the assumed index follows |
| Sender.TransportSender.NumberState | crates/mosh-network/src/sender.rs:350-366 | the number a state goes out under; the state already at the back is restamped instead of appended |
| Sender.TransportSender.SendEmptyAck | crates/mosh-network/src/sender.rs:313-331 | the instruction, the queue and the fragments of an empty acknowledgement |
| Sender.TransportSender.SendToReceiver | crates/mosh-network/src/sender.rs:350-382 | the instruction, the queue, the assumption and the timers after sending a difference |
| Sender.TransportSender.SendInFragments | crates/mosh-network/src/sender.rs:394-428 | the instruction made names the assumed state as its source and the front as throwaway; its fragments are handed on |
| Sender.TransportSender.AttemptProspectiveResendOptimization | crates/mosh-network/src/sender.rs:445-459 | the difference from the acknowledged state is taken instead when it is no longer, or little longer |
| Sender.TransportSender.Tick | crates/mosh-network/src/sender.rs:259-297 | the sender, the fragmenter and the fragments sent, as the function of the state before |
| Sender.TransportSender.Transmit | crates/mosh-network/src/sender.rs:276-297 | what a due tick sends: the difference, or an acknowledgement when only that is due |
| Sender.TransportSender.ProcessAcknowledgmentThrough | crates/mosh-network/src/sender.rs:430-443 | older states go when, and only when, the acknowledged number is still held |
| Sender.TransportSender.StartShutdown | crates/mosh-network/src/sender.rs:145-150 | shutting down begins once and keeps its first time |
| SenderProofs.AssumedIsEnd | crates/mosh-network/src/sender.rs:190-199 | with timestamps in order the assumed state is the front or the back of the queue |
| SenderProofs.TimersKeep | crates/mosh-network/src/sender.rs:202-247 | calculating timers keeps the sender invariant: absolute contents by number are unchanged by stripping |
| SenderProofs.AddKeeps | crates/mosh-network/src/sender.rs:333-348 | appending a state keeps the invariant, the order of numbers and the bound of 32 |
| SenderProofs.ThinningKeepsAssumed | crates/mosh-network/src/sender.rs:333-348 | the state thinned away is never the assumed one nor an end of the queue |
| SenderProofs.AttemptHonest | crates/mosh-network/src/sender.rs:259-382 | every instruction a tick makes is honest: its difference leads from the content of its old number to that of its new one |
| TransportObjects.Transport.RemoteStateNum | crates/mosh-network/src/transport.rs:83-85 | the number of the newest state received |
| TransportObjects.Transport.GetRemoteDiff | crates/mosh-network/src/transport.rs:96-121 | the difference handed over, and every received state stripped of the oldest |
| TransportObjects.Transport.ProcessThrowawayUntil | crates/mosh-network/src/transport.rs:229-237 | states below the number are dropped from the front |
| TransportObjects.Transport.ApplyInstruction | crates/mosh-network/src/transport.rs:148-227 | the outcome, the queue, the quench timer and the sender after an instruction, in every branch |
| TransportObjects.Transport.AddReceived | crates/mosh-network/src/transport.rs:190-227 | a new state is inserted at its place in the queue and told to the sender |
| TransportObjects.Transport.Recv | crates/mosh-network/src/transport.rs:123-146 | a payload in, an instruction applied when it completes one, and what the caller is told in every case |
| TransportObjects.Transport.Tick | crates/mosh-network/src/transport.rs:239-241 | a tick of the endpoint is a tick of its sender |
| ReceiverProofs.AcknowledgmentKeeps | crates/mosh-network/src/sender.rs:430-443 | an acknowledgement keeps the sender invariant: what remains starts at the acknowledged state |
| ReceiverProofs.ThrowawayKeeps | crates/mosh-network/src/transport.rs:229-237 | throwing away keeps every state from the number on, and numbers stay increasing |
| ReceiverProofs.InsertKeeps | crates/mosh-network/src/transport.rs:198-218 | inserting keeps the queue increasing and adds just the one number |
| ReceiverProofs.ApplyKeeps | crates/mosh-network/src/transport.rs:148-227 | an honest instruction keeps every received state equal, in absolute content, to what the peer gave that number |
| ReceiverProofs.CollectKeeps | crates/mosh-network/src/transport.rs:96-121 | handing over a difference keeps absolute contents, though the states are stripped |
| SyncProofs.SameHeaderSameInstruction | crates/mosh-network/src/fragment.rs:210-226 | two instructions the sender makes one after the other under the same id are the same: the header fields compared determine the difference left out |
| SyncProofs.DeliveryYieldsAttempted | crates/mosh-network/src/fragment.rs:130-187 | whatever a completed assembly decodes to was made by the peer |
| SyncProofs.TickKeeps | crates/mosh-network/src/sender.rs:259-297 | a tick keeps the joint invariant of the two endpoints |
| SyncProofs.DeliverKeeps | crates/mosh-network/src/transport.rs:123-227 | delivering any fragment ever sent, any number of times, keeps it |
| SyncProofs.StepKeeps | crates/mosh-network/src/transport.rs:62-241 | every step of either endpoint keeps it |
| SyncProofs.ReachableInv | crates/mosh-network/src/transport.rs:62-241 | so it holds in every reachable state |
| SyncTheorems.Agreement | crates/mosh-network/src/transport.rs:148-222 | in every run, under loss, repetition and reordering: the state the receiver holds under a number is, in absolute content, the one state the sender ever gave that number |
| SyncTheorems.NothingInvented | crates/mosh-network/src/transport.rs:148-222 | in every reachable state whatever is held under a number is a beginning of what the peer wrote, and is what that number stood for |
| SyncTheorems.BaselineHeld | crates/mosh-network/src/sender.rs:430-458 | in every reachable state the receiver still holds the state at the front of the sender's queue |
| SyncTheorems.NeverRefused | crates/mosh-network/src/transport.rs:148-188 | no instruction ever made, however late or often it arrives, is refused as malformed |
| SyncTheorems.NeverTakenTwice | crates/mosh-network/src/transport.rs:155-218 | in every run a number once held is never taken in anew, whether it is still held or was dropped |
| SyncTheorems.RepeatIgnored | crates/mosh-network/src/transport.rs:155-188 | in every run an instruction whose number was ever held is ignored at every later moment, and the receiver is left exactly as it was |
| SyncTheorems.DeliveredInOrder | crates/mosh-network/src/transport.rs:96-120 | the differences handed over in a run, applied in order to the starting state, never fail and give a beginning of what the peer wrote: exactly once, in order |
| SyncTheorems.CollectCatchesUp | crates/mosh-network/src/transport.rs:96-120 | right after a hand-over the caller has exactly the content of the newest received state |
| SyncTheorems.ThinningKeepsDiffSource | crates/mosh-network/src/sender.rs:333-356 | in every reachable state what a tick tries to send names the state its difference was computed from, that state is an end of the queue, and the queue stays within 32 with both ends kept |
| SyncTheorems.FragmentIdsFunctional | crates/mosh-network/src/fragment.rs:210-264 | fragments sent at any two moments of a run under one id and number are equal |
| SyncTheorems.IdsNameOneInstruction | crates/mosh-network/src/fragment.rs:210-236 | what an id was used for never changes |
| SyncTheorems.AssembledWasSent | crates/mosh-network/src/fragment.rs:130-187 | any mixture of sent fragments that completes an assembly gives an instruction the peer made |
| SyncTheorems.RunGrows | crates/mosh-network/src/sender.rs:259-297 | the history of a run only grows: numbers keep their contents, and nothing sent is taken back |
| Recovery.SendsFromFront | crates/mosh-network/src/sender.rs:188-199 | when nothing sent is recent, what a tick sends leads from the acknowledged front |
| Recovery.SilenceMeansAcknowledged | crates/mosh-network/src/sender.rs:276-297 | and a due tick then has nothing to send only if the acknowledged state is everything |
| Recovery.OneDeliveryCatchesUp | crates/mosh-network/src/transport.rs:170-221 | such an instruction, taken in by a receiver that is not quenched, makes its newest state the sender's current one |
| Recovery.InstructionRecovers | crates/mosh-network/src/sender.rs:259-293 | from every reachable state: once nothing unacknowledged is recent, the instruction a tick makes, applied by a peer that may grow, leaves the peer with everything written |
| Recovery.OneArrival | crates/mosh-network/src/transport.rs:123-146 | a piece arriving on top of any pieces of the same instruction is only held, or completes the whole, which is then applied |
| Recovery.ArrivalsApplyOnce | crates/mosh-network/src/transport.rs:123-168 | pieces in any order, repeated, and arriving after the set is whole apply their instruction at most once |
| Recovery.AllArrived | crates/mosh-network/src/transport.rs:123-168 | and once every piece has come it has been applied |
| Recovery.Recovers | crates/mosh-network/src/sender.rs:259-293 | from every reachable state: once no unacknowledged send is recent, one due tick and the delivery of all its pieces, in any order, at any times, with repeats before and after, and whatever pieces the peer already held, leave a peer that may grow with everything written |
| PlainCodecs.PlainIsFaithful | crates/mosh-network/src/fragment.rs:170-187 | a codec with the one property asked of serialisation and compression exists, and need refuse nothing |
| Rendition.SgrResult | crates/mosh-terminal/src/framebuffer.rs:151-202 | whatever was selected before, the parameters of a rendition select its attributes and what they can say of its colours |
| Rendition.SgrRoundTrip | crates/mosh-terminal/src/framebuffer.rs:81-202 | selecting a rendition reproduces it from any starting point if and only if both its colours can be told |
| Rendition.ColorRoundTrip | crates/mosh-terminal/src/framebuffer.rs:81-202 | a colour survives exactly when it is the default, one of the 256, or has nothing above its 24 bits |
| Rendition.WideComponentIsLost | crates/mosh-terminal/src/dispatcher.rs:517-530 | a true-colour component of 512 makes a rendition that is not reproduced |
| Framebuffers.Framebuffer.SelectRenditions | crates/mosh-terminal/src/dispatcher.rs:495-537 | the loop over parameters, with its two longer forms, computes the rendition applied one parameter after another |
| Framebuffers.Framebuffer.ClearCells | crates/mosh-terminal/src/dispatcher.rs:240-244 | just the columns named become blank in the background colour |
| Framebuffers.Framebuffer.EraseDisplay | crates/mosh-terminal/src/dispatcher.rs:257-278 | each mode erases its part of the screen |
| Framebuffers.Framebuffer.EraseLine | crates/mosh-terminal/src/dispatcher.rs:247-254 | each mode erases its part of the line |
| Framebuffers.Framebuffer.EraseChars | crates/mosh-terminal/src/dispatcher.rs:600-607 | erasing forward stops at the end of the row |
| Framebuffers.Framebuffer.InsertChars | crates/mosh-terminal/src/framebuffer.rs:454-466 | cells are opened at the cursor, the rest pushed off the end, the row keeping its width |
| Framebuffers.Framebuffer.DeleteChars | crates/mosh-terminal/src/framebuffer.rs:468-476 | cells are removed at the cursor and blank ones drawn in at the end |
| Framebuffers.Framebuffer.InsertLines | crates/mosh-terminal/src/framebuffer.rs:1032-1054 | draining below and splicing above moves the region down, and nothing outside it |
| Framebuffers.Framebuffer.DeleteLines | crates/mosh-terminal/src/framebuffer.rs:1056-1075 | draining and splicing moves the region up |
| Framebuffers.Framebuffer.MoveRows | crates/mosh-terminal/src/framebuffer.rs:963-983 | the cursor moves, and the region scrolls by what would leave it |
| Framebuffers.Framebuffer.PrintChar | crates/mosh-terminal/src/emulator.rs:184-269 | wrapping, opening cells in insert mode, placing one or two columns, and combining |
| Framebuffers.Framebuffer.OpenCells | crates/mosh-terminal/src/emulator.rs:222-228 | opening cells one at a time is opening them at once |
| Framebuffers.Framebuffer.Combine | crates/mosh-terminal/src/emulator.rs:245-265 | a combining character joins the cell of its base, or makes a base for itself |
| Framebuffers.Framebuffer.FindTab | crates/mosh-terminal/src/framebuffer.rs:706-729 | the loop finds the tab stop so many stops away, in either direction |
| Framebuffers.Framebuffer.MoveTabs | crates/mosh-terminal/src/dispatcher.rs:340-352 | a tab moves the column and keeps a pending wrap pending |
| Framebuffers.Framebuffer.DecModes | crates/mosh-terminal/src/dispatcher.rs:394-456 | private modes take effect in the order named |
| Framebuffers.Framebuffer.InsertMode | crates/mosh-terminal/src/dispatcher.rs:459-474 | insert mode changes exactly when parameter 4 is among those named |
| Framebuffers.Framebuffer.FillWithE | crates/mosh-terminal/src/dispatcher.rs:309-316 | every cell shows an E |
| Framebuffers.Framebuffer.SetSize | crates/mosh-terminal/src/framebuffer.rs:1183-1206 | old rows cut or extended, new rows blank, wrap marks dropped when the width changes |
| Framebuffers.Framebuffer.Take | crates/mosh-terminal/src/emulator.rs:126-170 | one action, dispatched, updates the screen in place as the specification has it |
| Screens.MoveRowsAutoscroll | crates/mosh-terminal/src/framebuffer.rs:963-983 | moving with scrolling keeps the screen well formed and its size |
| Screens.Print | crates/mosh-terminal/src/emulator.rs:184-269 | printing any character of any width keeps the screen well formed |
| Screens.Resize | crates/mosh-terminal/src/framebuffer.rs:836-861 | a resize to any requested size keeps the screen well formed |
| Actions.Act | crates/mosh-terminal/src/emulator.rs:126-170 | every action keeps the screen well formed: sizes, cursor, region, tabs, combining position, and empty cells carrying a background colour only |
| ScreenLaws.Live | crates/mosh-terminal/src/emulator.rs:108-170 | and so does every sequence of actions and resizes |
| ScreenLaws.AlwaysWellFormed | crates/mosh-terminal/src/emulator.rs:78-170 | from any starting size |
| ScreenLaws.InsertInBulk | crates/mosh-terminal/src/framebuffer.rs:449-466 | inserting any count of cells at any column is inserting one so many times |
| ScreenLaws.DeleteInBulk | crates/mosh-terminal/src/framebuffer.rs:468-476 | the same for deleting |
| ScreenLaws.DeleteUndoesInsert | crates/mosh-terminal/src/framebuffer.rs:454-476 | deleting what was inserted restores all but the cells pushed off the end |
| ScreenLaws.InsertLinesInBulk | crates/mosh-terminal/src/framebuffer.rs:1032-1054 | inserting any count of lines anywhere is inserting one so many times |
| ScreenLaws.DeleteLinesInBulk | crates/mosh-terminal/src/framebuffer.rs:1056-1075 | the same for deleting |
| ScreenLaws.LinesOutsideRegionStay | crates/mosh-terminal/src/framebuffer.rs:1032-1075 | rows above the cursor or outside the region never change |
| Views.Feeds | crates/mosh-terminal/src/framebuffer.rs:963-983 | a line feed as seen: one row down, or the region up by one at its bottom |
| Views.WrapsAndWrites | crates/mosh-terminal/src/emulator.rs:201-244 | a character printed with a wrap pending marks its row and lands at the start of the next |
| Views.Selects | crates/mosh-terminal/src/dispatcher.rs:495-537 | the sequence emitted for a rendition leaves the terminal with it |
| FrameStates.StaleMove | crates/mosh-terminal/src/display.rs:61-96 | from one column left of where it is believed to be, the cursor ends in its place unless the move goes by distance, and then one column left of it |
| FrameStates.FrameState.AppendMove | crates/mosh-terminal/src/display.rs:72-96 | the terminal's cursor ends where the frame says, or one column left of it in exactly one case: backing up from the column past the end |
| FrameStates.FrameState.AppendSilentMove | crates/mosh-terminal/src/display.rs:61-70 | the operations emitted, and where the cursor ends: as believed but for the one case of backing up from the column past the end |
| FrameStates.FrameState.UpdateRendition | crates/mosh-terminal/src/display.rs:98-104 | the terminal has the rendition wanted, whether or not anything was emitted |
| FrameStates.FrameState.FeedAtBottom | crates/mosh-terminal/src/display.rs:348-364 | so many line feeds at the bottom of a region move it up by so many lines |
| FrameStates.FrameState.ClearScreen | crates/mosh-terminal/src/display.rs:258-265 | the sequence for an unknown screen resets region, rendition and cursor and leaves every cell blank |
| Displays.Display.DrawCells | crates/mosh-terminal/src/display.rs:504-589 | skipping unchanged cells and erasing gathered blanks still makes every column look as the new row has it; tells exactly when the last column is written |
| Displays.Display.PutRow | crates/mosh-terminal/src/display.rs:467-607 | the row then looks as the new screen has it, no other row changes its look, and the next row is to be wrapped into exactly when the contract says |
| Displays.Display.FlushBlanks | crates/mosh-terminal/src/display.rs:533-543 | a run of blanks is erased or overwritten, to the same look |
| Displays.Display.FlushToEnd | crates/mosh-terminal/src/display.rs:577-589 | the same at the end of the row, erasing only when that is allowed |
| Displays.Display.DetectScroll | crates/mosh-terminal/src/display.rs:303-329 | the loop finds by how much the screen moved up and how many rows survive |
| Displays.Display.MirrorRows | crates/mosh-terminal/src/display.rs:371-377 | the copy is shifted in place as the terminal was |
| Displays.ScrollShows | crates/mosh-terminal/src/display.rs:298-380 | the scrolled terminal looks like the mirrored rows, and every row then skipped already looks like the new screen |
| Displays.Display.Shortcut | crates/mosh-terminal/src/display.rs:298-380 | the emitted region, line feeds and reset leave exactly that |
| Displays.Display.PutRows | crates/mosh-terminal/src/display.rs:382-394 | drawing the remaining rows makes all rows look as the new screen has them |
| Displays.Display.NewFrame | crates/mosh-terminal/src/display.rs:193-464 | on any terminal that shows the last screen (or any at all, when that is not known) the operations emitted make every cell look as in the new one, with its rendition, visibility and modes, and the cursor in place but for one case, in which it is one column short; and all the operations as a function of the two screens |
| Completes.DiffFrom | crates/mosh-state/src/complete.rs:78-143 | the difference between two screens, performed by the peer's terminal, gives the new one, across changes of size as well; and so it does on a terminal whose cursor was missed before, unless it draws from that cursor, with the cursor as far off afterwards as stated |
| Completes.Follow | crates/mosh-state/src/complete.rs:78-143 | and so does any chain of differences, past frames that miss the cursor too, as long as none draws from a missed one |
| Completes.RightsTheCursor | crates/mosh-terminal/src/display.rs:72-96 | two terminals that differ in the column of the cursor come to be the same by any operations of which the first to concern that column sets it |
| Completes.IdleLeavesTheColumn | crates/mosh-terminal/src/display.rs:98-104 | and stay different just so by operations that do not concern it |
| Completes.SameScreenWritesNothing | crates/mosh-terminal/src/display.rs:193-464 | a frame between two screens of the very same rows and state is empty |
| Completes.CursorIsMissed | crates/mosh-terminal/src/display.rs:88-92 | a two-column screen on which the cursor is missed |
| Completes.ChangeAfterMiss | crates/mosh-terminal/src/display.rs:61-96 | the first character the frame after that moves to is written one column left of its place exactly when it is reached by distance |
| Completes.NextFrameSpoilsCells | crates/mosh-terminal/src/display.rs:262-265 | all the operations of a second frame after that instance overwrite another cell and leave their own as it was |
| Overlays.CreditIsEarned | crates/mosh-client/src/overlay.rs:192-241 | a guess is judged correct exactly when it is due and matches the screen and, for a character, nothing the cell is known to have held matched it, or, for an erasure, something it held did not |
| Overlays.FirstWrong | crates/mosh-client/src/prediction.rs:349-422 | the first column with a wrong guess |
| Overlays.VerdictIgnoresRendition | crates/mosh-client/src/overlay.rs:192-241 | adopting the server's colours changes no verdict |
| Overlays.DeletedStep | crates/mosh-client/src/prediction.rs:691-693 | one more erasure extends the deleted span by one cell |
| Overlays.ErasingUndoesTyping | crates/mosh-client/src/prediction.rs:539-772 | typing a character and erasing it gives back every column but the last two |
| Predictions.TypedAndErased | crates/mosh-client/src/prediction.rs:539-772 | so on the screen as guessed: a character typed and erased again restores the cursor, all other rows, and its own row but for the last two columns |
| Overlays.WordStart | crates/mosh-client/src/prediction.rs:676-689 | going back from the cursor there are known blanks, then known non-blanks as far as the word goes |
| Predictions.ShiftRight | crates/mosh-client/src/prediction.rs:570-616 | the loop leaves each column guessed to be what its left neighbour was, the last one unknown, and remembers what the server shows there |
| Predictions.ShiftLeft | crates/mosh-client/src/prediction.rs:731-771 | the loop, skipping guesses that have not changed, refines deletion from the row as guessed |
| Predictions.PredictionEngine.TypeCell | crates/mosh-client/src/prediction.rs:561-643 | typing refines insertion into the row as guessed (or overwriting), no other row changes, and what the server shows is remembered; the character takes the colours left of it, and at the last column an epoch begins |
| Predictions.PredictionEngine.TypeCharacter | crates/mosh-client/src/prediction.rs:554-654 | the same with the cursor, one right or to the next line from the last column, and with the epochs begun there |
| Predictions.PredictionEngine.PredictPrint | crates/mosh-client/src/prediction.rs:539-559 | a character of one column is typed, a delete erases, and any other only begins an epoch |
| Predictions.PredictionEngine.PredictBackspace | crates/mosh-client/src/prediction.rs:696-772 | erasing refines deletion from the row as guessed, the last two columns unknown; nothing happens at the first column |
| Predictions.PredictionEngine.PredictWordErase | crates/mosh-client/src/prediction.rs:676-694 | erasing a word deletes exactly the cells from its start to the cursor |
| Predictions.PredictionEngine.NewlineCarriageReturn | crates/mosh-client/src/prediction.rs:774-794 | the cursor goes to the next line, or the last line is guessed blank |
| Predictions.PredictionEngine.Predict | crates/mosh-client/src/prediction.rs:476-537 | what a byte does is what the actions it completes do, one after another, or for escape and delete the erasing of a word, with the epochs they begin; every guess is dated for a frame not yet sent |
| Predictions.PredictionEngine.Rebuild | crates/mosh-client/src/prediction.rs:260-281 | the guesses left are those that typing just the unreceived keystrokes on the server screen leads to, each in its epoch, with a new parser but after the last byte typed; none of them can be judged yet, and the counters borrowed are restored |
| Predictions.PredictionEngine.ReplayAsNew | crates/mosh-client/src/prediction.rs:260-281 | that is what a new engine would guess, as long as the last byte was no escape or the first keystroke has the same effect after one: a delete that erases a word of at most one cell, the letter O in the bottom right corner, or any other byte |
| Predictions.PredictionEngine.ReplayAfterEscape | crates/mosh-client/src/prediction.rs:476-496 | for a delete or the letter O and then an escape in flight, the replay is what a new engine would guess if and only if the keystroke has the same effect after an escape |
| Predictions.PredictionEngine.EscapeIsFelt | crates/mosh-client/src/prediction.rs:482-490 | an instance: a delete and an escape on a blank row, the cursor in its third column, take the cursor to the first column, and no new engine does |
| Predictions.PredictionEngine.JudgeRow | crates/mosh-client/src/prediction.rs:349-422 | without a wrong guess each decided one is reset and each other kept, in the colours of the last column proved right; the first wrong one gives up its epoch, or everything if that was confirmed |
| Predictions.PredictionEngine.UpdateTriggers | crates/mosh-client/src/prediction.rs:324-342 | each trigger is on above its upper bound, off below its lower one and otherwise as it was |
| Predictions.PredictionEngine.JudgeRows | crates/mosh-client/src/prediction.rs:349-422 | rows are judged in order up to the first wrong guess |
| Predictions.JudgementFrom | crates/mosh-client/src/prediction.rs:349-422 | judging finds nothing wrong exactly when no row has a wrong guess, or when experimenting |
| Predictions.JudgingCounts | crates/mosh-client/src/prediction.rs:376-420 | over a whole judging at most one glitch is worked off, save at time zero; the count rises only if some guess has been outstanding for 250 ms, and then, unless a wrong guess cuts the judging short, is 9 at least; it never passes 20 |
| Predictions.JudgedRowPending | crates/mosh-client/src/prediction.rs:349-422 | what judging keeps of a row is pending against that screen |
| Predictions.PredictionEngine.NoteReceived | crates/mosh-client/src/prediction.rs:429-433 | the newest acknowledged keystroke is remembered, and those late-acknowledged let go |
| Predictions.PredictionEngine.Resolve | crates/mosh-client/src/prediction.rs:435-447 | what is given up when a guess is wrong: which keystrokes move to a new epoch, and that all is guessed afresh |
| Predictions.PredictionEngine.Abandon | crates/mosh-client/src/prediction.rs:208-217 | keystrokes from an epoch on are moved to a new one, the rest left |
| Predictions.PredictionEngine.Cull | crates/mosh-client/src/prediction.rs:311-451 | after every cull, whichever way it went, each surviving guess about a cell or the cursor is pending against that screen, and each keystroke kept is still unacknowledged; and exactly which guesses, keystrokes and epochs are left is stated, with the guesses judged or guessed afresh, the count of glitches and both triggers |
| Predictions.PredictionEngine.NewUserByte | crates/mosh-client/src/prediction.rs:454-474 | what is held is culled, the byte recorded under the next frame with its time, kind and epoch, and the guesses are what the byte does to those left; never more than 256 keystrokes wait |
| Predictions.PredictionEngine.TakeByte | crates/mosh-client/src/prediction.rs:462-474 | recording and guessing, from nothing when too many wait |
| Predictions.PredictionEngine.Apply | crates/mosh-client/src/prediction.rs:177-192 | each cell is drawn by its own guess alone, and the cursor moved by the guesses in order |
| Predictions.DrawnIsGuessed | crates/mosh-client/src/overlay.rs:153-190 | what is drawn is what is guessed where that is known and confirmed, otherwise what the server showed; at most underlined |
| UserStreams.UserStream.Subtract | crates/mosh-state/src/user.rs:49-65 | the loop takes off the prefix as far as it is one |
| UserStreams.UserStream.DiffFrom | crates/mosh-state/src/user.rs:68-108 | the loop builds the difference event by event, and its bytes are returned |
| UserStreams.UserStream.ApplyString | crates/mosh-state/src/user.rs:115-131 | the events of the difference read from the bytes are appended in order; bytes that cannot be read are refused and change nothing |
| UserStreams.SubtractsWhatIsShared | crates/mosh-state/src/user.rs:49-65 | nothing but the longest shared prefix is ever taken off |
| UserStreams.DiffThenApply | crates/mosh-state/src/user.rs:68-131 | a difference applied to the stream it was taken from gives the stream it leads to |
| UserStreams.DiffEmptyIffEqual | crates/mosh-state/src/user.rs:68-108 | a difference, and its bytes, are empty exactly when there is none |
| UserStreams.DiffIgnoresPrefix | crates/mosh-state/src/user.rs:49-108 | subtracting a shared prefix from both streams leaves the difference unchanged |
| UserStreams.RunsAreJoined | crates/mosh-state/src/user.rs:76-94 | no two keystroke instructions stand side by side in a difference |
| UserStreams.JoinedFormIsUnique | crates/mosh-state/src/user.rs:68-131 | two differences in that form with the same effect are the same |
| ShellWords.Split | crates/mosh/src/opts.rs:222-259 | the loop splits as the character-by-character specification does |
| ShellWords.SplitsBack | crates/mosh/src/opts.rs:222-272 | splitting the quoted words, joined by spaces, gives exactly those words, for every list |
| ShellWords.QuotingIsInjective | crates/mosh/src/opts.rs:262-272 | two lists of words look alike when quoted only if they are the same |
| Keys.EncodeKey | crates/mosh-crypto/src/base64.rs:45-62 | the loop writes the 22 letters of the key's bits and two pads |
| Keys.DecodeKey | crates/mosh-crypto/src/base64.rs:19-42 | accepted exactly when all letters and both pads are right, and then the bytes the letters hold |
| Keys.Parse | crates/mosh-crypto/src/lib.rs:76-88 | which of the three errors or which key a string gives, its length counted in bytes |
| Keys.ParsesIffPrinted | crates/mosh-crypto/src/lib.rs:76-95 | a string parses to a key if and only if it is the printed form of that key |
| Keys.NotAKeyWhenBitsLeftOver | crates/mosh-crypto/src/lib.rs:76-95 | of the strings that decode, exactly those with leftover bits set are refused |
| Nonces.PacketRoundTrip | crates/mosh-network/src/packet.rs:57-87 | a packet comes back as sent exactly when its number leaves the direction bit alone |
| Nonces.MessageRoundTrip | crates/mosh-network/src/packet.rs:57-87 | every message long enough is the form of the packet read from it |
| Nonces.Sealer.NextValue | crates/mosh-crypto/src/lib.rs:236-243 | numbers are drawn in order until the 64 bits are used up |
| Nonces.Sealer.Encrypt | crates/mosh-crypto/src/lib.rs:176-202 | blocks are counted even when the count then forbids sending |
| Nonces.Sealer.Send | crates/mosh-network/src/connection.rs:350-372 | with someone to send to, a datagram leaves exactly while the block total stays under the limit, numbered by the draws before it; with no one, nothing is drawn or sent |
| Nonces.NonceTravels | crates/mosh-crypto/src/lib.rs:108-145 | the eight bytes that travel rebuild the nonce and its number |
| Nonces.WireNamesNonce | crates/mosh-crypto/src/lib.rs:122-134 | just runs of eight bytes are taken, each as the nonce of the number it spells |
| Nonces.NoncesDistinct | crates/mosh-network/src/packet.rs:77-87 | two nonces of numbers below the direction bit are equal exactly when direction and number are |
| Nonces.NoNonceRepeats | crates/mosh-crypto/src/lib.rs:176-244 | whatever both ends have sent, no nonce served twice at one end or across both |
| EchoHistories.EchoHistory.SetEchoAck | crates/mosh-state/src/complete.rs:146-162 | the acknowledgement equals the newest frame due of all ever registered, though the history was pruned, and never goes back |
| EchoHistories.EchoHistory.RegisterInputFrame | crates/mosh-state/src/complete.rs:164-166 | a frame is recorded and the acknowledgement left alone, whatever its number; frames that increase keep the history in order |
| EchoHistories.NewestDueOfTail | crates/mosh-state/src/complete.rs:146-158 | what was pruned does not matter to the newest due frame |
| EchoHistories.NewestDueIs | crates/mosh-state/src/complete.rs:146-153 | it is due, and exactly the frames up to it are due |
| EchoHistories.DueWhenOld | crates/mosh-state/src/complete.rs:146-153 | a frame is due when it is 50 ms old, or arrived at time zero |

## Left out

- Sockets, port hopping, roaming, polling and the server and client main loops: input and output. Only "a fragment was sent" and "a fragment was delivered" remain.
- Round-trip estimation: floating point. The send interval and the timeout are inputs of a tick.
- AES-OCB, zlib and random padding: libraries not shown. The cipher is taken as the identity on a message and its nonce, the serialisation and compression of an instruction by their inverse law, padding as any bytes. Of the protobuf wire format only groups are left out, which no message here has.
- Reading a field that is absent from a decoded instruction as 0, and the check of the protocol version's presence: fields are always there.
- The verbose self-check of a difference before it is sent (`crates/mosh-network/src/sender.rs:299-311`): it changes nothing but what is printed.
- SenderSpec.CalculateTimers: does not model 64-bit wrap-around of times, because sums of a millisecond clock and small intervals stay far below it; likewise epochs and counters of the prediction engine.
- The screen as a third kind of state in the step system: its differences are drawings (`Completes`), and one screen is not a beginning of the next.
- Stream and the draw state of a screen are values replaced as a whole by the objects that own them, and an overlay cell or row is replaced in its list: sharing between copies is not captured.
- The parser's transition table, UTF-8 decoding, the collection of parameter digits and the table from final characters to functions: the emulator is driven by actions with their parameters read. What a report sends back to the host is left out with them.
- Character width is a parameter of a printed character, and an arbitrary function of the prediction engine.
- Hyperlinks, titles, icon names, clipboard, colour queries, bell and mouse modes: they touch neither cells nor cursor.
- Displays.Display.NewFrame: wide, combining and fallback cells are excluded, because the display's own treatment of them has edge cases of a different kind.
- FrameStates.FrameState.UpdateRendition: states the outcome only for renditions a terminal can be told; what the sequence of any other selects is `Rendition.SgrResult`.
- Completes.DiffFrom: the echo acknowledgement carried beside the screen is `EchoHistories`, and left out here.
- Completes.Follow: follows no chain past a frame that draws from a cursor that was missed, because such a frame may spoil the screen.
- Rendition.Sgr: colours are unbounded naturals rather than 32-bit words, of which those with a bit above the 24 are shown not to survive.
- Generations and copy-on-write of rows as facts of memory: a row carries an identity and a generation, and equality of identity implies equality.
- An order between the confirmed and the current epoch of the prediction engine: the program keeps none, since guessing afresh can make guesses of an epoch above the one it restores.
- Argument parsing beyond words and quotes, the ssh handshake, pty, terminfo and locale: foreign calls or long and easy.
