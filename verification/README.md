# SIMtrace 2, verified

A Dafny model of the parts of SIMtrace 2 that carry the protocol logic, with proofs of what they promise.
`dafny verify dfyconfig.toml` checks everything.

SIMtrace 2 sits between a phone and a SIM card. The firmware either *observes* the line between a reader and a card
(the sniffer) or *is* the card (the emulator), with a host program that answers the commands through a real card
elsewhere. Both implement ISO/IEC 7816-3 byte by byte and independently of each other.

| files | what they model |
|---|---|
| `RbShape`, `RbInsertShape`, `RbEraseShape`, `RbTree` | the red-black tree: pure tree surgery on zippers, and the pointer code that performs it in place |
| `TimerOrder`, `TimerRuns`, `Timers` | the timer queue on top of it, and its updates with callbacks |
| `Bytes`, `Iso7816` | bytes, checksums, rate tables, PPS messages |
| `SniffSpec`, `Sniffer` | the sniffer as a machine over bytes, and the buffer code that implements it |
| `SniffTpdu`, `SniffAtr`, `AtrGrammar`, `SniffPps`, `SniffConvention` | what the sniffer makes of whole exchanges, ATRs, PPS exchanges and initial characters |
| `SniffBreaks` | what it makes of units that are cut off or refused, and of what follows |
| `WaitTime` | the 32-bit waiting time on a 16-bit counter |
| `EmuSpec`, `CardEmu` | the emulator as a machine over calls, and the code that implements it |
| `EmuRuns`, `EmuPts`, `EmuAtr`, `EmuNull` | its runs, PTS exchanges, ATR and NULL bytes |
| `HostSpec`, `Host` | APDU segmentation and the answers of the host |
| `EndToEnd` | a T=0 command through reader, emulator, host and sniffer, in any order of events |
| `Disturbed` | the same with half times at any point, and what the sniffer reports then |
| `CrossRates` | waiting time and baud rate on both sides |
| `Isqrt`, `UsbIn`, `Flash`, `Deframe`, `SniffMessages` | integer square root, USB IN transfers, flash writes, message streams and their messages |

Each imperative class has a function from its fields and arrays to a value (`State`, or a sequence), and its methods
are proved to do one step of a specification over those values. The theorems about runs are then about the
specification. What the specification computes is said again in terms of the standards: tables, lengths, status bytes,
waiting times and message formats are written out where the theorems are stated.

What the proofs show about the code itself:

- Expired timers fire in reverse order of their deadlines: they are pushed at the head of the eviction list.
- The sniffer and the emulator read the D table differently from index 10 on, and index 0 once a D other than 1 is
  negotiated, which the sniffer keeps and the emulator does not (`CrossRates.Pps1Agrees`).
- After a PPS exchange without PPS1 the sniffer sets its UART from PPS0 (`CrossRates.NoPps1`), although its comment on
  the slot says that this does not affect the process; and it goes back to D = 1, while the emulator keeps its D.
- The sniffer takes 0x30 for an inverse-convention TS read directly; by its own table that byte is 0x03, which it
  rejects (`SniffConvention.SwitchingTs`). And the conversion flag outlives a reset by one byte
  (`SniffConvention.ConversionOutlivesReset`).
- A half time reached while a message is in flight puts a NULL byte into its data, or in the place of SW2
  (`EndToEnd.NullInFlight`). Emulator, host and sniffer stay together iff this does not happen
  (`EndToEnd.EveryCommandIff`), and from every command on it can be reached (`EndToEnd.DisturbanceReached`). Only the
  wire suffers (`Disturbed.NobodyElseDisturbed`), and the sniffer's report stays right iff all bytes still to come of
  the message are NULL bytes themselves (`Disturbed.ReportRightIff`).
- In `add_tpdu_byte` the branch that flushes a full buffer is dead: P3 is smaller than the room
  (`CardEmu.CardHandle.AddTpduByte`).
- The host sniffer hands its payload handlers all buffered bytes instead of the message, so that a message too short
  for its fields is printed with bytes of the next one, depending on how the stream was cut
  (`Deframe.CuttingShows`, `Deframe.StableIff`).
- The firmware reads the header of a message even where fewer than eight bytes are left, and never passes a length of
  zero. Its loop ends whatever was in the buffer before iff the transfer is `Deframe.Framed` (`Deframe.EndsIff`); what
  it dispatches does not depend on that iff the transfer is `Deframe.SelfFramed` (`Deframe.IndependentIff`).
- When the first part of an APDU has more data bytes than P3 announces, the host sends nothing
  (`HostSpec.SilentAfterFirst`) until its counter wraps (`HostSpec.SilentAfterMore`). Only another caller can get
  there: the firmware sends headers alone.

## Model

| member | source | states |
|---|---|---|
| `RbTree.RbRoot.Erase` | firmware/libosmocore/source/rbtree.c:213-278 | any node of any valid red-black tree: the result is a valid one (links, colours, black heights) whose in-order sequence is the old one with exactly that node removed |
| `RbTree.RbRoot.EraseOuter` | firmware/libosmocore/source/rbtree.c:218-221 | the case of at most one child: valid tree, exactly that node gone from the sequence |
| `RbTree.RbRoot.EraseInner` | firmware/libosmocore/source/rbtree.c:222-258 | the case of two children, the successor moving into place: valid tree, exactly that node gone |
| `RbTree.RbRoot.SpliceOut` | firmware/libosmocore/source/rbtree.c:260-273 | the child takes the place of the node under the parent or the root |
| `RbTree.RbRoot.MoveUp` | firmware/libosmocore/source/rbtree.c:224-255 | the successor, child of the node or deeper, ends with colour, parent and both subtrees of the node; its old place holds its right child |
| `RbTree.RbRoot.SettleColor` | firmware/libosmocore/source/rbtree.c:275-278 | recolouring only if a black node left; either way a valid tree with the same sequence |
| `RbTree.RbRoot.EraseColor` | firmware/libosmocore/source/rbtree.c:133-211 | from a subtree one black node short, the loop ends in a valid tree with the same in-order sequence |
| `RbTree.RbRoot.MendRound` | firmware/libosmocore/source/rbtree.c:138-208 | one round keeps the sequence; either the shortage is gone and the loop breaks, or it moved up, or the subtree root turned red (which ends the loop) |
| `RbTree.RbRoot.MendAtLeft` | firmware/libosmocore/source/rbtree.c:140-173 | the round for a left child: every red/black constellation of sibling and nephews |
| `RbTree.RbRoot.MendAtRight` | firmware/libosmocore/source/rbtree.c:174-207 | the mirror image |
| `RbTree.RbRoot.InsertColor` | firmware/libosmocore/source/rbtree.c:68-131 | from a red leaf that may sit under a red parent, a valid tree with the same sequence |
| `RbTree.RbRoot.ClimbLeft` | firmware/libosmocore/source/rbtree.c:76-101 | a round under a left parent: same sequence, invariant kept, strictly nearer to the root |
| `RbTree.RbRoot.ClimbRight` | firmware/libosmocore/source/rbtree.c:102-127 | the mirror image |
| `RbTree.RbRoot.LinkNode` | firmware/libosmocore/include/osmocom/core/linuxrbtree.h:147-154 | the new red leaf hangs where the search ended, all else unchanged |
| `RbTree.RbRoot.Insert` | firmware/libosmocore/source/rbtree.c:68-131 | linking and recolouring: a valid tree whose sequence has the new node at the searched place |
| `RbTree.RbRoot.RotateLeft` | firmware/libosmocore/source/rbtree.c:22-43 | the heap realises the left rotation at that place, parent links included |
| `RbTree.RbRoot.RotateRight` | firmware/libosmocore/source/rbtree.c:45-66 | the mirror image |
| `RbTree.RbRoot.First` | firmware/libosmocore/source/rbtree.c:283-293 | the first of the in-order sequence, null for the empty tree |
| `RbTree.RbRoot.Next` | firmware/libosmocore/source/rbtree.c:307-333 | the node behind the given one in the in-order sequence, null after the last |
| `RbShape.PlugFits` | firmware/libosmocore/source/rbtree.c:133-211 | a subtree replaced by another of the same black height, red only where a red may stand, leaves the whole valid; what every local repair relies on |
| `RbShape.HeightIsDetermined` | firmware/libosmocore/source/rbtree.c:133-211 | a subtree has one black height: all its paths have the same number of black nodes |
| `RbShape.LeftRotationKeeps` | firmware/libosmocore/source/rbtree.c:22-43 | a left rotation keeps the in-order sequence |
| `RbShape.RightRotationKeeps` | firmware/libosmocore/source/rbtree.c:45-66 | a right rotation keeps it |
| `RbInsertShape.FlipClimbs` | firmware/libosmocore/source/rbtree.c:80-87 | red uncle: after recolouring the violation, if any, is two levels higher |
| `RbInsertShape.InnerClimbs` | firmware/libosmocore/source/rbtree.c:90-97 | the inner grandchild becomes an outer one, same violation |
| `RbInsertShape.OuterClimbs` | firmware/libosmocore/source/rbtree.c:99-101 | after lifting the parent no violation is left |
| `RbInsertShape.ClimbingEnds` | firmware/libosmocore/source/rbtree.c:130-130 | without a red parent the blackened root makes the tree valid |
| `RbEraseShape.SiblingLiftedShort` | firmware/libosmocore/source/rbtree.c:143-149 | a red sibling rotated up leaves the same shortage under a black sibling |
| `RbEraseShape.MergedShort` | firmware/libosmocore/source/rbtree.c:150-156 | black sibling with black children painted red: the parent subtree is short, same contents |
| `RbEraseShape.NephewTurnedShort` | firmware/libosmocore/source/rbtree.c:159-165 | the near red nephew becomes a far one |
| `RbEraseShape.FinishedFits` | firmware/libosmocore/source/rbtree.c:166-171 | the last rotation ends the shortage |
| `RbEraseShape.ShortEnds` | firmware/libosmocore/source/rbtree.c:138-211 | at the root, or with a red subtree, blackening ends the shortage |
| `RbEraseShape.SpliceShape` | firmware/libosmocore/source/rbtree.c:260-273 | a node with at most one child replaced by it: one black short if it was black |
| `RbEraseShape.InnerRemoval` | firmware/libosmocore/source/rbtree.c:222-258 | replacing the node by its successor and the successor by its child removes exactly the node from the sequence |
| `TimerOrder.SearchStep` | firmware/libosmocore/source/timer.c:46-56 | a step of the descent keeps all earlier timers that expire no later to the left and all that expire later to the right |
| `Timers.TimerQueue.FindSlot` | firmware/libosmocore/source/timer.c:46-56 | the slot found is behind every timer that expires no later and before every later one |
| `Timers.TimerQueue.InsertTimer` | firmware/libosmocore/source/timer.c:41-60 | the queue is the old one with the timer put behind all that expire no later: ties keep insertion order |
| `Timers.TimerQueue.Del` | firmware/libosmocore/source/timer.c:105-114 | pending iff in the tree; exactly that timer leaves tree and eviction list, even if its key was overwritten before |
| `Timers.TimerQueue.Add` | firmware/libosmocore/source/timer.c:65-71 | the timer is pending, in order, and off the eviction list |
| `Timers.TimerQueue.Schedule` | firmware/libosmocore/source/timer.c:83-97 | the key may be overwritten while the timer is in the tree; afterwards everything is in order, and the key is now plus the delay in whole milliseconds, the rest cut off |
| `TimerRuns.ScheduledDue` | firmware/libosmocore/source/timer.c:83-97 | a timer that was scheduled and not touched since is due in an update iff its delay, in whole milliseconds, has passed |
| `Timers.TimerQueue.Calls` | firmware/libosmocore/source/timer.c:41-114 | any sequence of add, schedule and delete keeps: active iff in the tree, sorted by expiry, ties by insertion |
| `Timers.TimerQueue.Check` | firmware/libosmocore/source/timer.c:260-269 | first and next visit each pending timer once, in firing order |
| `Timers.TimerQueue.Prepare` | firmware/libosmocore/source/timer.c:178-211 | the time to the least expiry among all pending timers; 0 iff one is due; none if there is nothing to wait for |
| `Timers.TimerQueue.ScanDue` | firmware/libosmocore/source/timer.c:225-232 | the eviction list is exactly the timers due, in reverse firing order |
| `Timers.TimerQueue.DrainList` | firmware/libosmocore/source/timer.c:246-253 | the restart loop ends, and fires what the rounds of the specification fire, for callbacks that make any calls |
| `Timers.TimerQueue.Update` | firmware/libosmocore/source/timer.c:214-256 | fires from the reversed due timers as drained with the callbacks; work is reported iff something fired |
| `TimerRuns.DrainOrder` | firmware/libosmocore/source/timer.c:225-253 | timers fire in list order, each at most once, and nothing that was not listed fires |
| `TimerRuns.DrainFires` | firmware/libosmocore/source/timer.c:246-253 | a due timer fires exactly once unless an earlier callback of the same update touched it, and not if one did |
| `TimerRuns.EarlierAddSmallerStamp` | firmware/libosmocore/source/timer.c:41-97 | of two timers the one added first, by its last addition, is the one that ties put first |
| `TimerRuns.LastCallDecides` | firmware/libosmocore/source/timer.c:62-116 | after any calls, the last one on a timer decides: deleted it is not pending, otherwise it is, and scheduled it expires the whole milliseconds of the delay after that call |
| `TimerRuns.PendingAfterUpdate` | firmware/libosmocore/source/timer.c:214-256 | a timer that no callback touches is pending after an update iff it was before and was not due |
| `TimerOrder.InsertKeepsOrder` | firmware/libosmocore/source/timer.c:41-60 | putting the newest behind all ties keeps the queue in firing order |
| `TimerOrder.RemoveKeepsOrder` | firmware/libosmocore/source/timer.c:105-114 | erasing the one timer whose key is out of place leaves the queue in order |
| `Iso7816.RatioIs` | firmware/libcommon/source/iso7816_fidi.c:34-63 | a ratio exists iff neither index is reserved in the standard; F/D rounded down for indices of D below 10, F times the inverse above, in terms of the values of the standard and not of the tables |
| `Iso7816.TablesAre` | firmware/libcommon/source/iso7816_fidi.c:22-32 | the tables are: F 372 times 1, 1, 1.5, 2, 3, 4, 5 and 512 times 1, 1.5, 2, 3, 4; D powers of two, 12 and 20; the other indices reserved |
| `Iso7816.UartRatioIs` | firmware/libcommon/source/simtrace_iso7816.c:120-143 | the ratio of the UART after indices were asked for, in numbers: F/D if it is from 1 to 2047, else the old one |
| `Iso7816.PpsFromStart` | firmware/libcommon/source/sniffer.c:595-658 | the message bytes are PPSS, PPS0, the parameters PPS0 names, PCK, however one walks through the fields |
| `Sniffer.Sniffer.SetWt` | firmware/libcommon/source/sniffer.c:218-231 | waiting time WI*960*D with the two kept values, zero meaning unchanged |
| `Sniffer.Sniffer.SetFidi` | firmware/libcommon/source/simtrace_iso7816.c:120-143 | the ratio register takes a usable ratio and keeps its value otherwise |
| `Sniffer.Sniffer.ChangeState` | firmware/libcommon/source/sniffer.c:286-325 | the new state and exactly the resets that belong to it |
| `Sniffer.Sniffer.ProcessByteAtr` | firmware/libcommon/source/sniffer.c:421-534 | the fall-through switch over the buffer does one step of the ATR machine; no write past 33 bytes |
| `Sniffer.Sniffer.CheckAtr` | firmware/libcommon/source/sniffer.c:513-528 | the checksum loop flags iff T0 to TCK do not XOR to zero |
| `Sniffer.Sniffer.SendPps` | firmware/libcommon/source/sniffer.c:540-578 | at every point, also at a timeout in any sub-state, the message holds exactly the bytes received since PPSS, although skipped slots were overwritten |
| `Sniffer.StoredHolds` | firmware/libcommon/source/sniffer.c:611-647 | a fall-through that overwrites the slots of absent parameters keeps the relevant slots equal to the received bytes |
| `Sniffer.Sniffer.FallThrough` | firmware/libcommon/source/sniffer.c:614-645 | which slots a byte is stored in and which field is next |
| `Sniffer.Sniffer.ProcessBytePps` | firmware/libcommon/source/sniffer.c:595-701 | the slot-based code does one step of the PPS machine |
| `Sniffer.RateSlot` | firmware/libcommon/source/sniffer.c:671-691 | the slot used as Fi/Di holds PPS1, or PPS0 when PPS1 is absent |
| `Sniffer.Sniffer.ProcessByteTpdu` | firmware/libcommon/source/sniffer.c:719-818 | one step of the TPDU machine; all writes inside the packet for arbitrary input |
| `Sniffer.Sniffer.RunByte` | firmware/libcommon/source/sniffer.c:1031-1071 | dispatch of a byte, converted first, to ATR, PPS or TPDU |
| `Sniffer.Sniffer.RunBytes` | firmware/libcommon/source/sniffer.c:1031-1071 | any bytes on the wire do what a run of the machine does, so that the theorems about runs hold of the object |
| `Sniffer.Sniffer.RunTimeout` | firmware/libcommon/source/sniffer.c:1073-1095 | a timeout reports the interrupted unit as incomplete and goes back to waiting |
| `Sniffer.Sniffer.RunResetAssert` | firmware/libcommon/source/sniffer.c:1108-1130 | a reset reports the interrupted unit and restores the default rates |
| `Sniffer.Sniffer.RunResetDeassert` | firmware/libcommon/source/sniffer.c:1131-1136 | after the reset an ATR is expected |
| `SniffTpdu.ExchangeRecovered` | firmware/libcommon/source/sniffer.c:719-818 | for every header, every interleaving of NULL bytes, acknowledged runs and single bytes, and every status word: one report, the exchange with exactly the procedure bytes removed, flags 0 |
| `SniffTpdu.ZeroIs256` | firmware/libcommon/source/sniffer.c:799-813 | after the acknowledgement of a command with P3 = 0 exactly 256 data bytes are collected before the next procedure byte |
| `SniffBreaks.ExchangePrefix` | firmware/libcommon/source/sniffer.c:719-818 | at any point of an exchange the packet holds what came so far without the procedure bytes |
| `SniffBreaks.TpduTimeout` | firmware/libcommon/source/sniffer.c:1073-1095 | a timeout at any point of an exchange: one report, incomplete, with what came so far, and the next exchange is recovered as usual |
| `SniffBreaks.RequestTimeout` | firmware/libcommon/source/sniffer.c:1087-1092 | the same in a PPS request: no rate changes, and the next exchange is recovered |
| `SniffBreaks.ResponseTimeout` | firmware/libcommon/source/sniffer.c:1087-1092 | the same in a PPS response, the valid request being reported before |
| `SniffBreaks.AtrTimeout` | firmware/libcommon/source/sniffer.c:1077-1081 | the same in an ATR: the next one is accepted |
| `SniffBreaks.TpduReset` | firmware/libcommon/source/sniffer.c:1105-1134 | a reset at any point of an exchange, with any bytes during it: one report, incomplete; then the ATR is accepted at the default rates, its waiting integer in force |
| `SniffBreaks.PpsReset` | firmware/libcommon/source/sniffer.c:1105-1134 | the same in a PPS request or response |
| `SniffBreaks.AtrReset` | firmware/libcommon/source/sniffer.c:1105-1134 | the same in an ATR |
| `SniffBreaks.RefusedIns` | firmware/libcommon/source/sniffer.c:747-758 | an INS that looks like SW1: CLA is reported as malformed, and a command is expected |
| `SniffBreaks.RefusedProcedure` | firmware/libcommon/source/sniffer.c:772-795 | a byte that is no procedure byte, after any header and phases: header and data are reported as malformed, and a command is expected |
| `SniffBreaks.RefusedTs` | firmware/libcommon/source/sniffer.c:443-460 | a byte that is no TS is reported as malformed, and the next ATR is accepted |
| `SniffTpdu.PhasesRun` | firmware/libcommon/source/sniffer.c:772-816 | any sequence of procedure phases adds exactly its data bytes to the packet |
| `SniffTpdu.PacketBounded` | firmware/libcommon/source/sniffer.c:726-729 | over arbitrary input the packet stays within 263 bytes, and the ATR within 33 |
| `SniffTpdu.ProcedureBytesDiffer` | firmware/libcommon/source/sniffer.c:772-795 | for a valid INS the NULL, INS, complemented INS and SW1 bytes cannot be confused |
| `SniffAtr.AtrAccepted` | firmware/libcommon/source/sniffer.c:421-534 | a well-formed ATR with any chain of TD groups is accepted at its last byte and at no proper prefix, TCK expected iff a TD names a protocol other than T=0, reported verbatim, checksum flag iff TCK is there and wrong; with TC2, WI is it or 10 for 0 and the waiting time WI*960*D |
| `SniffAtr.ChainRun` | firmware/libcommon/source/sniffer.c:462-500 | from any interface byte on, the rest of the ATR is parsed to its end |
| `SniffAtr.HistRun` | firmware/libcommon/source/sniffer.c:501-530 | historical bytes and TCK: the ATR ends exactly after them |
| `SniffPps.PpsRun` | firmware/libcommon/source/sniffer.c:595-701 | a PPS message of any subset of parameters is followed to its end |
| `SniffPps.ExchangeRun` | firmware/libcommon/source/sniffer.c:659-691 | request and equal response: two reports verbatim, rate notification, new ratio and waiting time |
| `SniffPps.BadRequestRun` | firmware/libcommon/source/sniffer.c:646-673 | a wrong PCK is flagged, no rate changes, a TPDU is expected |
| `SniffBreaks.AnyResponse` | firmware/libcommon/source/sniffer.c:595-705 | a valid request and any response, equal to it or not: both are reported; the rates, in numbers, are those of a valid response, and an invalid one is flagged and changes nothing |
| `SniffBreaks.Noise` | firmware/libcommon/source/sniffer.c:1047-1065 | between request and response other bytes and timeouts leave no trace |
| `SniffConvention.ConvertTwice` | firmware/libcommon/source/sniffer.c:209-209 | the conversion table is its own inverse |
| `SniffConvention.SwitchingTs` | firmware/libcommon/source/sniffer.c:443-460 | which TS bytes are taken and which switch the conversion; of the switching ones only 0x23 is the image of a valid TS, the image 0x03 of 0x3f is rejected |
| `SniffConvention.ConversionOutlivesReset` | firmware/libcommon/source/sniffer.c:1033-1046 | after a reset the TS of a well-formed ATR, 0x3b or 0x3f, is stored as sent and parsed without conversion iff the conversion flag was not left on |
| `WaitTime.ExactTimes` | firmware/libcommon/source/mode_cardemu.c:330-366 | for every total of at least 2, over any number of 16-bit rounds: half time told once, after total - total/2 etu, expiry after exactly total etu |
| `WaitTime.OneEtu` | firmware/libcommon/source/mode_cardemu.c:330-366 | a total of one etu has no half time |
| `WaitTime.ToldFrom` | firmware/libcommon/source/mode_cardemu.c:330-366 | the same from any point of the countdown |
| `WaitTime.ExtendedNeverExpires` | firmware/libcommon/source/mode_cardemu.c:349-366 | a countdown started again at every half time never expires |
| `WaitTime.Timeout` | firmware/libcommon/source/mode_cardemu.c:330-366 | a round keeps the counter loaded with the next thing to tell; expiry iff nothing remains, half time iff it is reached for the first time |
| `WaitTime.WaitTimer.ComputeNextTimeout` | firmware/libcommon/source/mode_cardemu.c:273-288 | its assertion is the precondition; the reload value is at most 0xffff |
| `WaitTime.WaitTimer.OnTimeout` | firmware/libcommon/source/mode_cardemu.c:330-366 | the assertion never fails; the fields follow the specification |
| `WaitTime.WaitTimer.UpdateWt` | firmware/libcommon/source/mode_cardemu.c:398-412 | a new total, counted from its start |
| `WaitTime.WaitTimer.ResetWt` | firmware/libcommon/source/mode_cardemu.c:416-428 | the same total, counted from its start |
| `CardEmu.CardHandle.constructor` | firmware/libcommon/source/card_emu.c:1331-1369 | the initial state |
| `CardEmu.CardHandle.Reset` | firmware/libcommon/source/card_emu.c:232-262 | nothing queued or in flight is left, the countdown is off |
| `CardEmu.CardHandle.SetState` | firmware/libcommon/source/card_emu.c:435-496 | state change with UART direction, countdown and default rates |
| `CardEmu.CardHandle.SetTpduState` | firmware/libcommon/source/card_emu.c:790-837 | TPDU sub-state with UART direction and countdown |
| `CardEmu.CardHandle.UpdateFidi` | firmware/libcommon/source/card_emu.c:399-412 | the ratio register takes a usable ratio of the current F and D |
| `CardEmu.CardHandle.UpdateWaitingTime` | firmware/libcommon/source/card_emu.c:424-432 | WI*960*D with D = 1 outside indices 1 to 9 |
| `CardEmu.CardHandle.TxByteAtr` | firmware/libcommon/source/card_emu.c:506-562 | the next ATR byte, or after the last one the search for TC2 and the waiting state |
| `CardEmu.CardHandle.SearchTc2` | firmware/libcommon/source/card_emu.c:523-551 | the waiting integer found by walking the bytes |
| `CardEmu.CardHandle.CsumPts` | firmware/libcommon/source/card_emu.c:367-381 | XOR of all used slots but PCK |
| `CardEmu.CardHandle.ProcessBytePts` | firmware/libcommon/source/card_emu.c:621-671 | one byte of a request; at PCK the answer or the refusal |
| `CardEmu.CardHandle.TxBytePts` | firmware/libcommon/source/card_emu.c:674-735 | one byte of the response; after PCK the new rate |
| `CardEmu.CardHandle.ProcessByteTpdu` | firmware/libcommon/source/card_emu.c:907-945 | header bytes and data bytes; the header and the complete data go to the host |
| `CardEmu.CardHandle.AddTpduByte` | firmware/libcommon/source/card_emu.c:757-788 | P3 bytes make one message with the final flag; the branch for a full buffer cannot be reached |
| `CardEmu.CardHandle.TxByteTpdu` | firmware/libcommon/source/card_emu.c:948-1012 | the next byte of the message in flight or of the queue, then what its flags ask for |
| `CardEmu.CardHandle.ProcessRxByte` | firmware/libcommon/source/card_emu.c:1019-1050 | dispatch of a reader byte |
| `CardEmu.CardHandle.CardTxByte` | firmware/libcommon/source/card_emu.c:1053-1077 | dispatch of a transmit request; nothing is sent outside ATR, PTS and TPDU |
| `CardEmu.CardHandle.IrqTxReady` | firmware/libcommon/source/mode_cardemu.c:312-318 | without a byte to send the transmit interrupt is turned off |
| `CardEmu.CardHandle.IrqTimeout` | firmware/libcommon/source/mode_cardemu.c:330-366 | a round of the counter, then the callback it asks for |
| `CardEmu.CardHandle.WtimeHalfExpired` | firmware/libcommon/source/card_emu.c:1249-1271 | a NULL byte and a fresh countdown, only while waiting for the host |
| `CardEmu.CardHandle.WtimeExpired` | firmware/libcommon/source/card_emu.c:1274-1286 | the ATR starts |
| `CardEmu.CardHandle.SetAtr` | firmware/libcommon/source/card_emu.c:1226-1246 | a new ATR of at most 33 bytes |
| `CardEmu.CardHandle.DispatchTxData` | firmware/libcommon/source/mode_cardemu.c:738-749 | data is queued only if the channel is ready, and wakes the transmitter if the card waits for it |
| `CardEmu.CardHandle.HandleAll` | firmware/libcommon/source/card_emu.c:1019-1286 | any sequence of calls on the object does what a run of the specification does; throughout, talking implies power and no reset, host data is held only while the channel is ready, and transmitted plus held is what was accepted since the last reset |
| `CardEmu.CardHandle.Run` | firmware/libcommon/source/card_emu.c:1331-1369 | the same from the initialisation on, with any levels of the lines |
| `EmuRuns.StepKeeps` | firmware/libcommon/source/card_emu.c:1019-1286 | every call keeps the invariant: talking or preparing the ATR implies power and no reset, host data only while the channel is ready, sub-states fit, the wait for the host is in its first half |
| `EmuRuns.StepTalks` | firmware/libcommon/source/card_emu.c:1019-1223 | a call hands at most one byte to the UART, only with power, out of reset and in IN_ATR, IN_PTS or IN_TPDU; a byte of the host is the first pending one; a reset drops all pending data |
| `EmuRuns.LinesDecide` | firmware/libcommon/source/card_emu.c:1152-1223 | what an event on the power, clock or reset line means in every state: a loss leaves the card inactive, silent and without data; an inactive card prepares its ATR at the default rates exactly when all lines are right, in any order of activation; an active one is not affected otherwise, not even by a stopped clock |
| `EmuRuns.EveryRun` | firmware/libcommon/source/card_emu.c:219-262 | in every run: what was transmitted since the last reset, followed by what is pending, is exactly what was accepted since the last reset |
| `EmuRuns.WaitingNeverExpires` | firmware/libcommon/source/card_emu.c:1249-1286 | in every run, while the card waits in WAIT_PB or WAIT_TX a round of the counter never expires the waiting time |
| `EmuRuns.InitHolds` | firmware/libcommon/source/card_emu.c:1331-1369 | the initial state satisfies the invariant for any line levels |
| `EmuPts.PtsEcho` | firmware/libcommon/source/card_emu.c:578-735 | a request with correct PCK and any subset of PTS1 to PTS3, with timer rounds, transmitter and host messages at any time: after the transmitter got ready n times exactly the first n bytes of the request are sent back, and nothing else; it is reported once; rate and waiting time change only after PCK; then a TPDU is expected |
| `EmuPts.PtsRefused` | firmware/libcommon/source/card_emu.c:640-647 | a wrong PCK, with anything but line events in between, sends and reports nothing and changes no rate |
| `EmuPts.SerializeHolds` | firmware/libcommon/source/card_emu.c:350-381 | the used slots are the message; PCK equals the computed checksum iff all bytes XOR to zero |
| `EmuAtr.AtrSent` | firmware/libcommon/source/card_emu.c:506-557 | with timer rounds and host messages at any time: after the transmitter got ready n times exactly the first n bytes of the ATR are out, and nothing else; once more, and the waiting integer of the ATR is in force |
| `EmuAtr.BootRuns` | firmware/libcommon/source/card_emu.c:1274-1286 | from the release of reset on, whatever timer, transmitter and host do, the card waits, or sends its ATR, or has sent it |
| `EmuAtr.SearchFindsWi` | firmware/libcommon/source/card_emu.c:523-551 | on every well-formed ATR the direct search agrees with its structure: TC2 if present and not zero, else 10 |
| `EmuAtr.DefaultAtr` | firmware/libcommon/source/card_emu.c:1288-1304 | the built-in ATR is well-formed and its TCK is right, so the theorems about ATRs apply to it |
| `EmuAtr.SetAtrSent` | firmware/libcommon/source/card_emu.c:1226-1246 | an ATR set while one is sent: from then on its first bytes are sent, one for each time the transmitter gets ready |
| `EmuAtr.NewAtr` | firmware/libcommon/source/card_emu.c:1226-1246 | an ATR set before activation is the one the card sends, or the old one if it is longer than 33 bytes, whichever line activates it |
| `EmuNull.NullBytesOnTime` | firmware/libcommon/source/card_emu.c:1249-1271 | while the card waits for the host, whatever the rounds of the counter: one NULL byte for each WT - WT/2 etu that have passed, and nothing else |
| `HostSpec.ChunkIndependence` | host/lib/apdu_dispatch.c:98-213 | for every cutting of the command bytes: more is asked for until P3 bytes are there; then the context holds exactly those |
| `HostSpec.ChunksJoined` | host/lib/apdu_dispatch.c:153-171 | appending pieces is appending their concatenation, cut off at the announced length |
| `HostSpec.SilentAfterFirst` | host/lib/apdu_dispatch.c:134-147 | after the first part of an APDU with data, nothing is sent to the emulator iff it has more than P3 data bytes, counted modulo 256 |
| `HostSpec.SilentAfterMore` | host/lib/apdu_dispatch.c:153-200 | too many bytes being there, further parts are answered iff they fill the 256 bytes of the buffer, where the counter wraps |
| `HostSpec.UnknownIff` | host/lib/apdu_dispatch.c:147-152 | the program ends iff the profile does not know the case and the command is no repeated one |
| `Host.ApduContext.SegmentIn2` | host/lib/apdu_dispatch.c:98-213 | both contexts and the action, header or continuation of any length, counters modulo 256, with the kept kind after SW1 = 6C |
| `Host.ApduContext.AppendDc` | host/lib/apdu_dispatch.c:153-171 | no more than the announced bytes are taken |
| `Host.CardSide.ProcessDoRxDa` | host/src/simtrace2-cardem-pcsc.c:160-215 | which command APDU is handed to the reader in which step, header and all announced data; which messages answer the step, none if the reader fails; and the status word kept for the next step |
| `Host.CardSide.Transceive` | host/src/simtrace2-cardem-pcsc.c:177-211 | header and announced data go to the reader, once; data and status word come back as messages, or nothing if the reader fails |
| `EndToEnd.EveryCommand` | host/src/simtrace2-cardem-pcsc.c:160-215 | every T=0 command, in every order of reader, transmitter, timer, host and delivery events without a half time while a message is in flight: the sniffer reports exactly header, data and status word with flags 0, once, iff the command is over; then everybody waits and nothing is on its way; the emulator has told the host header and data, flagged as such, and the card has been asked once, with exactly the bytes the reader sent |
| `EndToEnd.EveryCommandIff` | firmware/libcommon/source/card_emu.c:1249-1271 | exactly: emulator, host and sniffer stay together through a run iff half time is never reached while a message is in flight |
| `EndToEnd.StepIff` | firmware/libcommon/source/card_emu.c:1249-1271 | the same for a single event: only a timer round that tells half time in flight breaks the phase |
| `EndToEnd.DisturbanceReached` | firmware/libcommon/source/card_emu.c:1249-1271 | from the start of every command there is a run that reaches such a half time, after which the parts are in no common phase |
| `EndToEnd.DisturbanceExists` | firmware/libcommon/source/card_emu.c:1249-1271 | such a run for a concrete emulator and a command with two data bytes |
| `EndToEnd.EverySession` | host/src/simtrace2-cardem-pcsc.c:160-215 | any number of commands, each starting when the one before is over: one report and one question to the card for each, in order |
| `EndToEnd.AskedKeeps` | host/src/simtrace2-cardem-pcsc.c:184-195 | at any time the card has been asked nothing, or, once the command is complete, exactly it |
| `EndToEnd.ToldKeeps` | firmware/libcommon/source/card_emu.c:757-940 | at any time, half times in flight included, the host has been told the header iff it is complete, and the data iff they are |
| `Disturbed.ReportRightIff` | firmware/libcommon/source/card_emu.c:1249-1271 | for every run that ends a command, half times at any point: the first report of the sniffer is the right one iff every half time reached while a message was in flight came when all bytes still to come of it were 0x60 |
| `Disturbed.SnifferUnaffectedIff` | firmware/libcommon/source/card_emu.c:1249-1271 | and it is the only one, with the sniffer waiting for the next command, iff moreover none came within the status word |
| `Disturbed.NobodyElseDisturbed` | firmware/libcommon/source/card_emu.c:1249-1271 | whatever half times were reached: at the end of the command emulator and host wait, nothing is on its way, and the card has been asked once |
| `Disturbed.CoreStep` | firmware/libcommon/source/card_emu.c:757-1094 | each event, half times in flight included, keeps reader, emulator, host and card in the same phase |
| `Disturbed.LostStays` | firmware/libcommon/source/sniffer.c:713-829 | a sniffer with a wrong byte in its packet, or ahead of a data byte that differs, never gets to the right report |
| `Disturbed.FollowsStep` | firmware/libcommon/source/sniffer.c:713-829 | NULL bytes taken for data that are no different, or ignored after them, leave the sniffer with the others |
| `EndToEnd.RepeatedAfter6C` | host/lib/apdu_dispatch.c:113-125 | a command with the same CLA, INS, P1, P2 after SW1 = 6C keeps case 1 to 3, whatever the profile says of the new P3; any other is of the case the profile says |
| `EndToEnd.NoDeadEnd` | firmware/libcommon/source/card_emu.c:757-1094 | from every reachable point of a command some events complete it |
| `EndToEnd.AnyStep` | firmware/libcommon/source/card_emu.c:757-1094 | each event keeps emulator, host and sniffer in the same phase of the command |
| `EndToEnd.TxKeeps` | host/lib/simtrace2_api.c:179-240 | a byte of the host messages moves both machines to the same next phase |
| `EndToEnd.TimerKeeps` | firmware/libcommon/source/card_emu.c:1249-1271 | every timer round but a half time in flight keeps the phase, NULL bytes before messages included |
| `EndToEnd.NullInFlight` | firmware/libcommon/source/card_emu.c:1249-1271 | a NULL byte in the middle of a message lands in the packet of the sniffer, or is reported as SW2 |
| `EndToEnd.HostOfHeader` | host/src/simtrace2-cardem-pcsc.c:177-214 | the answer to a header: data and status word, status word only, or the request for the command data |
| `CrossRates.AtrAgrees` | firmware/libcommon/source/card_emu.c:506-557 | after any well-formed ATR, sent with timer rounds and host messages at any time, emulator and sniffer have the same WI, waiting time and ratio |
| `CrossRates.Pps1Agrees` | firmware/libcommon/source/card_emu.c:424-432 | after any exchange with PPS1, from any common rates, the ratios agree, and the waiting times agree iff the index of D is 1 to 9, or 0 while the sniffer is at D = 1 |
| `CrossRates.ManyChanges` | firmware/libcommon/source/card_emu.c:674-735 | any number of exchanges with PPS1 and D of index 1 to 9: the same rates on both sides, those of the last one |
| `CrossRates.Session` | firmware/libcommon/source/card_emu.c:674-735 | from the start of the ATR: any well-formed ATR, then any exchange with PPS1 and D index 1 to 9, in any order with timer and host events, leaves both with WI*960*D and the same ratio, F/D in numbers where it fits the UART |
| `CrossRates.FromReset` | firmware/libcommon/source/card_emu.c:1187-1223 | the same from the moment both see the reset line released, the sniffer possibly just switched on |
| `CrossRates.NoPps1` | firmware/libcommon/source/sniffer.c:674-691 | without PPS1, from any common rates, both agree iff PPS0, read as Fi/Di, leads to the ratio the emulator is at, and its D is 1 |
| `CrossRates.NoPps1AtDefault` | firmware/libcommon/source/sniffer.c:674-691 | at the default rate they agree iff PPS0 so read leads to 372 as well |
| `CrossRates.NoPps1Differs` | firmware/libcommon/source/sniffer.c:630-631 | PPS0 = 0x02 is a valid request for which the sniffer ends at ratio 186 |
| `CrossRates.EmulatorStarts` | firmware/libcommon/source/card_emu.c:1187-1223 | after the release of reset and two etu the ATR starts at the default rate |
| `CrossRates.SnifferStarts` | firmware/libcommon/source/sniffer.c:299-306 | after a reset the sniffer waits for an ATR at the default rate |
| `Isqrt.IntegerSquareRoot` | firmware/libosmocore/source/utils.c:591-626 | r*r <= x < (r+1)*(r+1) for every 32-bit x, r below 2^16 |
| `Isqrt.InitialPower` | firmware/libosmocore/source/utils.c:599-617 | the initial power of two is at least the root |
| `Isqrt.Iterate` | firmware/libosmocore/source/utils.c:617-624 | the iterates strictly decrease until they reach the root |
| `Isqrt.NextIterate` | firmware/libosmocore/source/utils.c:618-623 | no sum overflows, and no iterate falls below the root |
| `UsbIn.Endpoint.Transfer` | firmware/atmel_softpack_libraries/libchip_sam3s/source/USBD_HAL.c:900-947 | with one or two banks, any length and packet size: exactly as many packets as it takes, concatenating to the data; the callback is told all bytes were sent |
| `UsbIn.Endpoint.Write` | firmware/atmel_softpack_libraries/libchip_sam3s/source/USBD_HAL.c:900-947 | the first packet is released, with two banks the next is prepared; refused unless idle |
| `UsbIn.Endpoint.OnTxComplete` | firmware/atmel_softpack_libraries/libchip_sam3s/source/USBD_HAL.c:727-766 | one packet more, or after the last one the end of the transfer |
| `UsbIn.Endpoint.WritePayload` | firmware/atmel_softpack_libraries/libchip_sam3s/source/USBD_HAL.c:548-572 | at most a packet of the remaining data goes to the FIFO |
| `UsbIn.Endpoint.FinishedIff` | firmware/atmel_softpack_libraries/libchip_sam3s/source/USBD_HAL.c:628-646 | the test for the end holds exactly after the last packet |
| `UsbIn.Endpoint.EndOfTransfer` | firmware/atmel_softpack_libraries/libchip_sam3s/source/USBD_HAL.c:365-399 | idle again, callback with the counters, in both directions; nothing without a transfer |
| `UsbIn.Endpoint.Accounted` | firmware/atmel_softpack_libraries/libchip_sam3s/source/USBD_HAL.c:727-766 | transferred + buffered + remaining is the length at every step, and packets and FIFO are the data so far |
| `UsbIn.CountFormula` | firmware/atmel_softpack_libraries/libchip_sam3s/source/USBD_HAL.c:628-646 | max(1, ceil(T/S)) packets, floor(T/S)+1 on a control endpoint |
| `UsbIn.TransferIsData` | firmware/atmel_softpack_libraries/libchip_sam3s/source/USBD_HAL.c:727-766 | the packets concatenate to the data; the last packet of a control transfer is not full |
| `Flash.Controller.Write` | firmware/atmel_softpack_libraries/libchip_sam3s/source/flashd.c:209-275 | the buffer is spliced into the flash at the address: its bytes are there, and every byte outside keeps its value |
| `Flash.Controller.WritePage` | firmware/atmel_softpack_libraries/libchip_sam3s/source/flashd.c:233-266 | a page rewritten with what surrounds the new bytes |
| `Flash.Controller.TranslateAddress` | firmware/atmel_softpack_libraries/libchip_sam3s/source/efc.c:153-182 | page and offset make up the address |
| `Flash.PageRewritten` | firmware/atmel_softpack_libraries/libchip_sam3s/source/flashd.c:237-266 | rewriting a page with a piece spliced in is splicing the piece into the memory |
| `Deframe.AnyCutting` | host/src/simtrace2-sniff.c:232-271 | for every cutting of the stream: the same messages, the same unparsed rest |
| `Deframe.AnyCuttingPrints` | host/src/simtrace2-sniff.c:232-271 | for every cutting of a stream of messages with their fields inside: exactly what each message says is printed |
| `SniffMessages.StreamPrinted` | host/src/simtrace2-sniff.c:187-270 | any messages, encoded as the firmware sends them and cut into transfers in any way: exactly what was put into each is printed, in order |
| `SniffMessages.PrintedIs` | host/src/simtrace2-sniff.c:90-228 | a message of any type, whatever follows it: it is consumed whole, and its flags and data, its ratio, or nothing is printed |
| `SniffMessages.TransferSplit` | firmware/libcommon/source/mode_cardemu.c:872-918 | messages with this header put into one transfer are dispatched one by one |
| `Deframe.StableIff` | host/src/simtrace2-sniff.c:187-228 | what is printed for a message is independent of what follows it iff its fields are inside it |
| `Deframe.OutputsOfFrames` | host/src/simtrace2-sniff.c:187-228 | of messages with their fields inside, exactly what each one says is printed |
| `Deframe.CuttingShows` | host/src/simtrace2-sniff.c:207-228 | a message without its field, for which the output depends on the cutting |
| `Deframe.Receiver.Receive` | host/src/simtrace2-sniff.c:239-270 | a transfer into the buffer, with shifting in place: the messages of old rest and transfer, the new rest; ends iff the buffer fills |
| `Deframe.Receiver.ReceiveAll` | host/src/simtrace2-sniff.c:239-270 | any number of transfers through the buffer, as long as it is not filled |
| `Deframe.Receiver.ProcessUsbMsg` | host/src/simtrace2-sniff.c:187-228 | bytes consumed and what is printed |
| `Deframe.SplitJoined` | firmware/libcommon/source/mode_cardemu.c:872-918 | messages put into one USB transfer are dispatched one by one, unchanged, whatever was in the buffer before |
| `Deframe.DispatchReceivedMsg` | firmware/libcommon/source/mode_cardemu.c:872-918 | fast and slow path dispatch the same messages, for any lengths with which the loop ends |
| `Deframe.EndsIff` | firmware/libcommon/source/mode_cardemu.c:872-918 | the loop ends whatever was in the buffer before iff every message but the last, which may be cut off, is there with a length above 0; of a header that is not, only the high byte of the length may be missing, behind a low byte of at least 7 |
| `Deframe.IndependentIff` | firmware/libcommon/source/mode_cardemu.c:872-918 | and the dispatched messages are the same whatever was there before iff moreover the transfer is not empty and such a low byte is above 7 |

## Left out

- Registers, pins, interrupt controller, LEDs and logging: a byte handed to the UART is an entry of a log, the reload
  register of the counter and the ratio register are fields, the enabled interrupts are a mode.
- Preemption inside a call of the main loop, such as an interrupt between detaching the message in flight and draining
  the queue in `card_handle_reset`; calls are atomic.
- Transmit and timeout served in one interrupt, where the transmit path reloads the counter before the old timeout is
  handled: they are separate steps.
- The clock: `now` is a parameter, time is unbounded, wrap-around of the tick counter is not modelled.
- Failing allocations and the dropping of messages from full USB queues; every report reaches the host.
- The state of the line buffer of the sniffer (`rbuf16`), parity, framing and overrun flags, and change notifications.
- `rb_last`, `rb_prev`, `rb_replace_node`: mirror images, or relinking without rebalancing.
- The order of writes in the two-child case of `rb_erase`: the link from above is written last in the model, first in
  the code; the cells are independent.
- `osmo_timer_remaining`, `osmo_timer_pending`: one comparison each.
- A callback that calls `osmo_timers_update` itself; callbacks make any other calls.
- The kind of an APDU (`osim_determine_apdu_case`) and the card in the reader: given from outside.
- The maximum values of F and D from TA1, status and configuration messages of the emulator, card-insert handling.
- Data messages without any byte, which the firmware would read past the end of: not sent by the host library.
- `le` of the APDU context, which nothing reads.
- Host.ApduContext.SegmentIn2: appending past the 256 bytes of the buffer, which the code does not prevent once a first
  part was too long, is excluded; the firmware sends headers alone and never more than P3 bytes.
- Multi-buffer USB transfers, lock ranges, the bootloader-assisted flash commands; controller errors in
  `FLASHD_Write`.
- Deframe.DispatchReceivedMsg: transfers with which the loop of the code never ends, those with a length of zero before
  the end, are excluded.
- `UDP_Read` and receiving transfers, of which only the end is modelled.
- UsbIn.Endpoint.Transfer: the loop over completion interrupts is the hardware's.
