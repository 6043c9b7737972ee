# Connectivity firmware: verified models

This project models seven parts of the interface MCU firmware, the modem shell and the battery
sample, and proves what they are for:

* **Ping checksum** (`Checksum.dfy`, `Ping.dfy`): the 32-bit little-endian Internet checksum against
  sections 1 and 2 of RFC 1071, and the five-part ICMPv6 checksum against section 8.1 of RFC 2460 and
  section 2.3 of RFC 4443.
* **UART bridge** (`RingBuffer.dfy`, `UartBridge.dfy`, `BridgeModel.dfy`): the interrupt handlers over
  two circular buffers, and every run of them with suspends and resumes at any moment.
* **PPP control** (`PppControl.dfy`, `PppModel.dfy`): the controller and the two data threads,
  interleaved at every access to a shared variable.
* **AT command mode** (`AtEditor.dfy`, `AtPipeline.dfy`, `AtCmdMode.dfy`): the byte-driven line editor,
  its escape sequence and the pipelining of commands.
* **Battery sample** (`Battery.dfy`, `BatteryModel.dfy`): three threads under one semaphore.
* **Link bookkeeping** (`Decimal.dfy`, `Plmn.dfy`, `Cgact.dfy`, `PdnList.dfy`): the PLMN parser, the
  activation query and the list of connected contexts.
* **Periodic GNSS** (`Gnss.dfy`, `GnssModel.dfy`): the self-rescheduling start work and its timeouts.

`Wrappers.dfy`, `Bytes.dfy` and `CStrings.dfy` hold the optional values, bytes and NUL-terminated strings
they share.

Files named after a component hold its code in the source's own form: classes whose methods update
buffers, flags and counters. Files ending in `Model` hold the same steps as functions on values, and
what every run of them keeps; each method is proved to be the step it implements. Foreign calls
(modem, sockets, drivers, clocks) are parameters with arbitrary results.

## Where a promise does not hold

Six properties fail in corner cases. Each is proved with its exact condition and with concrete inputs.

* A valid ICMPv6 reply whose checksum field is 0x0000 is refused: the sender writes and the receiver
  expects 0xFFFF instead (`AcceptedIffRfc4443`, `ZeroChecksumRefused`).
* A packet of 40 to 43 bytes has no whole ICMPv6 checksum; it can still be accepted on what the receive
  buffer held before. At every other length only valid packets are accepted (`OnlyValidAcceptedIff`,
  `ShortReplyAccepted`).
* `gnss_stop` cancels the timeout before the start, and the start handler schedules after a modem call
  that can block. A handler that runs between the two cancels, or a whole `gnss_stop` inside the call,
  leaves a timeout behind that cuts the next search short; a `gnss_start` inside the call starts a second
  search under the timeout of the first (`HandlerDuringStop`, `StopDuringHandler`, `StaleTimeoutCutsShort`,
  `StartDuringHandler`). Leaving the periodic mode cancels nothing, and `gnss_stop` does not either in the
  other modes: a search that `gnss_start` then starts directly is ended by the timeout of the periodic one
  (`ModeChangeKeepsTimeout`). The exact condition is `TimeoutBeforeStartIff`; users whose starts and stops
  keep apart from the start handler, and who start directly only when no timeout is left, meet it.
* A fix that arrives when the next start is already queued or running has its stop work end that next
  search; so does stop work that is still queued when a search is started directly, which `gnss_stop` does
  not take back (`StopBeforeStartIff`, `LateFixStopsNextSearch`, `StopWorkOutlivesStop`,
  `StopWorkEndsDirectSearch`).
* A modem call that fails while the battery sample holds its semaphore leaves it taken for good
  (`SemaphoreIff`, `FailureLosesToken`, `FrozenAfterFailure`).
* The PLMN parser accepts more than PLMNs: a sign in place of an MNC digit, a seventh character as part of
  the MNC, a trailing comma. `AcceptedIff` says which texts exactly (`UnexpectedTexts`).

## Model

| member | source | states |
|---|---|---|
| Checksum.CheckIcs | applications/modem_shell/src/ping/icmp_ping.c:78-119 | for every buffer and length, odd and negative ones included, the result is byte for byte the RFC 1071 checksum of the bytes read |
| Checksum.SumWords | applications/modem_shell/src/ping/icmp_ping.c:84-91 | the 32-bit end-around-carry sum stands for the total of the 16-bit words modulo 65535, zero only for zero |
| Checksum.Fold | applications/modem_shell/src/ping/icmp_ping.c:114-116 | the fold loop ends, with a 16-bit value for the same total |
| Checksum.SwapTotals | applications/modem_shell/src/ping/icmp_ping.c:84-112 | adding words in the other byte order multiplies the total by 256 modulo 65535 |
| Checksum.FoldedIsRfc | applications/modem_shell/src/ping/icmp_ping.c:114-118 | any folded value for the little-endian total is the byte swap of the big-endian one's complement sum |
| Checksum.IcsZeroIff | applications/modem_shell/src/ping/icmp_ping.c:440-449 | check_ics over a range with its checksum is zero exactly when the RFC 1071 sum is all ones |
| Checksum.CalcIcs | applications/modem_shell/src/ping/icmp_ping.c:123-132 | only the two checksum bytes change, to the checksum of the zeroed range; at an even position the range becomes valid |
| Checksum.ChecksumCloses | applications/modem_shell/src/ping/icmp_ping.c:123-132 | storing the checksum of the zeroed range at any even position makes any range valid, all-zero ones included |
| Checksum.CalcThenCheck | applications/modem_shell/src/ping/icmp_ping.c:123-132 | calc_ics followed by check_ics gives 0 |
| Ping.Hcs6 | applications/modem_shell/src/ping/icmp_ping.c:255-279 | five complemented partial sums fold to the RFC checksum of pseudo-header and message, with 0xFFFF for zero |
| Ping.FoldedParts | applications/modem_shell/src/ping/icmp_ping.c:258-276 | complements of partial sums add up to the complement of the whole, whatever the parts |
| Ping.ExpectedIffValid | applications/modem_shell/src/ping/icmp_ping.c:464-473 | comparing with the computed word accepts exactly the valid messages with a non-zero field |
| Ping.CheckReply4 | applications/modem_shell/src/ping/icmp_ping.c:440-499 | an IPv4 reply is accepted exactly when its message is valid and sequence number and total length match |
| Ping.CheckReply6 | applications/modem_shell/src/ping/icmp_ping.c:450-499 | an IPv6 reply is accepted exactly when the covered range is valid with a non-zero field and sequence number and payload length match |
| Ping.AcceptedIffRfc4443 | applications/modem_shell/src/ping/icmp_ping.c:450-499 | from 44 bytes on, acceptance is RFC 4443 validity with a non-zero field, right length and sequence number |
| Ping.ZeroChecksumRefused | applications/modem_shell/src/ping/icmp_ping.c:464-473 | a valid ICMPv6 packet with checksum 0x0000 that is refused |
| Ping.OnlyValidAcceptedIff | applications/modem_shell/src/ping/icmp_ping.c:413-499 | whatever the buffer held before, only packets valid under RFC 4443 are accepted, for exactly the lengths below 40 and from 44 up |
| Ping.ShortReplyAccepted | applications/modem_shell/src/ping/icmp_ping.c:413-416 | at each of the lengths 40 to 43 an ICMPv6 packet without a whole message that is accepted |
| Ping.SetIp | applications/modem_shell/src/ping/icmp_ping.c:69-75 | four bytes that read back as the address; everything else unchanged |
| Ping.Pinger.BuildEchoRequest4 | applications/modem_shell/src/ping/icmp_ping.c:156-208 | every byte of the packet, addresses, lengths, types and payload included, with valid header and message checksums, and the next sequence number |
| Ping.Pinger.BuildEchoRequest6 | applications/modem_shell/src/ping/icmp_ping.c:211-279 | every byte of the packet, valid under RFC 4443 and accepted by the reply check itself |
| UartBridge.FillFromDevice | applications/ifmcu_firmware/src/ifmcu_uart_bridge.c:120-137 | what a claimed stretch receives is appended to the queue, across wrap-around, short reads and errors |
| UartBridge.DrainToDevice | applications/ifmcu_firmware/src/ifmcu_uart_bridge.c:159-177 | what the device accepts is exactly what leaves the front of the queue |
| UartBridge.Bridge.HandleRx | applications/ifmcu_firmware/src/ifmcu_uart_bridge.c:98-142 | the receive handler is the Rx step of the bridge; it switches its interrupt off exactly when less than a third of the ring, rounded down, is free, and the peer's on exactly when it read |
| UartBridge.Bridge.HandleTx | applications/ifmcu_firmware/src/ifmcu_uart_bridge.c:144-188 | the transmit handler is the Tx step of the bridge; it switches its interrupt off exactly when there is nothing left to send, and a paused peer on exactly when more than a third is free after a write |
| UartBridge.Bridge.SuspendAction | applications/ifmcu_firmware/src/ifmcu_uart_bridge.c:210-215 | suspend switches both receive interrupts off and nothing else |
| UartBridge.Bridge.ResumeAction | applications/ifmcu_firmware/src/ifmcu_uart_bridge.c:216-223 | resume switches both on and leaves paused flags as they are |
| UartBridge.Bridge.constructor | applications/ifmcu_firmware/src/ifmcu_uart_bridge.c:231-239 | the bridge starts inactive with empty queues |
| BridgeModel.Conservation | applications/ifmcu_firmware/src/ifmcu_uart_bridge.c:120-177 | in every run the bytes taken from a device are those given to the other followed by the queue |
| BridgeModel.FlowControl | applications/ifmcu_firmware/src/ifmcu_uart_bridge.c:113-118 | in every run a stopped device of an active bridge has a non-empty queue, little space and a peer with its transmit interrupt on |
| BridgeModel.InvStep | applications/ifmcu_firmware/src/ifmcu_uart_bridge.c:98-229 | every handler, suspend and resume keeps the flow control and conservation invariant |
| BridgeModel.InterruptsIff | applications/ifmcu_firmware/src/ifmcu_uart_bridge.c:98-229 | for every step and device, exactly when the receive and transmit interrupts and the paused flag are on afterwards |
| BridgeModel.TrafficIff | applications/ifmcu_firmware/src/ifmcu_uart_bridge.c:120-177 | for every step and device, exactly which bytes are taken and given |
| BridgeModel.FullBranchUnreachableIff | applications/ifmcu_firmware/src/ifmcu_uart_bridge.c:113-124 | the "ring_buf full" branch is out of reach after the threshold test for exactly the sizes from 3 up |
| BridgeModel.NeededStep | applications/ifmcu_firmware/src/ifmcu_uart_bridge.c:181-187 | in any step, suspend and resume included, a stopped device is switched on or the bytes still needed fall by exactly what its peer accepts, less what the device takes meanwhile |
| BridgeModel.ResumesWithin | applications/ifmcu_firmware/src/ifmcu_uart_bridge.c:181-187 | in every run from any stopped state at most threshold + 1 accepted bytes, and as many as the device takes with its interrupt off, switch the receive interrupt on again |
| BridgeModel.GatedRefillsNothing | applications/ifmcu_firmware/src/ifmcu_uart_bridge.c:190-202 | a driver that runs the receive handler only while its interrupt is on takes none, which leaves threshold + 1 |
| BridgeModel.ProgressPossible | applications/ifmcu_firmware/src/ifmcu_uart_bridge.c:159-187 | the peer of a stopped device can always take a step that lowers the measure or restarts it |
| PppModel.NoLostWakeup | applications/modem_shell/src/ppp/ppp_ctrl.c:412-469 | in every interleaving, while ppp_up holds there is a token for every thread committed to waiting |
| PppModel.InvStep | applications/modem_shell/src/ppp/ppp_ctrl.c:412-509 | every single access of the controller and both threads keeps the per-location invariant |
| PppModel.ReachesData | applications/modem_shell/src/ppp/ppp_mdm_data_rcv.c:55-66 | after a completed start a data thread reaches its data within three steps of its own, whatever the other does |
| PppModel.UpIffOpen | applications/modem_shell/src/ppp/ppp_ctrl.c:473-509 | between operations ppp_up holds exactly when both descriptors are open, else both are NONE |
| PppModel.MtuAssertsHold | applications/modem_shell/src/ppp/ppp_mdm_data_snd.c:70 | the MTU assertions of the data threads hold in every run |
| PppModel.MtuAssertsHoldIff | applications/modem_shell/src/ppp/ppp_ctrl.c:303 | no run reaches an MTU assertion that fails, exactly when the configured MTU is at most 1500; a context without a known MTU leads a thread there otherwise |
| PppControl.Ppp.Start | applications/modem_shell/src/ppp/ppp_ctrl.c:473-498 | start is the controller's steps run alone; it ends up and open exactly when it was or every call succeeds, otherwise down with both descriptors NONE; a reported link MTU is used up to 1500 |
| PppControl.Ppp.CreateSockets | applications/modem_shell/src/ppp/ppp_ctrl.c:328-432 | both descriptors open and the semaphore full, or an error |
| PppControl.Ppp.CloseSockets | applications/modem_shell/src/ppp/ppp_ctrl.c:435-469 | the semaphore is empty and both descriptors NONE |
| PppControl.Ppp.Stop | applications/modem_shell/src/ppp/ppp_ctrl.c:502-509 | stop is the controller's steps run alone |
| PppControl.Ppp.Restart | applications/modem_shell/src/ppp/ppp_ctrl.c:165-174 | restart is a stop and a start: up on new descriptors with a full semaphore exactly when every call succeeds, otherwise down and closed |
| PppModel.OperationsAlone | applications/modem_shell/src/ppp/ppp_ctrl.c:412-509 | start, stop and restart from where they begin: up exactly when already up or every call succeeds, down and closed, up exactly when every call succeeds |
| AtCmdMode.CommandMode.RxHandler | applications/modem_shell/src/at/at_cmd_mode.c:122-250 | one byte is one step of the reference editor; the quote flag is the parity of pending quotes; a dispatched line has the modem run exactly its commands, anything else none |
| AtCmdMode.CommandMode.Erase | applications/modem_shell/src/at/at_cmd_mode.c:130-148 | the last pending byte goes and the quote flag follows |
| AtCmdMode.CommandMode.Append | applications/modem_shell/src/at/at_cmd_mode.c:177-192 | the byte is appended unless the buffer is full |
| AtCmdMode.CommandMode.EndsLine | applications/modem_shell/src/at/at_cmd_mode.c:151-175 | a byte ends the line exactly in its terminator mode, outside quotes |
| AtCmdMode.CommandMode.CutLine | applications/modem_shell/src/at/at_cmd_mode.c:211-240 | the slots hold exactly the first ten non-empty segments of at most 1023 bytes |
| AtCmdMode.CommandMode.Worker | applications/modem_shell/src/at/at_cmd_mode.c:98-120 | the slots are sent in order and all slot lengths and the count are zero afterwards |
| AtCmdMode.CommandMode.CheckEscape | applications/modem_shell/src/at/at_cmd_mode.c:264-274 | the escape test on one chunk and the last byte before it |
| AtCmdMode.CommandMode.BypassCb | applications/modem_shell/src/at/at_cmd_mode.c:257-298 | one chunk is one step of the reference session |
| AtPipeline.StrtokR | applications/modem_shell/src/at/at_cmd_mode.c:218-238 | strtok_r cuts off exactly the next segment and touches one byte |
| AtPipeline.JoinRoundTrip | applications/modem_shell/src/at/at_cmd_mode.c:211-240 | non-empty segments joined by '\|' are split back into themselves |
| AtPipeline.PlainLinesAreCommands | applications/modem_shell/src/at/at_cmd_mode.c:98-120 | lines without '\|' are run one by one as they are, cut at a NUL |
| AtPipeline.SegmentsAreCommands | applications/modem_shell/src/at/at_cmd_mode.c:208-240 | two or more segments of 1 to 1023 bytes joined by '\|' are run exactly as they are, the first ten of them |
| AtPipeline.UnfitDropped | applications/modem_shell/src/at/at_cmd_mode.c:218-238 | an empty or longer field among at most ten such segments is left out and changes nothing else |
| AtPipeline.UnfitLineSent | applications/modem_shell/src/at/at_cmd_mode.c:117-118 | when nothing qualifies, what the buffer still holds is run: the bars, or the first segment with the bars before it |
| AtEditor.LinesBalanced | applications/modem_shell/src/at/at_cmd_mode.c:151-192 | over every stream, dispatched lines have closed quotes and fit the buffer |
| AtEditor.EditMeans | applications/modem_shell/src/at/at_cmd_mode.c:122-206 | which bytes erase, which end a line in which mode outside an odd number of quotes, and that any other is appended unless the buffer is full |
| AtEditor.StreamIsLinesIff | applications/modem_shell/src/at/at_cmd_mode.c:151-206 | a stream without erasures is exactly its lines, terminators and pending text, if and only if nothing overflowed |
| AtEditor.ChunkingIrrelevant | applications/modem_shell/src/at/at_cmd_mode.c:257-298 | however the input is cut, the mode is on exactly while the whole input has no escape sequence, and the editor has seen the whole input |
| AtEditor.ExitsOnFirstEscape | applications/modem_shell/src/at/at_cmd_mode.c:264-289 | the mode is left on the first chunk that completes an escape, with nothing of that chunk edited |
| BatteryModel.UpdateKeeps | samples/modem_battery/src/main.c:43-83 | every entry its state may make keeps the interval tied to the state and the history justified |
| Battery.Sample.ReadVoltage | samples/modem_battery/src/main.c:357-365 | a voltage at or above the low level that main has read justifies what it goes on to do, until a warning or low battery comes in |
| Battery.Sample.MainIteration | samples/modem_battery/src/main.c:367-421 | the loop body keeps the invariant, leaves each state exactly under its condition and for its successor, and gives the semaphore back unless a modem call failed |
| Battery.Sample.LowLevelStateUpdate | samples/modem_battery/src/main.c:85-102 | the low level handler keeps the invariant, leaves only NORMAL_HIGH_BAT, and keeps the semaphore when the power-off fails |
| Battery.Sample.PofwarnStateUpdate | samples/modem_battery/src/main.c:104-109 | the power-off warning handler keeps the invariant and gives the semaphore back |
| BatteryModel.IntervalFixed | samples/modem_battery/src/main.c:43-83 | in every run the refresh interval is a fixed function of the state |
| BatteryModel.NormalHighBatEntries | samples/modem_battery/src/main.c:228-335 | every entry to NORMAL_HIGH_BAT comes from INIT, or from RX_ONLY_HIGH_BAT right after an estimate of at least 7, and after a good reading with no warning or low battery since |
| BatteryModel.Recovers | samples/modem_battery/src/main.c:357-424 | with a good battery, estimate and modem three turns of the main loop lead from every state to NORMAL_HIGH_BAT, and it stays there |
| BatteryModel.SemaphoreIff | samples/modem_battery/src/main.c:85-109 | tokens plus holders is 1 exactly in the runs where no modem call fails under the semaphore |
| BatteryModel.FailureLosesToken | samples/modem_battery/src/main.c:367-375 | a run in which the first failing call leaves no token for any thread |
| BatteryModel.FrozenAfterFailure | samples/modem_battery/src/main.c:91-96 | after such a failure the state never changes again |
| BatteryModel.InvStep | samples/modem_battery/src/main.c:357-424 | every step of the three threads keeps the invariant on history, state, interval and semaphore |
| Decimal.StringToIntIff | applications/modem_shell/src/utils/str_utils.c:143-160 | mosh_string_to_int in base 10 reads exactly white space, at most one sign and digits to the end, in the 32-bit range, as the value they denote |
| Decimal.PlainDigits | applications/modem_shell/src/utils/str_utils.c:143-160 | it reads a plain digit string in range as its value |
| Plmn.StringToPlmnList | applications/modem_shell/src/link/link_shell.c:905-981 | the in-place parser ends on every string with the list, or the error code and a zero count, of the reference parse |
| Plmn.RoundTrip | applications/modem_shell/src/link/link_shell.c:931-980 | every comma-joined list of non-zero PLMNs reads back as itself up to the maximum and is refused above it |
| Plmn.AcceptedIff | applications/modem_shell/src/link/link_shell.c:932-975 | for every text: it is accepted exactly when each of its comma-separated items can be read and they are within the limit, as the PLMNs they read as, none with a zero code; too many are EINVAL, unreadable ones EBADMSG |
| Plmn.UnexpectedTexts | applications/modem_shell/src/link/link_shell.c:944-975 | "310-41" reads as MNC -41, "1234567" as MNC 4567, and "31041," as the one PLMN |
| Cgact.GetPdnActivationStatus | applications/modem_shell/src/link/link.c:132-158 | each entry says whether the search for its pattern succeeds; a failed query leaves the array cleared |
| Cgact.SearchIffReported | applications/modem_shell/src/link/link.c:146-155 | the substring search succeeds exactly when the context is one of the lines with state 1 |
| Cgact.AnswerText | applications/modem_shell/src/link/link.c:146-150 | the text of an answer and of the patterns, at one and two digits |
| PdnList.PdnShell.Add | applications/modem_shell/src/link/link_shell_pdn.c:144-170 | a new CID goes to its place, a known one stays as it is, and no other entry is touched |
| PdnList.PdnShell.Find | applications/modem_shell/src/link/link_shell_pdn.c:172-182 | the first entry with the CID, or none |
| PdnList.PdnShell.RemoveCid | applications/modem_shell/src/link/link_shell_pdn.c:184-193 | the entry with the CID goes, the others stay |
| PdnList.PdnShell.IsInList | applications/modem_shell/src/link/link_shell_pdn.c:195-205 | whether the CID is listed |
| PdnList.PdnShell.Connect | applications/modem_shell/src/link/link_shell_pdn.c:207-271 | the context is listed exactly when every foreign call succeeded |
| PdnList.PdnShell.Disconnect | applications/modem_shell/src/link/link_shell_pdn.c:273-293 | the entry with the low eight bits of the CID leaves the list exactly when the context could be destroyed |
| PdnList.MembershipIff | applications/modem_shell/src/link/link_shell_pdn.c:144-293 | over every sequence of connects, disconnects and registrations, failing ones included, the list is strictly ascending and holds exactly what was added and not removed since |
| PdnList.PdnShell.ActivateMoshContexts | applications/modem_shell/src/link/link.c:107-128 | exactly the contexts that were found inactive and could not be activated leave the list |
| PdnList.PdnShell.RegisteredWork | applications/modem_shell/src/link/link.c:162-175 | the registration step of the history; after a successful query every listed CID below 11 was reported active or just activated, and nothing else was dropped |
| Gnss.Scheduler.FinishStartGnssWorkFn | applications/modem_shell/src/gnss/gnss.c:823-827 | what is scheduled and when it is due; a pending timeout stays before the next start exactly when none is scheduled or the own schedule is accepted |
| Gnss.Scheduler.TakeNextItem | applications/modem_shell/src/gnss/gnss.c:807-856 | the work queue keeps queue, timers and order; a start handler that is entered has no timeout pending, and a timeout or stop handler ends the search it belongs to, as long as the two orders held |
| Gnss.Scheduler.FixEventHandler | applications/modem_shell/src/gnss/gnss.c:203-211 | in the periodic mode a fix cancels the timeout and has stop work queued, in the others it does nothing; the order of stops holds on exactly when no start is queued or running |
| Gnss.Scheduler.GnssStart | applications/modem_shell/src/gnss/gnss.c:1053-1063 | in the periodic mode a start is pending afterwards unless a running one is being cancelled; in the others one more search has started, and each order holds on exactly when nothing of it is left from the periodic mode |
| Gnss.Scheduler.GnssStop | applications/modem_shell/src/gnss/gnss.c:1072-1083 | in the periodic mode nothing but stop work is left when nothing ran in between, and a handler still inside its modem call counts as cancelled; in the others nothing changes |
| GnssModel.ConsistentStep | applications/modem_shell/src/gnss/gnss.c:807-856 | every step keeps work items, queue, timers and the running handler consistent |
| GnssModel.TimeoutBeforeStartIff | applications/modem_shell/src/gnss/gnss.c:807-856 | a pending timeout always belongs to the latest search and implies a later pending start in exactly the runs in which no second cancel finds a timeout, no start handler schedules a timeout without the next start, and no search is started directly under a timeout; users who keep apart meet that |
| GnssModel.TimeoutFirstStepIff | applications/modem_shell/src/gnss/gnss.c:1053-1077 | the same for each single step |
| GnssModel.TimeoutsEndTheirOwnSearch | applications/modem_shell/src/gnss/gnss.c:807-856 | in such runs no timeout is pending when a start runs, and a timeout that is next or running ends the search that scheduled it, searches of all modes counted |
| GnssModel.StopBeforeStartIff | applications/modem_shell/src/gnss/gnss.c:203-211 | stop work always belongs to the latest search, with no start before it, in exactly the runs in which no fix submits it while a start is queued or running and no search is started directly before it has ended |
| GnssModel.StopsEndTheirOwnSearch | applications/modem_shell/src/gnss/gnss.c:830-840 | in such runs stop work ends the very search whose fix submitted it |
| GnssModel.PeriodRepeats | applications/modem_shell/src/gnss/gnss.c:807-828 | an undisturbed interval leads from one search to the next exactly interval seconds later, its timeout in between when there is one |
| GnssModel.HandlerDuringStop | applications/modem_shell/src/gnss/gnss.c:1072-1077 | a start handler between the two cancels leaves a timeout alone |
| GnssModel.StopDuringHandler | applications/modem_shell/src/gnss/gnss.c:813-827 | a whole gnss_stop inside the modem call of the start handler does the same |
| GnssModel.StaleTimeoutCutsShort | applications/modem_shell/src/gnss/gnss.c:825-827 | that timeout ends the next search after one second instead of five |
| GnssModel.StartDuringHandler | applications/modem_shell/src/gnss/gnss.c:813-827 | a gnss_start inside that call runs a second search under the timeout of the first |
| GnssModel.LateFixStopsNextSearch | applications/modem_shell/src/gnss/gnss.c:203-211 | a fix behind a queued start ends the search after its own |
| GnssModel.ModeChangeKeepsTimeout | applications/modem_shell/src/gnss/gnss.c:1053-1083 | periodic mode left, stopped and started directly: the old timeout ends the new search |
| GnssModel.StopWorkOutlivesStop | applications/modem_shell/src/gnss/gnss.c:1072-1077 | stop work of a fix is still queued after gnss_stop |
| GnssModel.StopWorkEndsDirectSearch | applications/modem_shell/src/gnss/gnss.c:1053-1063 | such stop work ends a search started directly |

## Left out

- Printing, echo, option parsing, shell registration and status LEDs: user interface.
- Sockets, the modem AT interface, the LTE link controller and device drivers: only their results appear, as parameters.
- Elapsed-time accounting and polling of the ping client: it depends on clocks.
- Ping.Pinger.BuildEchoRequest4: payloads that do not fit the 1500-byte packet buffer, which a reported MTU above 1500 would admit; what happens to them is not defined by the source.
- Ping.Pinger.BuildEchoRequest6: the same bound, for the same reason.
- RingBuffer.RingBuf.PutClaim: one outstanding claim per direction, which is all the bridge makes.
- UartBridge.Bridge.HandleRx: the loop of the interrupt handler is the run of the two handlers in any order.
- PppModel.NoLostWakeup: start, stop and restart are serialized with each other, as on the common work queue.
- PppModel.InvStep: a token handed directly to a waiting thread is modelled as a give followed by that thread's take.
- The endless loops of the PPP data threads are steps of the model and have no method of their own.
- AtCmdMode.CommandMode.RxHandler: bytes that arrive while the worker runs are not modelled, as the worker answers into the line buffer.
- AtCmdMode.CommandMode.RunSlot: strncpy copies a segment, which holds no terminator, byte by byte.
- BatteryModel.InvStep: an activity under the semaphore is one step, as nobody else can touch the state meanwhile.
- PdnList.PdnShell.Add: the linked list is a sequence; node allocation is not modelled.
- GnssModel.TimeoutBeforeStartIff: the two schedules at the end of the start handler are one step, with no tick, fix or user call between them, as nothing there blocks; one user thread at a time calls start, stop and the setters.
- GnssModel.StopBeforeStartIff: a search counts as started when the modem call that starts it has returned, so a fix during the call belongs to the search before, and a direct start is one step at that moment.
- Gnss.Scheduler.GnssStop: no handler is taken or finishes between its two cancels; the interrupted case is in the step system.
- Floating-point formatting, assistance data, NTN intervals and the remaining samples.
