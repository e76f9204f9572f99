# The Anova oven controller, modelled and proved

This project models the parts of the oven controller, its server and its tools where most of the decisions
are made, and proves what they promise over whole runs. Objects that the source updates in place
are classes; each of their methods is held to a function of the old state, and the run-level theorems are
about those functions. Inputs from outside (bus transfers, HTTP outcomes, socket chunks, clocks) are
arbitrary. Check it with `dafny verify dfyconfig.toml`.

- **Character LCD** (`LcdCells`, `LcdModel`, `LcdAnimator`, `LcdProofs`, `LcdMarquee`): the cell differ is complete
  and cheapest on the bus; the panel always shows the plan; the bottom row rotates only after its text was
  readable, every slot gets its turn in bounded time, and a marquee comes round again and again.
- **Framebuffer drivers** (`Bits`, `Drawing`, `Tft`, `Oled`, `SharpWire`, `Sharp`): packed bits, a shadow copy
  and dirty regions over a bus that fails; after a flush that succeeds the panel is what was drawn.
- **API client of the panel controller** (`Scheduler`, `ApiModel`, `ApiClient`): the event queue refines a
  map from kind to time, and a command is never bypassed more than five times, and by no poll due when it came.
- **Input filters** (`Debouncer`, `Encoder`): one-counter automata against statements about sums and runs.
- **Server** (`SmModel`, `StateMachine`, `SmProofs`, `SmPromises`, `AutoStop`,
  `Session`, `Preheat`, `Device`, `LocalStore`): the oven state machine,
  the tracker of device acks and the cook journal, over any interleaving, restarts and lost links.
- **Text and wire** (`WrapLines`, `WebSocket`, `Duration`): greedy wrapping is optimal and loses no words;
  frames and durations make round trips.

Three properties hold only under a condition, which is proved to be exact. VCOM bits of
consecutive landed Sharp transfers alternate if and only if an even number of toggles failed in between
(`toggle_vcom` flips its bit even when the bus fails, `Sharp.VcomAlternates`, `Sharp.FailedToggleRepeats`). The cook history
is exact if and only if no start reuses the id of a reported cook still in flight (`journal_start`
replaces such a record without ending it, `LocalStore.HistoryIsExact`, `LocalStore.ReusedStartLoses`); the
server draws a fresh UUID for each cook it starts, so its own starts never do.
The server never auto-stops the same cook twice without auto-stopping another in between
in any run whose reports come in open sessions (`AutoStop.StopsOnceInSessions`), which is how the
device side tells them (`Device.ReportsInSessions`). Over arbitrary inputs another cook is stopped in between
if and only if an oven was known at a report that marked another (`AutoStop.StoppedOtherBetween`):
`turn_off_when_done` marks a cook before it tries the stop, and keeps the mark when there is no
oven to stop. The input that shows this, `AutoStop.RefusedStopForgets`, lies outside the order of sessions.

## Model

| member | source | states |
|---|---|---|
| LcdCells.ChangedSpans | crates/anova-oven-pico-core/src/lcd_plan.rs:388-412 | one pass over two rows gives the list of maximal changed runs the specification describes; rows of different length give one span with the whole new row |
| LcdCells.ChangedComplete | crates/anova-oven-pico-core/src/lcd_plan.rs:384-412 | writing the spans over the old row leaves exactly the new row, and every span fits the row (rows up to 256 cells, the reach of the column byte) |
| LcdCells.SpansAreMaximalRuns | crates/anova-oven-pico-core/src/lcd_plan.rs:384-412 | each span is a maximal run of changed cells holding the new text: an unchanged cell or the edge stands on both sides, so unchanged cells are never bridged |
| LcdCells.ChangesAreCovered | crates/anova-oven-pico-core/src/lcd_plan.rs:388-412 | every changed cell lies in some span |
| LcdCells.ChangedCost | crates/anova-oven-pico-core/src/lcd_plan.rs:368-412 | the bus cost of the spans (one cursor move plus one write a cell) equals a charge of one for each changed cell and one more for each run |
| LcdCells.ChargeWithinCost | crates/anova-oven-pico-core/src/lcd_plan.rs:368-381 | any list of spans, overlapping or not, costs at least the charge of the cells it covers |
| LcdCells.ChangedIsCheapest | crates/anova-oven-pico-core/src/lcd_plan.rs:368-412 | no list of in-bounds spans, overlapping ones included, that turns the old row into the new one costs less on the bus than the spans of the differ |
| LcdModel.Look | crates/anova-oven-pico-core/src/lcd_plan.rs:314-365 | the marquee offset stays where a full window of the text fits, so the slice is in range, and neither the text nor the time it went up changes |
| LcdAnimator.PadToWidth | crates/anova-oven-pico-core/src/lcd_plan.rs:267-273 | pads with blanks or cuts to exactly sixteen cells |
| LcdAnimator.RowAnim.VisibleWindow | crates/anova-oven-pico-core/src/lcd_plan.rs:314-359 | updates offset, pause and completion in place as the specification function says, and returns the window at the new offset; with a clock that has not run back both elapsed times are defined |
| LcdAnimator.RowState.Advance | crates/anova-oven-pico-core/src/lcd_plan.rs:426-453 | restarts the animation on new text, sends nothing while a scrolling row holds still, and otherwise sends the diff against what was last rendered, or the whole row the first time |
| LcdAnimator.LcdAnimator.ChooseSlot | crates/anova-oven-pico-core/src/lcd_plan.rs:507-518 | rotates when the turn is over, falls back to the last slot when the plan shrank, and restarts the row exactly then |
| LcdAnimator.LcdAnimator.Tick | crates/anova-oven-pico-core/src/lcd_plan.rs:507-531 | one tick of the class on separate heap objects refines the specification step, keeps the rows separate and the offsets in range |
| LcdProofs.AdvanceCheapest | crates/anova-oven-pico-core/src/lcd_plan.rs:426-453 | once a row has been rendered, no other in-bounds writes with the same result are cheaper than what a tick sends, ticks that send nothing included |
| LcdProofs.PanelShowsPlan | crates/anova-oven-pico-core/src/lcd_plan.rs:426-453 | for any initial panel, any plans and any nondecreasing clock: after every tick both rows of the panel are the padded window of their current text at the current offset, every span sent was in bounds, and the slot exists in the plan |
| LcdProofs.RotationShowsEverything | crates/anova-oven-pico-core/src/lcd_plan.rs:507-518 | the bottom row rotates away only after the cells of the panel have displayed every character of the text since it went up; a short text was displayed whole for 3000 ms, the tail of a long one for 1200 ms |
| LcdProofs.TurnHistory | crates/anova-oven-pico-core/src/lcd_plan.rs:314-365 | at every moment of a run: what of the text in its turn has been seen, and since when its tail is up |
| LcdProofs.DeadlineHolds | crates/anova-oven-pico-core/src/lcd_plan.rs:314-365 | with ticks at most d apart, a tick that does not end the turn never puts its computed deadline back and comes before it |
| LcdProofs.DeadlineWithinBound | crates/anova-oven-pico-core/src/lcd_plan.rs:293-365 | the deadline of a turn lies within a bound computed from the text length and d alone |
| LcdProofs.StepTimeIs | crates/anova-oven-pico-core/src/lcd_plan.rs:342-352 | the time the bound allows for n marquee steps is n times a step and a tick |
| LcdProofs.TurnEnds | crates/anova-oven-pico-core/src/lcd_plan.rs:507-518 | for unchanging slots, at least two, whatever the top row does: if time passes the deadline, the turn ended before it and the next slot in order took over |
| LcdProofs.SlotsTakeTurns | crates/anova-oven-pico-core/src/lcd_plan.rs:507-525 | while the slots stay the same, any number of turns later, within that many bounds, it is the turn of the slot that many places round |
| LcdProofs.EverySlotIsVisited | crates/anova-oven-pico-core/src/lcd_plan.rs:507-525 | while the slots stay the same, every one of them is shown within one round of bounded turns |
| LcdMarquee.MarqueeKeepsTime | crates/anova-oven-pico-core/src/lcd_plan.rs:293-359 | for either row of the panel: from the tick a scrolling text goes up it is at the window of a simple timetable, the ends held 1200 ms and what is between 350 ms, three cells on, stopping at the tail, and then the start again |
| LcdMarquee.TailThenStart | crates/anova-oven-pico-core/src/lcd_plan.rs:340-351 | once the tail has gone up the panel reads it for 1200 ms, and at the first tick after that reads the text from its start |
| LcdMarquee.EveryCharacterAgain | crates/anova-oven-pico-core/src/lcd_plan.rs:314-359 | while a scrolling text stays up with no turn to end it, every character of it is on the panel again within a pass, whose length is computed from the text and the time between ticks |
| LcdMarquee.StartsOverAgain | crates/anova-oven-pico-core/src/lcd_plan.rs:346-351 | and so is the start of the text |
| LcdMarquee.MovesTimeIs | crates/anova-oven-pico-core/src/lcd_plan.rs:314-359 | the bound of a pass, in closed form: a window more than there are steps, each the end pause and a tick |
| LcdMarquee.ShortTextStands | crates/anova-oven-pico-core/src/lcd_plan.rs:314-323 | a text that fits is shown whole at every tick |
| LcdMarquee.NewTextFromStart | crates/anova-oven-pico-core/src/lcd_plan.rs:426-432 | a text other than the one before is read from its start at once |
| LcdMarquee.ShrunkPlanShowsLast | crates/anova-oven-pico-core/src/lcd_plan.rs:512-518 | a plan with fewer slots than the one shown goes to its last slot, from the start of the text |
| Tft.WithPixelOn | crates/anova-oven-pico/src/tft.rs:277-288 | setting one pixel changes that pixel and no other of the packed frame, eight to the byte, most significant bit first |
| Tft.Tft.SetPixel | crates/anova-oven-pico/src/tft.rs:277-288 | in-range coordinates set their one bit; out-of-range ones change nothing |
| Tft.Tft.DrawIter | crates/anova-oven-pico/src/tft.rs:307-319 | every pixel ends up as last drawn by the list, off-panel entries skipped |
| Tft.Tft.ClearFrame | crates/anova-oven-pico/src/tft.rs:168-171 | blanks the frame and makes the next flush repaint everything |
| Tft.Tft.SetPalette | crates/anova-oven-pico/src/tft.rs:176-181 | a different palette forces a full repaint, the same one does not |
| Tft.Tft.ExpandRow | crates/anova-oven-pico/src/tft.rs:239-254 | the bytes of a row, read back as high and low halves of RGB565 words, are the row of the frame in ink and paper |
| Tft.AddressLands | crates/anova-oven-pico/src/tft.rs:223-233 | wherever the controller stood, the column, row and memory write commands send it to the top of the window, every column wide |
| Tft.ScanlinesLand | crates/anova-oven-pico/src/tft.rs:235-262 | the scanlines that follow fill the rows of the window from the top, each its own, and change no other row |
| Tft.Tft.WriteRows | crates/anova-oven-pico/src/tft.rs:223-262 | if the transfer, its address and data bytes read as the controller reads them, lands, exactly the rows addressed hold the frame in the current palette; if not, panel memory is unchanged |
| Tft.WindowLanded | crates/anova-oven-pico/src/tft.rs:199-205 | recording a landed window keeps the shadow copy equal to the panel and leaves the later rows exactly as dirty as they were |
| Tft.RunsAreMaximal | crates/anova-oven-pico/src/tft.rs:187-209 | the windows are maximal runs of dirty rows, in order, with a clean row between any two |
| Tft.RunsCoverDirty | crates/anova-oven-pico/src/tft.rs:187-218 | a row is in some window exactly when it is dirty |
| Tft.DirtyMeans | crates/anova-oven-pico/src/tft.rs:211-218 | a row is dirty exactly if a repaint is due or some pixel of it is not as it was sent |
| Tft.Tft.Flush | crates/anova-oven-pico/src/tft.rs:187-209 | sends exactly the maximal dirty runs, or a proper prefix of them if the bus fails; keeps the shadow-copy invariant either way; on success the whole panel shows the frame and the result says whether anything was sent |
| Tft.Run | crates/anova-oven-pico/src/tft.rs:122-321 | from power-on with any panel memory, through any draws, clears, palette changes and flushes that may fail: after a successful flush each panel pixel has the current palette colour of the last thing drawn there |
| Tft.Tft.Clear | crates/anova-oven-pico/src/tft.rs:321-324 | every byte of the frame becomes all ink or all paper |
| Oled.Oled.SetPixel | crates/anova-oven-pico/src/oled.rs:319-330 | in-range coordinates set their one bit; out-of-range ones change nothing |
| Oled.Oled.DrawIter | crates/anova-oven-pico/src/oled.rs:349-361 | every pixel ends up as last drawn by the list |
| Oled.Oled.ClearFrame | crates/anova-oven-pico/src/oled.rs:261-264 | blanks the frame and makes the next flush repaint everything |
| Oled.AddressLands | crates/anova-oven-pico/src/oled.rs:294-296 | wherever the controller stood, the three command bytes send it to column 0 of the page |
| Oled.TransferLands | crates/anova-oven-pico/src/oled.rs:294-308 | the command bytes and the data bytes, read as the controller reads them, put that page of the frame into memory and change nothing else |
| Oled.Oled.WritePage | crates/anova-oven-pico/src/oled.rs:294-308 | if the transfer lands, panel memory differs in that page only, which holds the frame; if not, it is unchanged |
| Oled.WithPixelOn | crates/anova-oven-pico/src/oled.rs:319-330 | setting one pixel changes that pixel and no other, eight rows to a page byte, least significant bit on top |
| Oled.PageLanded | crates/anova-oven-pico/src/oled.rs:270-289 | a page that landed and was recorded extends the synchronised part and leaves later pages as dirty as they were |
| Oled.DirtyMeans | crates/anova-oven-pico/src/oled.rs:275-277 | a page is dirty exactly if a repaint is due or some pixel of it is not as it was sent |
| Oled.Oled.Flush | crates/anova-oven-pico/src/oled.rs:270-289 | sends the dirty pages in order, all of them or all before the one that failed; the shadow copy equals the panel unless a repaint is due; on success the panel equals the frame |
| Oled.Run | crates/anova-oven-pico/src/oled.rs:199-366 | through any draws, clears and flushes that may fail: after a successful flush every panel pixel is as last drawn |
| Sharp.WithPixelBlack | crates/anova-oven-pico/src/sharp.rs:93-104 | setting one pixel changes that pixel and no other; a cleared bit is black |
| SharpWire.BodyRoundTrip | crates/anova-oven-pico/src/sharp.rs:125-141 | the packed lines, read by the wire format (bit-reversed one-based address, fifty bit-reversed data bytes, a zero), are the dirty lines with their contents, in order |
| SharpWire.PackedRoundTrip | crates/anova-oven-pico/src/sharp.rs:116-153 | a whole transfer decodes to a write with the VCOM bit and exactly the dirty lines, and is never longer than the transmit buffer |
| SharpWire.PixelsInWireOrder | crates/anova-oven-pico/src/sharp.rs:8-9 | the reversal of each byte puts its least significant bit, its leftmost pixel, first on a bus that sends the most significant bit first |
| SharpWire.IdleRoundTrip | crates/anova-oven-pico/src/sharp.rs:174-183 | the two-byte toggle decodes to no write, the VCOM bit and no lines |
| Sharp.NothingPacked | crates/anova-oven-pico/src/sharp.rs:124-145 | nothing is packed exactly when frame and shadow copy agree and no repaint is due |
| Sharp.DirtyMeans | crates/anova-oven-pico/src/sharp.rs:128-130 | a line is dirty exactly if a repaint is due or some pixel of it is not as it was sent |
| Sharp.DirtyLinesReceived | crates/anova-oven-pico/src/sharp.rs:115-169 | a panel showing what was last sent shows the frame once it has received the dirty lines |
| Sharp.Sharp.PackLines | crates/anova-oven-pico/src/sharp.rs:117-141 | the transmit array holds exactly the dirty lines, each marked, with room left for the closing zero |
| Sharp.Sharp.Flush | crates/anova-oven-pico/src/sharp.rs:115-169 | on success the panel equals the frame; the result says nothing was sent exactly when nothing differed; what goes out decodes to exactly the dirty lines and fits the buffer; VCOM flips exactly when it lands, and a failure changes nothing on the panel |
| Sharp.Sharp.ToggleVcom | crates/anova-oven-pico/src/sharp.rs:174-183 | flips the driver bit whether or not the transfer lands and leaves panel memory alone |
| Sharp.VcomAlternates | crates/anova-oven-pico/src/sharp.rs:115-183 | transfers that reach the panel one after the other carry opposite VCOM bits if and only if an even number of toggles failed between them, hence always when none failed |
| Sharp.FailedToggleRepeats | crates/anova-oven-pico/src/sharp.rs:174-183 | a log the driver allows in which one toggle fails and the next transfer repeats the VCOM bit |
| Sharp.Run | crates/anova-oven-pico/src/sharp.rs:74-213 | through any draws, clears, flushes and toggles that may fail: after a successful flush every panel pixel is as last drawn, and the bits on the wire follow the VCOM rule |
| Sharp.Sharp.SetPixel | crates/anova-oven-pico/src/sharp.rs:93-104 | in-range coordinates set their one bit; out-of-range ones change nothing |
| Sharp.Sharp.DrawIter | crates/anova-oven-pico/src/sharp.rs:196-208 | every pixel ends up as last drawn by the list |
| Sharp.Sharp.ClearWhite | crates/anova-oven-pico/src/sharp.rs:88-91 | whitens the frame and makes the next flush repaint everything |
| Scheduler.KindsBounded | crates/anova-oven-pico-core/src/scheduler.rs:83-104 | a vector without two events of a kind holds at most six, so the capacity of sixteen is never reached |
| Scheduler.SwapRemovedLists | crates/anova-oven-pico-core/src/scheduler.rs:133-140 | taking an entry out by moving the last into its place leaves a vector that lists the same schedule less that kind |
| Scheduler.EventQueue.Enqueue | crates/anova-oven-pico-core/src/scheduler.rs:83-104 | the vector goes on listing a map from kind to time; a pending kind keeps the earlier time or takes the new one by mode; overflow is never reported |
| Scheduler.EnqueuedMeans | crates/anova-oven-pico-core/src/scheduler.rs:83-104 | enqueuing moves its own kind only, to the time asked or to the earlier of that and its own |
| Scheduler.EventQueue.SoonestIndex | crates/anova-oven-pico-core/src/scheduler.rs:33-120 | the first entry, in vector order, of those due earliest, and a poll only if no command is due at that instant |
| Scheduler.EventQueue.NextDueAt | crates/anova-oven-pico-core/src/scheduler.rs:122-125 | none exactly when nothing is pending, otherwise the least time of all |
| Scheduler.EventQueue.HasPending | crates/anova-oven-pico-core/src/scheduler.rs:127-129 | true exactly for the kinds in the schedule |
| Scheduler.EventQueue.PopDue | crates/anova-oven-pico-core/src/scheduler.rs:133-140 | exactly when some entry is due, takes out one than which none is due earlier, a poll only if no command is due at that same instant, and leaves the rest of the schedule as it was |
| ApiClient.ApiRuntime.constructor | crates/anova-oven-pico/src/api_client.rs:112-143 | starts with the three polls pending at their offsets and nothing staged |
| ApiClient.ApiRuntime.PollActionInFlight | crates/anova-oven-pico/src/api_client.rs:203-208 | true exactly when a recipe is staged or any command event is pending |
| ApiClient.ApiRuntime.HandleCommand | crates/anova-oven-pico/src/api_client.rs:419-444 | stages the recipe and schedules the command now, with the refresh polls for stop and next stage, and keeps the runtime invariant |
| ApiClient.ApiRuntime.HandlePollStatus | crates/anova-oven-pico/src/api_client.rs:299-342 | postpones the poll while an action is in flight; otherwise resets or counts the failure and re-arms with the back-off |
| ApiClient.ApiRuntime.HandlePollCurrentCook | crates/anova-oven-pico/src/api_client.rs:344-386 | postpones the poll while an action is in flight; otherwise re-arms it, never counting a failure |
| ApiClient.ApiRuntime.HandlePollRecipes | crates/anova-oven-pico/src/api_client.rs:388-417 | re-arms the recipe poll whatever came back |
| ApiClient.ApiRuntime.HandleApiStart | crates/anova-oven-pico/src/api_client.rs:240-273 | takes the staged recipe, if any, and schedules the two refresh polls |
| ApiClient.ApiRuntime.QueuePostActionRefresh | crates/anova-oven-pico/src/api_client.rs:189-201 | brings the status and cook polls forward, never back |
| ApiClient.ApiRuntime.HandleEvent | crates/anova-oven-pico/src/api_client.rs:229-417 | each handler changes the schedule, the staged recipe and the failure count as the step function says |
| ApiClient.ApiRuntime.ServeNext | crates/anova-oven-pico/src/api_client.rs:469-473 | one turn of the drain loop is one step of the transition system and makes that step its request, or nothing at all was due; the invariant holds after it |
| ApiClient.ApiRuntime.NextDueAt | crates/anova-oven-pico/src/api_client.rs:457-459 | there is always a deadline to wait for, and it is the earliest |
| ApiModel.RunSettled | crates/anova-oven-pico/src/api_client.rs:112-445 | in every reachable state all three polls are pending, and a recipe id is staged exactly when a start event is pending |
| ApiModel.BypassBound | crates/anova-oven-pico/src/api_client.rs:457-478 | while a command due by time t waits, at most the commands due by then and the polls due strictly before, plus one for each command arriving at that same instant, are served first |
| ApiModel.EachServedOnce | crates/anova-oven-pico/src/api_client.rs:457-478 | while a command due by time t waits and none comes at that same instant, what is served was due by then from the start, each kind at most once |
| ApiModel.CommandWaits | crates/anova-oven-pico/src/api_client.rs:457-478 | while a command taken at time t waits, at most five other events are served, no two of one kind |
| ApiModel.CommandBypassedAtMostFiveTimes | crates/anova-oven-pico/src/api_client.rs:457-478 | a command taken at time t is served after at most five other events in any run whose later commands arrive after t |
| ApiModel.CommandsFirst | crates/anova-oven-pico-core/src/scheduler.rs:33-120 | what is served while a command is pending is a command itself or a poll due strictly before it |
| ApiModel.NoPollOvertakes | crates/anova-oven-pico/src/api_client.rs:462-473 | while a command taken at time t waits, no poll due at t or later is served |
| ApiModel.LatestStartIsPosted | crates/anova-oven-pico/src/api_client.rs:240-244 | in any run, serving a start posts the recipe of the last start commanded, and there always is one |
| ApiModel.ServedIsPosted | crates/anova-oven-pico/src/api_client.rs:275-297 | a stop or a next stage is posted as such |
| ApiModel.NoPollDuringAction | crates/anova-oven-pico/src/api_client.rs:203-208 | the status and the cook are asked for exactly when no recipe is staged and no command pending |
| ApiModel.FailCountIsFailures | crates/anova-oven-pico/src/api_client.rs:174-187 | in any run the failure count is the number of status polls that failed in a row, a missing oven counting as an answer |
| ApiModel.PollComesRound | crates/anova-oven-pico/src/api_client.rs:161-168 | after it is served a poll is due again: the status after 1, 5, 15 or 30 seconds by the failures in a row, the cook after ten or that, the recipes after an hour; one put off after a second |
| ApiModel.ActionIsFollowed | crates/anova-oven-pico/src/api_client.rs:189-273 | after a stop or next stage is asked for, status and cook are due within a second; after a start is posted, within one and three |
| ApiModel.CommandDueAtOnce | crates/anova-oven-pico/src/api_client.rs:419-444 | a command is due at once, and nothing pending is put back |
| Debouncer.Debouncer.Feed | crates/anova-oven-pico-core/src/button.rs:121-155 | each sample updates the clamped charge and the counters in place and gives the verdict of the step function; the 32-bit counters must have room |
| Debouncer.IdleWhileBetween | crates/anova-oven-pico-core/src/button.rs:121-155 | nothing is decided exactly while every prefix sum of the signed, capped steps lies strictly between 0 and 12 |
| Debouncer.FirstVerdict | crates/anova-oven-pico-core/src/button.rs:121-155 | the first decision is a press exactly when that sum reaches 12 and a glitch exactly when it falls to 0 or below |
| Debouncer.ReleaseVerdict | crates/anova-oven-pico-core/src/button.rs:121-155 | after the press the release comes exactly when the sum has dropped 12 below its highest since the press |
| Debouncer.PressedOnce | crates/anova-oven-pico-core/src/button.rs:121-155 | a press is reported at most once, however long sampling goes on |
| Debouncer.PressNeedsTwoLows | crates/anova-oven-pico-core/src/button.rs:92-143 | a press takes at least two low samples, and is confirmed by a low one |
| Encoder.DirectionIsNeighbour | crates/anova-oven-pico-core/src/encoder.rs:17-20 | a table entry is +1 or -1 exactly when the two pin codes are neighbours on the Gray-code cycle, with that sense |
| Encoder.QuadratureDecoder.Update | crates/anova-oven-pico-core/src/encoder.rs:52-78 | updates the previous code and the accumulator in place, which stays within -3..3 between calls |
| Encoder.AccumulateRuns | crates/anova-oven-pico-core/src/encoder.rs:60-77 | one transition turns the accumulator into what the run-length specification owes for the rest of the trace |
| Encoder.DecoderMeetsSpec | crates/anova-oven-pico-core/src/encoder.rs:37-86 | from any start and for any pin samples, the ticks are one for every four transitions of each maximal same-direction run, directionless samples dropped |
| Duration.ParseDuration | crates/anova-oven-cli/src/main.rs:261-300 | the loop over characters accumulates total and pending number exactly as the grammar says; each malformed form gives its own error, and sums past 64 bits are a separate outcome |
| Duration.DecimalValue | crates/anova-oven-cli/src/main.rs:446-455 | decimal printing reads back as the number |
| Duration.ClockRoundTrip | crates/anova-oven-cli/src/main.rs:263-272 | hours, minutes and seconds printed with colons and two-digit padding read back as their sum |
| Duration.DurationRoundTrip | crates/anova-oven-cli/src/main.rs:261-455 | parsing a printed duration gives it back, without overflow, for every second count above zero and below 2^64 |
| Duration.UnitsRoundTrip | crates/anova-oven-cli/src/main.rs:273-299 | any list of numbers with h, m or s units, in any order, reads as the sum |
| Duration.UnitsReadExactly | crates/anova-oven-cli/src/main.rs:273-295 | a text reads as a sum of units if and only if, blanks aside, it is numbers each followed by its unit, and then as their amount |
| Duration.UnitIsNeeded | crates/anova-oven-cli/src/main.rs:291-293 | a number left without a unit is refused for that, alone or after others |
| Duration.NothingIsRefused | crates/anova-oven-cli/src/main.rs:296-298 | nothing, or an amount of nothing, is refused |
| Duration.SplitIsFields | crates/anova-oven-cli/src/main.rs:264-267 | the fields of a clock time are the text between its colons |
| Duration.CapitalsAreRead | crates/anova-oven-cli/src/main.rs:262-262 | units may be written in capitals |
| Duration.BlanksAround | crates/anova-oven-cli/src/main.rs:262-262 | blanks before and after do not matter |
| Duration.FormatShape | crates/anova-oven-cli/src/main.rs:446-455 | a printed duration has two digits for minutes and seconds, and hours only if there are some |
| Duration.NoZeroInFront | crates/anova-oven-cli/src/main.rs:451-451 | hours are printed without zeros in front |
| WrapLines.GreedyLines | crates/anova-oven-pico-core/src/view_plan.rs:145-162 | the lines concatenate to the words in order, and each line fits or is a single word |
| WrapLines.FirstLineLongest | crates/anova-oven-pico-core/src/view_plan.rs:145-159 | the first line takes at least as many words as any allowed line could |
| WrapLines.GreedyFewest | crates/anova-oven-pico-core/src/view_plan.rs:133-182 | under a measure by which every contiguous part of a fitting line fits, no split into allowed lines has fewer lines |
| WrapLines.Ellipsise | crates/anova-oven-pico-core/src/view_plan.rs:169-179 | the loop ends with the longest prefix that fits together with its ellipsis, or the ellipsis alone |
| WrapLines.WrapLines | crates/anova-oven-pico-core/src/view_plan.rs:133-182 | at most the given number of lines; all lines when they fit that number, otherwise the first ones with the last of them cut to an ellipsis |
| WrapLines.WrappingKeepsText | crates/anova-oven-pico-core/src/view_plan.rs:133-182 | lines that were not cut, joined by spaces, are the words joined by spaces |
| WrapLines.WordsSurvive | crates/anova-oven-pico-core/src/view_plan.rs:140-158 | splitting those lines again gives back exactly the words of the text |
| WrapLines.WordsAreText | crates/anova-oven-pico-core/src/view_plan.rs:145-145 | the words run together are the text without its blanks |
| WrapLines.WordsSplitAtBlank | crates/anova-oven-pico-core/src/view_plan.rs:145-145 | words are split exactly at the blanks, whichever they are |
| WrapLines.FitLineCount | crates/anova-oven-pico-core/src/view_plan.rs:109-124 | keeps the longest prefix of lines that fits, the last measured by its ink, and at least one line if there is any |
| WebSocket.SendFrame | tools/oven-cloud-probe.py:108-119 | writes the FIN bit, opcode, shortest length form and payload, section 5.2 of RFC 6455 |
| WebSocket.MaskedTwice | tools/oven-cloud-probe.py:194-195 | masking twice with the same key gives the payload back, section 5.3 of RFC 6455 |
| WebSocket.FrameRoundTrip | tools/oven-cloud-probe.py:108-195 | any frame below 2^64 bytes, masked or not, is read back as written, leaving exactly what follows it |
| WebSocket.StreamRoundTrip | tools/oven-cloud-probe.py:98-200 | any list of frames written one after another is read back in order, consuming every byte |
| WebSocket.EncodingIsShortest | tools/oven-cloud-probe.py:108-119 | no bytes that the reader accepts as that same frame are fewer |
| WebSocket.Socket.RecvExact | tools/oven-cloud-probe.py:98-105 | returns exactly n bytes however the peer chunks them, or nothing if the stream ends first |
| WebSocket.Socket.ReadFrame | tools/oven-cloud-probe.py:185-195 | reads one frame off the stream as the byte-level decoder does |
| WebSocket.Serve | tools/oven-cloud-probe.py:183-214 | what is reported and answered is a function of the frames on the stream alone, up to the first close |
| WebSocket.FragmentsReassemble | tools/oven-cloud-probe.py:183-200 | fragments with control frames between them come out as one message holding the whole, section 5.4 of RFC 6455 |
| WebSocket.StrayContinuations | tools/oven-cloud-probe.py:196-200 | continuations with no text before them make a message of their own |
| WebSocket.PingsAreAnswered | tools/oven-cloud-probe.py:203-210 | every ping before a close is answered by a pong with its payload, in order, the close by a close with its status code, and nothing else is sent, section 5.5 of RFC 6455 |
| WebSocket.FramesAreReported | tools/oven-cloud-probe.py:201-214 | apart from the texts, each frame up to a close, and the close, is reported as it comes |
| WebSocket.ExamplesOfTheStandard | tools/oven-cloud-probe.py:108-119 | the unmasked examples of section 5.7 of RFC 6455, byte for byte |
| WebSocket.MaskedExamples | tools/oven-cloud-probe.py:185-195 | its masked examples, byte for byte |
| WebSocket.LongExamples | tools/oven-cloud-probe.py:111-117 | its examples of 256 and 65536 bytes |
| Device.Processor.TakeAcked | crates/anova-oven-server/src/processors/device.rs:90-96 | returns the pending commands the oven lists and keeps the others, each in order |
| Device.Processor.TakeExpired | crates/anova-oven-server/src/processors/device.rs:99-105 | returns the pending commands past their deadline and keeps the others, each in order |
| Device.Processor.EndSession | crates/anova-oven-server/src/processors/device.rs:451-464 | a lost link is told once, and only if there was a session |
| Device.Processor.Handle | crates/anova-oven-server/src/processors/device.rs:174-305 | one pass of the loop, for a new session, a report, another frame, a lost link, a deadline or a command, is one step of the model |
| Device.AckedSplit | crates/anova-oven-server/src/processors/device.rs:90-96 | taking the acknowledged ones loses and duplicates nothing |
| Device.ExpiredSplit | crates/anova-oven-server/src/processors/device.rs:99-105 | taking the expired ones loses and duplicates nothing |
| Device.StepOutcomes | crates/anova-oven-server/src/processors/device.rs:174-305 | a step adds exactly one outcome, an ack or a pending place, to the command it sends, and none to any other |
| Device.ExactlyOneOutcome | crates/anova-oven-server/src/processors/device.rs:155-305 | over any run, acks told plus places pending for an id equal the times it was issued: with distinct ids exactly one each, never a second ack after a timeout or reconnect, and none for an id never issued |
| Device.WakeUpsClear | crates/anova-oven-server/src/processors/device.rs:90-105 | after a deadline wake-up nothing expired is pending, after a report nothing the oven processed is |
| Device.AckMeansWhatItSays | crates/anova-oven-server/src/processors/device.rs:258-303 | "ok" comes from a report listing a pending command and after the state it carries, "timeout" at or past the deadline, "disconnected" with no session, "send failed" when a session could not send |
| Device.PendingWereSent | crates/anova-oven-server/src/processors/device.rs:292-302 | over any run every pending command was sent, the ack timeout before its deadline |
| Device.TimeoutIsLate | crates/anova-oven-server/src/processors/device.rs:258-265 | "timeout" is told of a command only when the ack timeout has passed since it was sent |
| Device.AnsweredInTime | crates/anova-oven-server/src/processors/device.rs:258-302 | a command given once has had its one ack after any wake-up that comes the ack timeout or longer after it was given |
| Device.AnsweredWhenProcessed | crates/anova-oven-server/src/processors/device.rs:396-403 | a command given once has had its one ack after any report in a session that lists it |
| Device.ReportsInSessions | crates/anova-oven-server/src/processors/device.rs:174-257 | over any run sessions are told one at a time, each announced by its connection and its oven and closed once, and reports only in an open one |
| LocalStore.LocalStore.Finish | crates/anova-oven-server/src/processors/local_store.rs:348-375 | a cook never reported is dropped without an entry; a reported one is recorded, ended now if this process was watching it and else at its last report |
| LocalStore.LocalStore.JournalStart | crates/anova-oven-server/src/processors/local_store.rs:246-269 | ends the cook before it if it was another, and journals the new one |
| LocalStore.LocalStore.OvenReported | crates/anova-oven-server/src/processors/local_store.rs:284-308 | refreshes the journal for the same cook, adopts another after ending the old one, ends it on an idle report; tells whether an entry was written |
| LocalStore.LocalStore.FetchCurrentCook | crates/anova-oven-server/src/processors/local_store.rs:312-342 | a cook the journal is not on counts as a report first; the answer joins the journal record to the stages reported |
| LocalStore.StoreFollowsTrace | crates/anova-oven-server/src/processors/local_store.rs:246-375 | after any events, restarts included, the journal is in every field, recipe and extras too, what the event trace alone determines, and so is the watched id |
| LocalStore.FetchAnswersTrace | crates/anova-oven-server/src/processors/local_store.rs:312-342 | a fetch of the cook in flight answers with the recipe and extras its start asked for, of any other cook with none |
| LocalStore.GroupsAccountedFor | crates/anova-oven-server/src/processors/local_store.rs:246-375 | every group of same-id reports that began has its one entry or is the one still open |
| LocalStore.HistoryIsExact | crates/anova-oven-server/src/processors/local_store.rs:246-375 | the history is exactly one entry for each ended group, in order and with its title, end time and stage count, if and only if no start reuses the id of a reported cook still in flight |
| LocalStore.ReusedStartLoses | crates/anova-oven-server/src/processors/local_store.rs:246-269 | a reported cook followed by a start under its id: the entry the trace asks for is not written |
| LocalStore.HistoryLoses | crates/anova-oven-server/src/processors/local_store.rs:246-269 | each start that reuses such an id loses exactly one entry |
| LocalStore.UnreportedStartLeavesNothing | crates/anova-oven-server/src/processors/local_store.rs:348-375 | a start never reported leaves no entry, whatever follows it |
| LocalStore.StartedAtConstant | crates/anova-oven-server/src/processors/local_store.rs:284-308 | the start time is constant while the journal stays on one cook |
| LocalStore.LocalStore.CookStarted | crates/anova-oven-server/src/processors/local_store.rs:214-242 | journals a start from a saved recipe under its title, or as manual if the recipe is gone |
| LocalStore.LocalStore.LinkCook | crates/anova-oven-server/src/processors/local_store.rs:273-280 | renames the journal record if there is one, and nothing else |
| Preheat.WatchIsRight | crates/anova-oven-server/src/processors/state_machine.rs:737-807 | the watch always names the stage of the last report and, until reached, the start of the current unbroken stretch of near reports |
| Preheat.SettlesWhenNearLongEnough | crates/anova-oven-server/src/processors/state_machine.rs:737-807 | the server settles a preheat exactly when the consecutive reports of that stage at or above setpoint minus tolerance, this one included, span ten seconds |
| Preheat.ActionsComeFromSettling | crates/anova-oven-server/src/processors/state_machine.rs:774-806 | a next stage is started, or a waiting flag first set, only by settling, and what is started is the next stage |
| Preheat.StartsOncePerWatch | crates/anova-oven-server/src/processors/state_machine.rs:737-807 | between two starts by the server some report was not of that preheat |
| Preheat.ReachedStaysMarked | crates/anova-oven-server/src/processors/state_machine.rs:762-772 | once reached, every later report of the watch whose next stage waits for the user is marked as waiting |
| SmPromises.NearMeans | crates/anova-oven-server/src/processors/state_machine.rs:738-780 | a report near the setpoint, in the terms of the report: local mode, cooking, in a preheat with an id and a stage after it, at or above its setpoint less the tolerance |
| SmPromises.SettledPreheatMovesOn | crates/anova-oven-server/src/processors/state_machine.rs:737-807 | in any run, a report not marked by the oven, of a preheat not taken as reached, that ends ten seconds of near reports, starts the next stage by exactly one control with its id, or is recorded as waiting if that stage waits |
| StateMachine.SmState.SendControl | crates/anova-oven-server/src/processors/state_machine.rs:463-475 | tracks the control under a fresh id, dropping the oldest beyond sixteen |
| StateMachine.SmState.Start | crates/anova-oven-server/src/processors/state_machine.rs:329-386 | enters StartPending under a fresh request id, seeds the current cook, and tells the oven and the store |
| StateMachine.SmState.StopCook | crates/anova-oven-server/src/processors/state_machine.rs:486-521 | refused when idle or with no oven; otherwise turns the lamp off if it must, and sends a stop under a fresh id |
| StateMachine.SmState.TurnOffWhenDone | crates/anova-oven-server/src/processors/state_machine.rs:527-569 | marks and stops a finished cook whose last stage asks for it, once |
| StateMachine.SmState.BeganCooking | crates/anova-oven-server/src/processors/state_machine.rs:637-674 | the idle-to-cooking edge: lifecycle and its origin, the lamp, and what is fetched |
| StateMachine.SmState.OnReport | crates/anova-oven-server/src/processors/state_machine.rs:594-613 | a report: the store told first unless a start is pending, then the preheat watch and the edges |
| StateMachine.SmState.ApplyApoState | crates/anova-oven-server/src/processors/state_machine.rs:624-724 | starting, stopping and settling edges of a report, field by field and effect by effect |
| StateMachine.SmState.SettlePreheat | crates/anova-oven-server/src/processors/state_machine.rs:737-807 | updates the watch and the waiting flag in place and starts the next stage as the report-level function says |
| StateMachine.SmState.UpdateWatch | crates/anova-oven-server/src/processors/state_machine.rs:762-806 | the branches on the watch of a preheat: by the oven, reached before, not near, near but not long enough, settled |
| StateMachine.SmState.OnAck | crates/anova-oven-server/src/processors/state_machine.rs:809-861 | an ack resolves the pending start, stop or control it names, and an unknown id changes nothing |
| StateMachine.SmState.OnCommand | crates/anova-oven-server/src/processors/state_machine.rs:175-228 | every command changes the fields, gives the error and issues the effects of the pure step, and keeps what RunInv says of reachable states |
| StateMachine.SmState.OnEvent | crates/anova-oven-server/src/processors/state_machine.rs:232-258 | every event changes the fields and issues the effects of the pure step, and keeps what RunInv says of reachable states |
| SmProofs.RunInv | crates/anova-oven-server/src/processors/state_machine.rs:175-258 | in every reachable state a pending start or stop has its request, at most sixteen controls are tracked, and all request ids in flight are distinct |
| SmProofs.IdleReportClearsCook | crates/anova-oven-server/src/processors/state_machine.rs:702-718 | an idle report that leaves the lifecycle idle leaves no current cook |
| SmProofs.ReportLeavesNoStartPending | crates/anova-oven-server/src/processors/state_machine.rs:624-724 | only a cooking report over a cook already running leaves a start pending |
| SmProofs.FetchesAreSafe | crates/anova-oven-server/src/processors/state_machine.rs:260-269 | while a start is pending no fetch names the cook it replaces |
| SmProofs.ReportToldFirst | crates/anova-oven-server/src/processors/state_machine.rs:594-613 | the store hears of a report first and once, and is not told exactly when the report arrives with a start pending |
| SmPromises.SentIsAwaited | crates/anova-oven-server/src/processors/state_machine.rs:329-475 | every id that goes out in a start, a stop or a control is the one the state after that input waits for |
| SmPromises.StartRefused | crates/anova-oven-server/src/processors/state_machine.rs:833-837 | an answer other than ok to the pending start is announced, once, and gives it up: idle |
| SmPromises.StartAccepted | crates/anova-oven-server/src/processors/state_machine.rs:816-832 | an ok has the cook fetched, and ends the start if the oven already cooks in local mode |
| SmPromises.StopAnswered | crates/anova-oven-server/src/processors/state_machine.rs:841-849 | an answer other than ok to the pending stop is announced, once, and the cook goes on; an ok changes nothing |
| SmPromises.ControlAnswered | crates/anova-oven-server/src/processors/state_machine.rs:851-859 | an answered control is tracked no longer, the others still are, and a refusal is announced under its name |
| SmPromises.StrangerIgnored | crates/anova-oven-server/src/processors/state_machine.rs:809-861 | an answer nobody waits for changes nothing |
| SmPromises.StartsRecipe | crates/anova-oven-server/src/processors/state_machine.rs:290-386 | a start is refused without an oven or an unlisted recipe; otherwise the first recipe listed under the id goes to the oven and to the store under one cook id, and is shown |
| SmPromises.StartsManual | crates/anova-oven-server/src/processors/state_machine.rs:306-386 | a manual start sends the stages given, counted without the preheats, under no recipe |
| SmPromises.StopsCook | crates/anova-oven-server/src/processors/state_machine.rs:486-521 | a stop is refused exactly when nothing cooks or no oven is known, and else goes out last, after the lamp is put out if it is lit in local mode |
| SmPromises.LifecycleFollows | crates/anova-oven-server/src/processors/state_machine.rs:624-724 | the lifecycle after any report, from the state before and whether it stopped the cook |
| SmPromises.StoreFollowsEdges | crates/anova-oven-server/src/processors/state_machine.rs:654-700 | the history is refreshed exactly when the oven begins or ends cooking, the cook fetched exactly when it begins or its timer is set anew |
| SmPromises.LampComesOn | crates/anova-oven-server/src/processors/state_machine.rs:657-666 | a report puts the lamp on exactly if in local mode the oven has begun to cook since the report before and the lamp is off |
| SmPromises.DoneCookIsStopped | crates/anova-oven-server/src/processors/state_machine.rs:527-569 | a cooking report stops the oven if and only if in local mode its last stage has ended, by the oven or by the probe at its target, the recipe asks for it, no start or stop is under way, that cook was not stopped so before and an oven is known |
| SmPromises.ChangesArePublished | crates/anova-oven-server/src/processors/state_machine.rs:573-940 | an event that changes the status, the cook or the recipes has the read model published |
| SmPromises.FetchedIsShown | crates/anova-oven-server/src/processors/state_machine.rs:888-908 | a fetched cook replaces the one shown, a failed fetch leaves it |
| SmPromises.TitleGoesToItsCook | crates/anova-oven-server/src/processors/state_machine.rs:924-938 | a title found for a manual cook goes to the cook it was looked up for if that is still unnamed, and keeps a recipe it has |
| SmPromises.LinkRenames | crates/anova-oven-server/src/processors/state_machine.rs:273-288 | linking renames the cook here and in the store alike, and is refused without one |
| SmPromises.ControlIsSent | crates/anova-oven-server/src/processors/state_machine.rs:217-226 | an accepted control is sent alone and tracked under its name, a refused one changes nothing |
| SmPromises.LinkDownForgets | crates/anova-oven-server/src/processors/state_machine.rs:575-587 | without a link there is no oven to start, and a link alone brings back none |
| SmPromises.NamedOvenIsKnown | crates/anova-oven-server/src/processors/state_machine.rs:575-593 | an oven that was named stays known through a further connect |
| SmPromises.StoreAnswers | crates/anova-oven-server/src/processors/state_machine.rs:870-922 | recipes, history and recipe reference events do just what their answer says |
| SmPromises.ReportIsKept | crates/anova-oven-server/src/processors/state_machine.rs:604-613 | the cook and the status of a report are what the machine knows from then on |
| SmPromises.TicksAsk | crates/anova-oven-server/src/processors/state_machine.rs:232-258 | a tick asks the store for what is due, the cook only while one is under way |
| AutoStop.StopOnReportMarks | crates/anova-oven-server/src/processors/state_machine.rs:527-569 | a stop sent on a report is for the cook the report shows, and that cook is marked in the same step |
| AutoStop.MarkedUnlessRefused | crates/anova-oven-server/src/processors/state_machine.rs:527-569 | a report that marks a cook sends its stop if and only if an oven is known and the report is a cooking one |
| AutoStop.MarksOnce | crates/anova-oven-server/src/processors/state_machine.rs:527-569 | over any run the same cook is not marked twice without another marked in between |
| AutoStop.MarkedIsStopped | crates/anova-oven-server/src/processors/state_machine.rs:486-569 | once a cook has been stopped, idle reports mark nothing, so an input stops a cook exactly if it marks it and an oven is known |
| AutoStop.StoppedOtherBetween | crates/anova-oven-server/src/processors/state_machine.rs:527-569 | between two auto-stops of one cook another is auto-stopped if and only if, at some report in between that marked another, an oven was known |
| AutoStop.StopsOnce | crates/anova-oven-server/src/processors/state_machine.rs:527-569 | the same cook is not auto-stopped twice without another auto-stopped in between, if the reports in between that show a cook come with an oven known |
| AutoStop.OpenKnowsOven | crates/anova-oven-server/src/processors/state_machine.rs:573-593 | while a session is open its oven is known |
| AutoStop.StopsOnceInSessions | crates/anova-oven-server/src/processors/state_machine.rs:527-593 | in every run whose reports come in open sessions the same cook is never auto-stopped twice without another auto-stopped in between |
| AutoStop.StopsAgainAfterOther | crates/anova-oven-server/src/processors/state_machine.rs:527-569 | in one session cook "a" is auto-stopped, then "b", then "a" again: the runs the statements above are about occur |
| AutoStop.RefusedStopForgets | crates/anova-oven-server/src/processors/state_machine.rs:527-569 | outside that order: with a report of another cook while no oven is known, cook "a" is auto-stopped twice and no other in between |
| SmProofs.WatchFollowsReports | crates/anova-oven-server/src/processors/state_machine.rs:594-613 | in any interleaving of commands, acks, ticks and reports the watch is the one the reports alone lead to |
| SmProofs.ReportActsOnWatch | crates/anova-oven-server/src/processors/state_machine.rs:594-613 | a report starts a stage exactly when the watch says so, and the recorded status carries its waiting flag |
| SmProofs.ActionIsEarned | crates/anova-oven-server/src/processors/state_machine.rs:737-807 | in any run the server starts a stage or first sets the waiting flag only after consecutive reports of that stage, this one last, all near the setpoint and spanning ten seconds |

## Left out

- LcdCells.ChangedComplete: rows longer than 256 cells, where the column byte wraps; the panel has 16.
- LcdProofs.TurnEnds: not claimed while the slot texts change, since a new text restarts its hold.
- Tft.Run: a failed transfer lands no data, though it may leave the addressing anywhere; transfers that land in part, windows narrower than the panel and initialisation are not modelled.
- Oled.Run: the same failure model; initialisation, which puts the controller in page addressing mode, contrast and power commands are not modelled.
- Sharp.Run: the same failure model; the chip-select settling delays are not modelled.
- ApiModel.CommandBypassedAtMostFiveTimes: counts events, not time; how long a handler takes is an input.
- Debouncer.Debouncer.Feed: the 32-bit counters are required to have room, as they are meant never to wrap; the loop that polls the pin is not modelled.
- Duration.ParseDuration: the error texts are reduced to a kind; 64-bit arithmetic that would overflow is an outcome of its own, since the source does not check it; the printed form is taken on its own, without the text around it.
- WrapLines.GreedyFewest: the measure is a parameter; that a real font meets the sub-run assumption is not proved.
- WebSocket.Serve: the handshake, TLS, logging and the JSON inside messages are not modelled; a socket error ends the stream as a close does.
- Device.Processor.Handle: one input at a time instead of the asynchronous select; the watchdog on silent sessions and the health check enter as lost links or other frames; a closed event channel, which ends the loop, is not modelled.
- LocalStore.LocalStore.FetchCurrentCook: file I/O cannot fail, timestamps are integers, and the title and recipe of the answer come from the journal only.
- StateMachine.SmState.Start: the stages are taken as they are sent; the rewriting of preheat stage ids and the prefixing of ids before that (`recipe.rs`, `protocol/stages.rs`) are not modelled.
- StateMachine.SmState.OnCommand: the check of a control request against the stages is an input (accepted with a control, or refused), since it edits stage JSON; the values of query replies are left out.
- SmModel: request and cook ids come from a counter instead of random UUIDs, so they are fresh by construction; temperatures are reals instead of floats.
- What text to show (`plan_lcd`, `plan_view`), fonts, palettes, web pages and the backlight: no claim of their own.
- The recipe files, the history reader with its limit of fifty, and normalisation of recipes.
- Inference of the active stage from temperatures (`cook_progress.rs`): heuristics with no crisp statement.
- Volatile boot memory, reset causes, metrics, liveness and telemetry: easy members only.
- MQTT, Firestore, HTTP and the web socket library of the server.
