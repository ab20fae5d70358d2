# CSEL1 verification

A Dafny model of the programs and drivers of the CSEL1 embedded Linux labs, with proofs
of what they keep over every run.

`dafny verify dfyconfig.toml` checks the whole project.

## What is modelled

- **The fan controller.** `FanDriver.dfy` is the kernel driver, `Daemon.dfy` the daemon
  with its handlers and its two loops, `FanSystem.dfy` its start on driver and display,
  `FanClient.dfy` the command-line client; `Numerals.dfy` and `Commands.dfy` hold the text
  that passes between them. Their methods are proved against `FanSpec.dfy`, one value and
  one step per completed handler. `FanRuns.dfy` proves what holds over every history of
  handlers: mode agreement, automatic mode, the frequency ladder, when the frequency is
  zero, the power LED, what the replies mean. `FanThreads.dfy` goes below the handlers and
  interleaves the two daemon threads and the kernel between their single accesses, and
  proves that uninterrupted handlers are the steps of `FanSpec.dfy`.
- **The message queues** (`MessageQueues.dfy`). Any number of clients, the daemon and two
  bounded queues, with the buttons, timers and the kernel stepping in between: conservation
  of replies, deadlock freedom, completion, whom a stop strands, order and truth of the
  answers, and who receives which.
- **The display.** `Panel.dfy` is the SSD1306 panel as a decoder of its bus bytes in page
  addressing mode (SSD1306 datasheet, sections 10.1.1 to 10.1.3, 10.1.12 and 10.1.13),
  `Ssd1306.dfy` the driver as methods that send those bytes, `SsdFont.dfy` its font,
  `Display.dfy` the daemon's lines and what can be read of them, on which the daemon's
  handlers write; `LcdMutex.dfy` the threads that write under the mutex, byte by byte.
- **The leaking list** (`AlphaList.dfy`). Heap nodes, links and static counters.
- **The directory walk** (`Names.dfy`, `DirWalk.dfy`). A walk that changes directory,
  against a preorder of the tree.
- **Two LED dimmers** (`TickPwm.dfy`, `PollingPwm.dfy`). One counts timer ticks, the other
  polls a clock.
- **The character driver with one buffer per device** (`MiscDevices.dfy`).
- **The wait/notify threads** (`WaitNotify.dfy`), down to the single accesses of
  wait_event and wake_up.

Places where the code and what it says of itself differ, and the model follows the code:

- The client's help text offers `--stopdaemon`, its option test reads `--stopdaem`; the
  documented spelling sends nothing (`FanClient.RunClient`).
- K2, K1 and set-freq can make the frequency 0, and the driver's timer callback divides by
  it. `FanRuns.TickDefinedExactly` says after exactly which histories,
  `FanRuns.K2MakesTickUndefined` gives one for every positive frequency. A tick at
  frequency 0 itself is outside the model (`FanSpec.Defined`).
- The daemon writes the driver's mode after the variable, from both threads: the two can end
  in disagreement until the next mode command (`FanThreads.OverlapBreaksAgreement`; exactly
  when is in `FanThreads.ModesAgreeExactly` and `FanThreads.InterruptedCommand`). The display
  then shows the daemon's mode (`LcdMutex.PanelFollowsThreads`).
- A shorter frequency or temperature does not erase the end of a longer one on the display
  (`Display.FreqRow`, `Display.TempRow`).
- With several clients at once a client can receive another one's reply
  (`MessageQueues.ConcurrentRepliesCross`): replies go out in the order of the requests, to
  whoever takes them (`MessageQueues.OwnReplyExactly`).
- Requests sent behind a stop command are never answered, and as many clients wait for ever;
  clients that find the queue full behind it are blocked for ever too
  (`MessageQueues.StrandedClients`, `MessageQueues.StrandedForEver`).
- A set-freq that tested the mode just before it turned automatic still overwrites the band
  chosen since (`FanThreads.LateSetFreqBreaksBand`).
- A partial copy from user space is answered with 0 but has already damaged the device's
  content (`MiscDevices.FailedWriteDamages`).

## Model

| member | source | states |
|---|---|---|
| `Numerals.AttributeRoundTrip` | Projet/daemon/daemon.c:659-662 | a printed attribute read through a fixed zeroed window reads back as the number if and only if its text leaves a byte of the window free; otherwise the number has no end |
| `Numerals.KstrtolOfDecimal` | Projet/module_noyau/fan_pwm_driver.c:126-140 | the driver's parser gives back every printed long |
| `Numerals.KstrtolExactly` | Projet/module_noyau/fan_pwm_driver.c:88-101 | the driver's parser accepts exactly an optional sign, digits and an optional newline whose number fits a long, and gives that number |
| `Numerals.DigitsPrinted` | Projet/daemon/daemon.c:349-349 | every digit as it is printed |
| `Numerals.ScanIntOfDecimal` | Projet/app_userspace/main.c:71-76 | the client's scan gives back every printed number, also behind blanks |
| `Commands.ParseOfText` | Projet/daemon/daemon.c:278-310 | every command a client can write is recognised by the daemon with the same number, whatever its buffers for word and number held, and fits them |
| `FanClient.RunClient` | Projet/app_userspace/main.c:46-137 | for every command line: each request is sent if and only if its own option is given with that number, stop only for --stopdaem; nothing is sent exactly without a known option or for modes other than 0 and 1; the client waits exactly when the daemon will answer |
| `FanClient.Request` | Projet/app_userspace/main.c:65-69 | the buffer the client fills has the literal text of the command and parses to it and to no other, and the client waits exactly for the commands that are answered |
| `FanPwmDriver.FanDriver.TimerCallback` | Projet/module_noyau/fan_pwm_driver.c:43-78 | toggles, reprograms from the frequency before the update, and in automatic mode a successful reading gives 2 below 35000, 5 below 40000, 10 below 45000 and otherwise 20; a failed reading and manual mode leave the frequency alone |
| `FanPwmDriver.FanDriver.RunCallbacks` | Projet/module_noyau/fan_pwm_driver.c:35-78 | over any callbacks and failing readings: the first callback shows the trigger's old value and from the second on the LED alternates, the mode stays, in automatic mode the frequency is 2, 5, 10 or 20 by the last successful reading's place among 35000, 40000 and 45000 and in manual mode unchanged, and the interval is set from the frequency that the earlier readings left |
| `FanPwmDriver.HotterNeverSlower` | Projet/module_noyau/fan_pwm_driver.c:63-71 | of two runs in automatic mode the one with the hotter last reading never has the lower frequency |
| `FanPwmDriver.FanDriver.ModeShow` | Projet/module_noyau/fan_pwm_driver.c:109-123 | the character code arithmetic prints the mode as the decimal text of 0 or 1 |
| `FanDaemon.FreqTextRoundTrip` | Projet/daemon/daemon.c:346-351 | a frequency crosses to the driver and back unchanged exactly from -999999999 to the largest int: the range in which its text fits the daemon's 11 bytes both ways |
| `FanDaemon.TempTextRoundTrip` | Projet/daemon/daemon.c:668-671 | a temperature survives the 7-byte read exactly from -99999 to 999999 |
| `FanDaemon.ModeTextRoundTrip` | Projet/daemon/daemon.c:372-385 | the mode survives the 5-byte read |
| `FanDaemon.Daemon.constructor` | Projet/daemon/daemon.c:229-234 | start-up: the display initialised, header and mode on it, a mode that cannot be read counts as automatic |
| `FanDaemon.Daemon.TakeMode` | Projet/daemon/daemon.c:299-304 | own copy, driver and display follow in one mode change; the panel stays where the calls written on it lead |
| `FanDaemon.Daemon.PanelTellsMode` | Projet/daemon/daemon.c:229-234 | after any events since start-up the panel is on and its RAM reads the literal header, Auto mode if and only if the mode is 0 and Manual mode otherwise, and the daemon's frequency and temperature once an event brought them |
| `FanDaemon.Daemon.SetFreq` | Projet/daemon/daemon.c:346-351 | through print, parse and truncation the driver gets exactly the frequency, and nothing else changes |
| `FanDaemon.Daemon.SetMode` | Projet/daemon/daemon.c:358-369 | through print, parse and bool conversion the driver gets manual for every non-zero mode |
| `FanDaemon.Daemon.GetMode` | Projet/daemon/daemon.c:372-385 | reads the driver's mode through its text |
| `FanDaemon.Daemon.KernelTick` | Projet/module_noyau/fan_pwm_driver.c:43-78 | the driver's callback, written with its own comparisons, is the tick of the whole-system step function |
| `FanDaemon.Daemon.TimerHandler` | Projet/daemon/daemon.c:677-684 | refines the timer step: LED off, timer disarmed, no expiry pending |
| `FanDaemon.Daemon.FreqHandler` | Projet/daemon/daemon.c:659-666 | refines the cache refresh through the attribute text, and the panel shows the value |
| `FanDaemon.Daemon.CpuTempHandler` | Projet/daemon/daemon.c:668-675 | refines the temperature refresh; a failed read gives 0 |
| `FanDaemon.Daemon.IncrementFreq` | Projet/daemon/daemon.c:770-784 | one ladder step up from the cached value in manual mode, nothing otherwise |
| `FanDaemon.Daemon.DecrementFreq` | Projet/daemon/daemon.c:786-800 | one ladder step down; at 0 nothing is written, so the driver keeps its value even if the cache is stale |
| `FanDaemon.Daemon.K1Handler` | Projet/daemon/daemon.c:686-702 | refines the K1 step; an unreadable pin counts as pressed |
| `FanDaemon.Daemon.K2Handler` | Projet/daemon/daemon.c:704-720 | refines the K2 step |
| `FanDaemon.Daemon.K3Handler` | Projet/daemon/daemon.c:722-747 | refines the K3 step: LED, toggled copy, driver, display |
| `FanDaemon.Daemon.HandleMessage` | Projet/daemon/daemon.c:273-315 | new state and reply for every received text whose word fits the buffer, known, unknown or blank, and for any leftover content of the buffers |
| `FanDaemon.Daemon.MessageLoop` | Projet/daemon/daemon.c:268-316 | with any handlers of the other thread, timers and kernel ticks between the messages, handles them in order up to the first stop, whatever stands behind it; state and outgoing texts are those of the whole history |
| `FanDaemon.Daemon.HandleBatch` | Projet/daemon/daemon.c:642-654 | any batch of events in any order has the effect of the steps one by one |
| `FanDaemon.Daemon.Meanwhile` | Projet/daemon/daemon.c:642-654 | any events of the other thread, the LED timer and the kernel, in any order, have the effect of the steps one by one |
| `FanSystem.RunDaemon` | Projet/daemon/daemon.c:225-316 | the daemon from start-up on, with the display driver's font: replies and state are those of the whole history, the panel is on and reads the header, Auto mode exactly in mode 0, and the daemon's numbers |
| `FanRuns.ModeAgreement` | Projet/daemon/daemon.c:299-304 | over every history daemon and driver agree on the mode if and only if they did at first or a mode command has completed |
| `FanRuns.ModeAgreementFromStart` | Projet/daemon/daemon.c:233-234 | from start-up they agree exactly when the mode could be read, was automatic, or has been commanded since |
| `FanRuns.K3Alternates` | Projet/daemon/daemon.c:733-737 | without a set-mode, K3 alternates between the modes 0 and 1 |
| `FanRuns.ModeSinceSetMode` | Projet/daemon/daemon.c:299-301 | after the last set-mode the mode is its value or the other one, by the parity of the K3 presses since |
| `FanRuns.ModesFromStart` | Projet/daemon/daemon.c:233-234 | from start-up, as long as only 0 and 1 are commanded, the mode is 0 or 1, and without a command given by the parity of K3 and the driver's mode at first |
| `FanRuns.K3ThenLadder` | Projet/daemon/daemon.c:722-747 | after K3 in automatic mode the fresh presses move along the ladder from where automatic mode left the frequency |
| `FanRuns.K3ThenSetFreq` | Projet/daemon/daemon.c:284-292 | before that K3 a set-freq is answered AUTO, after it OK, and it is read back after the next refresh |
| `FanRuns.OtherModesFreeze` | Projet/daemon/daemon.c:770-800 | in a mode other than 0 and 1 no button, no set-freq and no reading moves the frequency |
| `FanRuns.ReadYourWrites` | Projet/daemon/daemon.c:299-309 | after set-mode v and no later mode command, get-mode's reply reads back as v |
| `FanRuns.GetFreqReadsLastRefresh` | Projet/daemon/daemon.c:294-297 | get-freq reads as the driver's frequency at the last refresh, however stale |
| `FanRuns.GetTempReadsLastReading` | Projet/daemon/daemon.c:310-314 | get-temp reads as the last reading, 0 after a failed one |
| `FanRuns.SetFreqReadsBack` | Projet/daemon/daemon.c:284-297 | a set-freq answered OK is what get-freq reads after the next refresh, if nothing else sets frequency or mode |
| `FanRuns.DisplayedMode` | Projet/daemon/daemon.c:417-425 | the last mode written on the display is always the daemon's mode |
| `FanRuns.DisplayedNumbers` | Projet/daemon/daemon.c:659-675 | after every history with a frequency event the last frequency written on the display is the daemon's, and after any with a temperature event the last temperature |
| `FanRuns.AlwaysUpToDate` | Projet/daemon/daemon.c:659-675 | no history leaves a line on the display stale |
| `FanRuns.AutoModeFreezes` | Projet/daemon/daemon.c:770-800 | while the mode stays automatic and no reading succeeds, no command and no button changes the frequency |
| `FanRuns.AutoModeHistory` | Projet/module_noyau/fan_pwm_driver.c:50-76 | after a successful reading the frequency is 2, 5, 10 or 20 by its place among 35000, 40000 and 45000 until the next one or a mode change, across any number of failed readings |
| `FanRuns.PowerLed` | Projet/daemon/daemon.c:677-767 | over every order of presses, releases, expiries and timer events the LED is lit exactly when a press came after the last timer event, and exactly when its timer is running or has an unhandled expiry |
| `FanRuns.LadderBijection` | Projet/daemon/daemon.c:770-800 | the ladder is in bijection with the naturals; the buttons move one rung |
| `FanRuns.ButtonsUndoEachOther` | Projet/daemon/daemon.c:770-800 | decrement undoes increment on the ladder, increment undoes decrement above 0 |
| `FanRuns.StepWidth` | Projet/daemon/daemon.c:770-800 | at every frequency, on the ladder or not, a button moves by the width of the gap between the rungs around it; below 0 K1 moves by one |
| `FanRuns.LadderCounts` | Projet/daemon/daemon.c:686-720 | in manual mode, with other events in between, any word of fresh presses is a saturating counter on the ladder |
| `FanRuns.FreshK2ReachesZero` | Projet/daemon/daemon.c:786-800 | from any non-negative frequency, on the ladder or not, every fresh K2 press lowers it until it is 0 |
| `FanRuns.ZeroFreqExactly` | Projet/module_noyau/fan_pwm_driver.c:43-48 | over every history the driver's frequency is zero if and only if an event (set-freq 0, K1 at a cached -1, K2 at a cached 1, each in mode 1) set it to zero and none set it later, or it was zero at first and none set it at all |
| `FanRuns.TickDefinedExactly` | Projet/module_noyau/fan_pwm_driver.c:43-48 | so from a frequency other than zero the timer callback divides by zero after exactly the histories that leave zero behind |
| `FanRuns.K2MakesTickUndefined` | Projet/daemon/daemon.c:786-800 | from every positive frequency in manual mode, as many fresh K2 presses are such a history |
| `FanThreads.FrequencySafety` | Projet/daemon/daemon.c:642-666 | every interleaving of single accesses of the two threads and the kernel callback keeps all frequencies, also those under way, inside any set closed under the buttons and the bands |
| `FanThreads.LadderSafety` | Projet/daemon/daemon.c:770-800 | set-freq values on the ladder keep driver and cache on the ladder, however stale the cache |
| `FanThreads.NonNegativeFrequencies` | Projet/daemon/daemon.c:786-800 | non-negative set-freq values keep driver and cache non-negative |
| `FanThreads.AloneIsHandle` | Projet/daemon/daemon.c:659-747 | a handler taken access by access without interruption is the step of its event, wherever the other threads stand |
| `FanThreads.OneByOneIsRun` | Projet/daemon/daemon.c:642-654 | so uninterrupted handlers in a row are the histories of completed handlers |
| `FanThreads.ModesAgreeExactly` | Projet/daemon/daemon.c:299-304 | in every interleaving daemon and driver agree on the mode if and only if the daemon's mode is zero now exactly when it was as the argument of the latest completed attribute write was passed |
| `FanThreads.InterruptedCommand` | Projet/daemon/daemon.c:299-304 | a set-mode command interrupted after the argument was passed, by any handlers: ends in agreement if and only if K3 is pressed an even number of times among them, and in the commanded mode or the other one by the same parity |
| `FanThreads.DisplayedModeInterleaved` | Projet/daemon/daemon.c:302-304 | in every interleaving, whenever the threads rest, the last mode written on the display is the daemon's, even where the driver disagrees |
| `FanThreads.DisplayedNumbersInterleaved` | Projet/daemon/daemon.c:662-665 | in every interleaving, whenever the threads rest after a frequency handler has begun, the last frequency written is the daemon's, and likewise for the temperature |
| `FanThreads.UpToDateInterleaved` | Projet/daemon/daemon.c:662-674 | in every interleaving, whenever the threads rest, no line on the display is stale |
| `FanThreads.ModesAgreeWithoutOverlap` | Projet/daemon/daemon.c:299-304 | mode changes of the two threads that do not overlap leave daemon and driver in agreement |
| `FanThreads.OverlapBreaksAgreement` | Projet/daemon/daemon.c:733-739 | a K3 press inside a set-mode command leaves daemon and driver in disagreement, from every quiet state |
| `FanThreads.BandSurvives` | Projet/module_noyau/fan_pwm_driver.c:50-76 | in every interleaving without manual mode, from a moment when no button and no message has a frequency under way, the frequency is the band of the callback's latest completed reading |
| `FanThreads.LateSetFreq` | Projet/daemon/daemon.c:284-288 | a set-freq that saw manual mode overwrites whatever any other handlers did before its write, also a band chosen meanwhile |
| `FanThreads.LateSetFreqBreaksBand` | Projet/daemon/daemon.c:284-288 | after K3 and a reading inside such a set-freq, daemon and driver are in automatic mode and the band survives if and only if it is the same frequency |
| `MessageQueues.Conservation` | Projet/daemon/daemon.c:249-316 | in every run of any number of clients, as many clients wait as there are replies queued, answerable requests queued and a reply being sent |
| `MessageQueues.NoDeadlock` | Projet/daemon/daemon.c:268-316 | with conservation and no stop, no step is enabled if and only if nothing is outstanding |
| `MessageQueues.DeadlockFreedom` | Projet/daemon/daemon.c:249-316 | so in every run without a stop command the protocol can always go on until all clients are served |
| `MessageQueues.BoundedWork` | Projet/daemon/daemon.c:268-316 | without new clients the protocol takes at most a computed number of steps, whatever happens outside |
| `MessageQueues.Completion` | Projet/daemon/daemon.c:249-316 | after any run without a stop, the protocol's own steps in any order are at most Work many and come to a halt exactly when every client is served |
| `MessageQueues.StrandedClients` | Projet/daemon/daemon.c:249-316 | in every run that cannot go on, as many clients wait for a reply as answerable requests were sent behind the first stop, and as many are blocked in sending as the handled requests and the full queue leave over |
| `MessageQueues.NobodyStrandedExactly` | Projet/daemon/daemon.c:249-316 | so every client is finished if and only if no answerable request stands behind a stop and there are at most as many clients as handled requests and queue places |
| `MessageQueues.AlwaysStopsOnce` | Projet/daemon/daemon.c:268-316 | in every run the daemon has stopped exactly when the last request it handled was the first stop |
| `MessageQueues.StrandedForEver` | Projet/daemon/daemon.c:268-316 | once the daemon has stopped and its replies are taken, nothing that follows serves a waiting client, nor one sending to a full queue |
| `MessageQueues.StopStrandsClients` | Projet/daemon/daemon.c:282-283 | a run in which a client that asks behind a stop waits for ever |
| `MessageQueues.StopBlocksSenders` | Projet/app_userspace/main.c:51-51 | a run in which no answerable request was sent behind a stop and yet the eleventh client is blocked in sending for ever |
| `MessageQueues.AnswersAreHonest` | Projet/daemon/daemon.c:273-314 | requests are handled in the order sent, and every answer anywhere is the reply, in the state of its turn, to the request it names |
| `MessageQueues.GetModeReadsLastSetMode` | Projet/daemon/daemon.c:299-309 | for any number of clients and any delay, the answer to a get-mode reads as the last mode sent before it unless K3 was pressed in between |
| `MessageQueues.RepliesInSendingOrder` | Projet/app_userspace/main.c:46-120 | in every run the k-th reply taken, by whichever client, answers the k-th answerable request sent |
| `MessageQueues.OwnReplyExactly` | Projet/app_userspace/main.c:46-120 | so the client of the k-th take receives its own answer if and only if it sent the k-th answerable request |
| `MessageQueues.NextTakeExactly` | Projet/app_userspace/main.c:54-57 | before the step: a client about to take a reply gets its own if and only if its request is the next answerable one in sending order |
| `MessageQueues.RepliesMatch` | Projet/app_userspace/main.c:46-120 | when clients run one after another, every reply received answers the receiver's own request |
| `MessageQueues.ReceivedIsOwn` | Projet/app_userspace/main.c:46-120 | what a client holds at the end of such a run is the answer to its own request |
| `MessageQueues.ConcurrentRepliesCross` | Projet/app_userspace/main.c:64-77 | with two clients at once, one can receive the other's answer |
| `OledPanel.LastIn` | Projet/daemon/ssd1306.c:196-200 | the character that remains in a column is the last one that lands there under wrap-around |
| `OledPanel.CellOfWithCell` | Projet/daemon/ssd1306.c:184-194 | writing a cell changes that cell and no other |
| `OledPanel.TextWrittenAppend` | Projet/daemon/ssd1306.c:196-200 | one more character extends written text by one, over what is there |
| `OledPanel.OneReading` | Projet/daemon/ssd1306.c:24-121 | a row reads as one text only, up to blanks at its end: all glyphs differ |
| `Ssd1306.PositionEffect` | Projet/daemon/ssd1306.c:177-182 | the three command bytes move the cursor to the cell, for every row and column of the grid |
| `Ssd1306.PutcEffect` | Projet/daemon/ssd1306.c:184-194 | the eight data bytes fill the cursor's cell and step to the next, from the last to the first |
| `Ssd1306.PutsEffect` | Projet/daemon/ssd1306.c:196-200 | a string lands character by character in its row, wrapping, the later character winning, all else unchanged |
| `Ssd1306.TextAtEffect` | Projet/daemon/ssd1306.c:177-200 | positioning and then putting a string, for every row, column and string |
| `Ssd1306.SettingsKeepCursor` | Projet/daemon/ssd1306.c:124-151 | a command list read with its arguments leaves the cursor alone, whatever the argument bytes would mean as commands |
| `Ssd1306.InitEffect` | Projet/daemon/ssd1306.c:124-151 | the initialisation bytes move the cursor to the origin and leave the display on |
| `Ssd1306.ClearEffect` | Projet/daemon/ssd1306.c:202-212 | clearing leaves a dark RAM, the cursor at the origin and the display on, from any RAM |
| `Ssd1306.Oled.SetPosition` | Projet/daemon/ssd1306.c:177-182 | sends the position bytes and so moves the cursor |
| `Ssd1306.Oled.Putc` | Projet/daemon/ssd1306.c:184-194 | the loop sends the glyph of the character, a blank for unprintable ones |
| `Ssd1306.Oled.Puts` | Projet/daemon/ssd1306.c:196-200 | the loop writes the text into the row from the cursor on |
| `Ssd1306.Oled.ClearDisplay` | Projet/daemon/ssd1306.c:202-212 | the nested loops send exactly the clearing bytes |
| `Ssd1306.Oled.Init` | Projet/daemon/ssd1306.c:214-233 | from any RAM and cursor: dark, on and at the origin, or nothing sent and -1 |
| `SsdFont.IsFont` | Projet/daemon/ssd1306.c:24-121 | the font has 96 rows of 8 bytes, all different, the blank's dark |
| `SsdFont.GlyphUnderCode` | Projet/daemon/ssd1306.c:184-194 | every printable character has the row its code points to in the table, every other is a blank |
| `Display.LcdWriteHeader` | Projet/daemon/daemon.c:394-401 | the panel runs the bytes of the three header lines |
| `Display.LcdWriteFreq` | Projet/daemon/daemon.c:403-408 | the panel runs the bytes of the frequency line |
| `Display.LcdWriteTemp` | Projet/daemon/daemon.c:410-415 | the panel runs the bytes of the temperature line |
| `Display.LcdWriteMode` | Projet/daemon/daemon.c:417-425 | the panel runs the bytes of the mode line |
| `Display.CallsShow` | Projet/daemon/daemon.c:394-425 | after any calls on a dark display, with numbers of any length, every cell shows the latest character that landed there |
| `Display.RowOfCallsExactly` | Projet/daemon/daemon.c:403-415 | a row whose texts end visibly reads exactly its last text if and only if no longer one was written there |
| `Display.HeaderStays` | Projet/daemon/daemon.c:394-401 | rows 0 to 2 read the header for ever |
| `Display.ModeRow` | Projet/daemon/daemon.c:417-425 | row 3 always reads exactly the last mode text |
| `Display.ModeReads` | Projet/daemon/daemon.c:417-425 | row 3 reads Auto mode if and only if the mode is 0, Manual mode otherwise |
| `Display.FreqRow` | Projet/daemon/daemon.c:403-408 | row 4 reads exactly the last frequency if and only if no frequency with more characters was shown |
| `Display.TempRow` | Projet/daemon/daemon.c:410-415 | row 5 likewise for temperatures |
| `Display.FreqReads` | Projet/daemon/daemon.c:403-408 | the row of the last frequency written begins with its literal text, whatever stood there, and reads exactly it if and only if no longer one was shown |
| `Display.TempReads` | Projet/daemon/daemon.c:410-415 | likewise for the temperature |
| `Display.CallsTell` | Projet/daemon/daemon.c:394-425 | where every cell shows its latest character and no line is stale, the panel tells header, mode and numbers |
| `Display.DisplayFollowsDaemon` | Projet/daemon/daemon.c:229-234 | from a dark panel, after any events and with numbers of any length, the bytes of the daemon's calls leave the literal header, its mode and, once an event brought them, its frequency and temperature readable |
| `LcdMutex.AlwaysSerial` | Projet/daemon/daemon.c:302-304 | in every interleaving at most one thread writes, and the panel is where the completed calls and the first bytes of the current one lead |
| `LcdMutex.Serialisable` | Projet/daemon/daemon.c:663-665 | whenever the mutex is free the panel is as if the calls had run whole in the order of their locks |
| `LcdMutex.InterleavedDisplay` | Projet/daemon/daemon.c:672-674 | so every interleaving leaves the header, the last mode text and in each cell its latest character |
| `LcdMutex.PanelAfterThreads` | Projet/daemon/daemon.c:302-304 | after any interleaving of the daemon's threads, once they rest, the RAM that their calls leave reads the header, the daemon's mode and its numbers |
| `LcdMutex.PanelFollowsThreads` | Projet/daemon/daemon.c:302-304 | the same with the bytes of those calls interleaved too: the panel itself reads the header, Auto mode exactly in the daemon's mode 0, whatever the driver's is, and the daemon's numbers |
| `AlphaList.LeakyList.FindLast` | environment/memory_leaks/mem_leaks.c:55-56 | the traversal ends at the last node |
| `AlphaList.LeakyList.LinkLast` | environment/memory_leaks/mem_leaks.c:55-57 | hangs a new node behind the last one; no other link and no attribute changes |
| `AlphaList.LeakyList.Append` | environment/memory_leaks/mem_leaks.c:49-58 | a fresh last node; attributes and order of the others stay |
| `AlphaList.LeakyList.Alloc1` | environment/memory_leaks/mem_leaks.c:45-59 | appends its own counter's value and advances that counter only |
| `AlphaList.LeakyList.Alloc2` | environment/memory_leaks/mem_leaks.c:61-75 | likewise with the other counter |
| `AlphaList.LeakyList.Alloc` | environment/memory_leaks/mem_leaks.c:77-85 | alternates between the two and keeps the invariant |
| `AlphaList.LeakyList.Dealloc` | environment/memory_leaks/mem_leaks.c:87-92 | unlinks and frees the head, once; nothing on an empty list |
| `AlphaList.LeakyList.RunCalls` | environment/memory_leaks/mem_leaks.c:77-92 | any mix of calls keeps the invariant and the tally of allocations and effective removals |
| `AlphaList.LeakyList.ContentsAreCounted` | environment/memory_leaks/mem_leaks.c:45-92 | the list holds exactly i/2 for the allocations not removed, in order |
| `AlphaList.LeakyList.WalkIsAcyclic` | environment/memory_leaks/mem_leaks.c:100-106 | a walk from the root never repeats a node, never meets a freed one, and ends |
| `AlphaList.LeakyList.NothingLost` | environment/memory_leaks/mem_leaks.c:87-92 | every node ever allocated is reachable or was freed, never both, and no node is freed twice |
| `AlphaList.LeakDemo` | environment/memory_leaks/mem_leaks.c:94-111 | the program leaves 3985 nodes with attributes 7 to 1999 |
| `Names.SortedListUnique` | environment/code_exemples/ls_exemple.c:148-149 | the strcmp-sorted list of a directory's names is unique |
| `Names.BelowExactly` | environment/code_exemples/ls_exemple.c:148-149 | the order: at the first difference the smaller character, or the end of the name, comes first |
| `Names.Qsort` | environment/code_exemples/ls_exemple.c:148-149 | a sorted permutation in place |
| `DirWalk.Walker.CountEntries` | environment/code_exemples/ls_exemple.c:123-132 | the first pass counts the entries in whatever order they come |
| `DirWalk.Walker.ReadEntries` | environment/code_exemples/ls_exemple.c:134-146 | the second pass fills exactly the counted slots with exactly the names |
| `DirWalk.Walker.ScanDir` | environment/code_exemples/ls_exemple.c:118-179 | the walk prints the preorder of the tree below the current directory and restores the current directory |
| `DirWalk.Walker.ScanSubdirs` | environment/code_exemples/ls_exemple.c:159-178 | the descending loop prints the subdirectories' preorders in order and comes back after each |
| `DirWalk.EachDirectoryOnce` | environment/code_exemples/ls_exemple.c:159-178 | the header of a path is printed once if it is the path of a reachable directory, otherwise never |
| `DirWalk.EntriesAreSorted` | environment/code_exemples/ls_exemple.c:148-157 | a directory's lines are strictly ascending: each entry that stat finds and no other |
| `DirWalk.FlatWalk` | environment/code_exemples/ls_exemple.c:118-161 | not recursively: exactly the directory's header and, if it can be read, its entries in strictly ascending order, each that stat finds and no other |
| `DirWalk.RecursiveLayout` | environment/code_exemples/ls_exemple.c:159-178 | recursively: the same lines, directly followed by the recursive walks of the subdirectories in ascending order, each in one piece; none below an unreadable directory |
| `TickPwm.Dimmer.SetupTimer` | environment/Ex5_1_sysfs_gpio/main.c:280-307 | a hundred programmed intervals are exactly the period, with a proper nanosecond field |
| `TickPwm.Dimmer.HandleTimer` | environment/Ex5_1_sysfs_gpio/main.c:309-325 | refines the tick |
| `TickPwm.Dimmer.HandleEvents` | environment/Ex5_1_sysfs_gpio/main.c:197-221 | any events in any order refine the step function and keep the timer programmed for the period |
| `TickPwm.LitWhileBelowDuty` | environment/Ex5_1_sysfs_gpio/main.c:309-325 | with a duty of 1 to 100 the LED is lit exactly while the count is below the duty, whatever buttons are pressed |
| `TickPwm.ExactDutyCycle` | environment/Ex5_1_sysfs_gpio/main.c:309-325 | of the first N tick intervals exactly N/100*duty + min(N%100, duty) are lit |
| `TickPwm.DutyRange` | environment/Ex5_1_sysfs_gpio/main.c:309-325 | 1 to 100 are exactly the duties for which that holds in every run |
| `TickPwm.PeriodBounds` | environment/Ex5_1_sysfs_gpio/main.c:327-365 | a positive period stays positive, bounded, and in its residue or that of the default |
| `TickPwm.DefaultPeriod` | environment/Ex5_1_sysfs_gpio/main.c:327-365 | from 250 ms the period is always 50 mod 100, within 50..60050 |
| `TickPwm.PeriodCounts` | environment/Ex5_1_sysfs_gpio/main.c:327-365 | within the bounds every K1 lengthens the period by 100 ms and every K3 shortens it by as much |
| `TickPwm.PeriodCountsExactly` | environment/Ex5_1_sysfs_gpio/main.c:327-365 | every press so far had that effect if and only if the period would have stayed above 0 and below 60.1 s |
| `TickPwm.PeriodSinceK2` | environment/Ex5_1_sysfs_gpio/main.c:340-350 | K2 returns to 250 ms, from where K1 and K3 count again |
| `PollingPwm.Poller.Sample` | environment/code_exemples/led_exemple.c:84-100 | a phase ends exactly when the true clock difference has reached its target |
| `PollingPwm.Poller.Poll` | environment/code_exemples/led_exemple.c:83-101 | for any clock that does not run backwards and is read at least every gap, every phase lasts its target and at most the gap more |
| `PollingPwm.CyclesOnTime` | environment/code_exemples/led_exemple.c:73-101 | n full cycles take between n periods and n periods with two gaps each |
| `PollingPwm.LitTwoPercent` | environment/code_exemples/led_exemple.c:67-101 | in n cycles the LED is lit for at least two percent of the n periods, and at most a poll gap longer in each |
| `MiscDevices.OpenFile.Read` | Pilote_ex2/ex6_dtb/skeleton.c:69-95 | all or nothing: the whole content, or nothing for small buffers, late positions and failed copies |
| `MiscDevices.OpenFile.Write` | Pilote_ex2/ex6_dtb/skeleton.c:102-134 | every branch: refused sizes change nothing, a complete copy of 1 to 1023 bytes stores the data with a NUL, a partial one leaves a damaged buffer with the old size |
| `MiscDevices.HoldsLastWrite` | Pilote_ex2/ex6_dtb/skeleton.c:102-134 | over any operations on any files, with failing copies elsewhere, each device whose writes are copied whole holds the last of them |
| `MiscDevices.ReadReturnsLastWrite` | Pilote_ex2/ex6_dtb/skeleton.c:69-95 | a read far enough back with room enough returns exactly that |
| `MiscDevices.NextRead` | Pilote_ex2/ex6_dtb/skeleton.c:77-91 | the next read on a file delivers something if and only if the content has meanwhile grown (and fits); otherwise it is the end of file |
| `MiscDevices.FailedWriteDamages` | Pilote_ex2/ex6_dtb/skeleton.c:123-127 | when a failed write, answered with 0, leaves the old content intact |
| `MiscDevices.RunOps` | Pilote_ex2/ex6_dtb/skeleton.c:69-134 | any operations on any open files leave every buffer, size and position on the heap as the model says, because no two devices share a buffer; the answers are the model's |
| `MiscDevices.Platform.Session` | Pilote_ex2/ex6_dtb/skeleton.c:145-200 | from the device tree on: probe, open files, operate; the answers are those of as many empty, separate devices |
| `MiscDevices.Platform.CountDeviceOn` | Pilote_ex2/ex6_dtb/skeleton.c:247-275 | counts the available children that are on |
| `MiscDevices.OnChildrenExactly` | Pilote_ex2/ex6_dtb/skeleton.c:178-190 | taken are exactly the available children with the attribute on, each as often as it is there |
| `MiscDevices.Platform.RegisterAll` | Pilote_ex2/ex6_dtb/skeleton.c:178-197 | the fill index stays in the counted array; registers the children in order up to the first failure |
| `MiscDevices.Platform.Probe` | Pilote_ex2/ex6_dtb/skeleton.c:145-200 | a successful probe registers exactly the children that are on, in order, one entry each, under exactly the names of the available children whose attribute is on; a failed one stops at the first bad registration |
| `MiscDevices.Platform.Remove` | Pilote_ex2/ex6_dtb/skeleton.c:203-215 | deregisters the array's devices, all of them and no others |
| `MiscDevices.Platform.ProbeAndRemove` | Pilote_ex2/ex6_dtb/skeleton.c:145-215 | remove undoes a successful probe |
| `WaitNotify.SafeRun` | modules_Ex/module_sommeil_5/skeleton.c:20-45 | the invariant of every interleaving: no lost wake-up, stop flags in order, each return with a notification of its own |
| `WaitNotify.ReturnsNeverOutnumberNotifications` | modules_Ex/module_sommeil_5/skeleton.c:20-45 | waits never return more often than the flag was raised |
| `WaitNotify.WaiterNeverAbandoned` | modules_Ex/module_sommeil_5/skeleton.c:77-92 | while the waiter has not exited the notifier has not been asked to stop |
| `WaitNotify.Progress` | modules_Ex/module_sommeil_5/skeleton.c:77-92 | once exit has begun, no step raises the rank and the helpful thread's next step lowers it |
| `WaitNotify.ShutdownTerminates` | modules_Ex/module_sommeil_5/skeleton.c:77-92 | as many fair rounds as the rank end the shutdown with both threads gone |
| `WaitNotify.EveryShutdownTerminates` | modules_Ex/module_sommeil_5/skeleton.c:77-92 | eighteen fair rounds suffice from every reachable state |
| `WaitNotify.OtherOrderExactly` | modules_Ex/module_sommeil_5/skeleton.c:77-92 | with the stops the other way round, once the notifier is gone some schedule lets the waiter exit if and only if it does not stand before a lowered flag |
| `WaitNotify.OtherOrderHangs` | modules_Ex/module_sommeil_5/skeleton.c:81-86 | had the notifier been stopped first: a run in which the waiter waits, the notifier leaves before it raises the flag, and no continuation lets the exit return |

## Left out

- Daemonisation, signals, logging, fork, chroot and user switching, GPIO export, epoll registration, I2C and sysfs opening: system-call plumbing. Writes to GPIO, timers and the bus succeed.
- 32-bit wrap-around of the frequency ladder: `FanSpec` and `FanThreads` use mathematical integers; the daemon's methods require the printed value to fit (`FanSpec.Defined`), so `cur_freq + 50` beyond the largest int is outside them.
- Length of the daemon's display text buffers (15 bytes): texts are unbounded sequences. A frequency of four digits or a temperature of five makes 15 characters and a NUL, one more than its buffer holds.
- FreqRow: the exact condition is for texts of at most 16 characters; longer ones wrap onto their own beginning, and the daemon's 15-byte buffer cannot hold them. What they leave in each cell is in `CallsShow`.
- TempRow: likewise.
- FreqReads: that the row begins with the text is stated for numbers that fit 16 characters; what longer ones leave in each cell is in `CallsShow`.
- TempReads: likewise.
- ReadYourWrites: the history is one of completed handlers; a K3 press inside a set-mode command is in `FanThreads`.
- `FanThreads` writes a call on the display as a whole between lock and unlock; its bytes are interleaved in `LcdMutex`.
- RunClient: a missing number after `--set-freq` or `--set-mode` is required to be present, since the program reads past its arguments without it.
- HandleMessage: a word of 20 or more characters overruns the daemon's buffer; such messages are outside its contract. Stray text behind a message's NUL, up to the message size, is not part of the text.
- MessageQueues: receive timeouts, queue removal at exit and queues that cannot be opened. Messages are commands there; their text is in `Commands`.
- The horizontal and vertical addressing modes, scrolling and the lit picture of the panel: the driver never selects them, and the picture is a function of the RAM. Of the panel's settings only display on and off is followed; contrast, geometry and power are consumed.
- Two-byte bus transfers are indivisible, as one write on the I2C bus.
- Directory symlinks, directories that cannot be entered, and directories that change during the walk. Entries that stat fails on and unreadable directories are modelled. `qsort` is modelled by a selection sort, and the printed line of an entry by its name.
- Qsort: sorted and a permutation; the library's own algorithm and stability are not modelled.
- mode2str, mode2filetype and time2str of the directory listing: finite tables.
- Duty values outside 1..100 of the tick dimmer beyond `TickPwm.DutyRange`, and negative periods.
- A partial copy from user space follows the kernel's rule of zeroing the part not copied; older kernels without it are not modelled.
- The kernel's list of misc devices is a sequence; a failed probe leaves its earlier registrations there, as the code does.
- Signals reaching the kernel threads, and time: a sleep is a step that ends.
- The polling dimmer's 64-bit nanosecond arithmetic is over mathematical integers.
- Pilote_ex2/ex2, ex3, ex5, ex7 and modules_Ex/module_mem_lib_2, fibonacci, host counter, gcov, gprof and core-dump demos: earlier drafts of the modelled drivers, and programs of a few lines without state to keep.
