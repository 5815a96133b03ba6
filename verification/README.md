# Verification of the ESP32 system's protocol and buffer code

This project models the parts of the ESP32 system that carry state, concurrency or
arithmetic of their own, and proves what they promise. `dafny verify dfyconfig.toml`
checks all of it.

- `SnifferLifecycle`, `SnifferGuarantees`, `SnifferProgress`, `SnifferStops`,
  `SnifferStopEnds`, `SnifferStopFails`, `SnifferStopWaits`, `SnifferWindow`,
  `SnifferSafety`, `SnifferPackets`, `SnifferCommands`, `SnifferHazards`: packet captures as
  a transition system of atomic steps of three threads. The driver callback copies packets into a bounded queue, the sniffer
  task drains it, the console starts and stops both, and stop and task shake hands over a
  binary semaphore. A run is any interleaving; a disciplined run keeps the conditions named
  at `Disciplined`, and `Discipline` lists the weaker conditions of the other results.
- `FilterTable`, `FilterUnion`: the completely full hash table of filter names and the
  filter word that the `-F` options add up to.
- `PcapSession`: the flags of the pcap session under the sniffer, for all three
  destinations, and every command and failure that changes them.
- `EspNowFrame`, `EspNowNode`, `EspNowProtocol`, `EspNowGuarantees`, `EspNowTurns`: the
  ESPNOW example:
  the frame codec, one device's event loop as a class and as step functions, and two
  devices over a channel that loses, duplicates and reorders frames.
- `CertBundle`: the certificate bundle index and its binary search.
- `WifiStream`, `WifiClient`: the receive buffer of the TCP client against the byte
  stream it caches, and the write loop.
- `NeighborReport`, `NeighborText`: the Neighbor Report parser (Neighbor Report element,
  section 9.4.2.37 of IEEE 802.11-2016) and the text it prints.
- `HandlerRegistry`: the smallest free id for a registered handler.
- `WifiMulti`: the choice of the best known access point.
- `Ipv4`, `DhcpLease`: subnet arithmetic and the DHCP lease range.
- `WifiUdp`: splitting a packet into datagrams.
- `HexLine`: the hex line decoder.
- `Words`, `Bits`, `Pigeonhole`: integers, bitwise operators and counting arguments.

Code that updates objects or buffers in place is a class or a method on arrays, and each
such method is proved equal to a step function on values; the lemmas over runs are about
these functions. Answers of the kernel, the driver, the allocator, sockets and the file
system are parameters. The CRC and the signature check are arbitrary functions.

Where the code does not meet what it promises, the exact condition is proved instead:

- A console stop during a limited capture can wait for ever
  (`StopDuringLimitedCaptureCanDeadlock`) or meet the stop of the task itself, so that both
  delete the semaphore (`OverlappingStopsDeleteTwice`). In any run, a stop that clears
  `is_running` ends well if and only if it leaves the clean state of `StopEndsWellIff`. When
  no start asks for a limit of 0, none comes during a limited capture or, with a limit,
  while a task is left, and a task that stops itself has its driver call succeed, this is
  clearing it in the window of `AnyStopEndsWellIff`; without the conditions on starts the
  window is not enough, because the task of an older capture can give the semaphore of the
  newer one (`StrayGiveEndsBadly`).
- A limit of 0, and a second start command during a limited capture or with a limit, can
  misuse a handle or lose a packet copy (`LimitsAreSafeIff`).
- A sniffer start that fails after the pcap session began leaves the session unusable
  until restart (`CanCaptureAgainIff`), and a second open loses the pcap header
  (`HeaderLostExactlyByReopening`).
- An option named twice selects other filters than the named one (`FilterIsUnionIff`).
- ESPNOW devices with equal magic numbers both turn to unicasts: the code compares with
  `>=` where the example's own documentation says bigger
  (`NeverBothUnicastIffMagicsDiffer`).
- The neighbor text fits its buffer only for ten elements (`TextFitsIffTen`).
- A scan of more than 127 networks is cut or ignored (`PickIsRightIff`).
- The DHCP range is unusable for some local addresses under mask octets from 232 to 253
  (`AlwaysUsableIff`).
- A short read of the TCP client can leave bytes in its buffer (`ReadLeavesIff`).
- A field of one hex digit keeps a part of the old buffer (`IndependentIff`).

## Model

| member | source | states |
|---|---|---|
| SnifferLifecycle.RunKeepsInv | Extensions/Network/esp-idf examples/simple_sniffer/main/cmd_sniffer.c:170-320 | over every disciplined run (any interleaving of driver callback, sniffer task and console command, under the conditions at `Disciplined`) the handles, the phase of both threads and the place of every packet copy stay consistent |
| SnifferSafety.CaptureSafety | Extensions/Network/esp-idf examples/simple_sniffer/main/cmd_sniffer.c:115-320 | in runs with starts that are disciplined (none asks for a limit of 0, none comes during a limited capture or, with a limit, while a task is left) and driver calls that succeed when a task stops itself, and with console stops at any time that clear `is_running` only in their window: no null or deleted queue or semaphore is used, nothing is freed twice, every allocated copy is in exactly one place (freed, queued or held), and at most one sniffer task is in its capture loop |
| SnifferSafety.StrictIsOrderly | Extensions/Network/esp-idf examples/simple_sniffer/main/cmd_sniffer.c:201-230 | in a disciplined run, which keeps those start conditions, every console stop clears `is_running` in its window, so that these guarantees cover it |
| SnifferSafety.OrderlyStopsEndWell | Extensions/Network/esp-idf examples/simple_sniffer/main/cmd_sniffer.c:201-250 | under the conditions of `CaptureSafety`, each such stop, once it has cleared `is_running`, ends in every continuation without a fault, without blocking and with every copy freed once |
| SnifferStops.AnyStopLosesNothing | Extensions/Network/esp-idf examples/simple_sniffer/main/cmd_sniffer.c:115-320 | with the same conditions on starts and driver, and console stops at any time at all, even two stops at once, no copy is lost or freed twice and at most one task is in its capture loop |
| SnifferStopWaits.StopEndsWellIff | Extensions/Network/esp-idf examples/simple_sniffer/main/cmd_sniffer.c:170-320 | the exact condition for a console stop in any run whatever, with any starts, limits, stops and failures: from the step that clears `is_running` every continuation is finite and ends without a fault, without blocking and with every copy freed once, if and only if that step leaves a clean state: queue and semaphore exist, every copy is in one place, and either no task of any capture will use a handle or packet and the console will not wait, or the console will wait and exactly one task is left, which will give |
| SnifferWindow.AnyStopEndsWellIff | Extensions/Network/esp-idf examples/simple_sniffer/main/cmd_sniffer.c:170-250 | in runs with the start and driver conditions of `CaptureSafety` and console stops at any time, this is so if and only if queue and semaphore exist, the task is not stopping itself, and it does not have the last wanted packet before it |
| SnifferWindow.WaitingStopIsNeverWokenIff | Extensions/Network/esp-idf examples/simple_sniffer/main/cmd_sniffer.c:189-231 | in the same runs, when a stop waits: in every continuation in which the task has run to its end and the stop still waits, no event is possible if and only if, in the state it continues, the limit is 0, or it is 1 with one packet before the task; and there is such a continuation |
| SnifferWindow.WaitingStopHangsExactlyWhen | Extensions/Network/esp-idf examples/simple_sniffer/main/cmd_sniffer.c:189-231 | what a task that finds the capture stopped leaves in the semaphore that a stop waits for, by its limit and its packets |
| SnifferGuarantees.SuccessfulStopFreesEverything | Extensions/Network/esp-idf examples/simple_sniffer/main/cmd_sniffer.c:201-250 | when a console stop that passed the driver call returns in a disciplined run, the semaphore was given exactly once and taken exactly once, both handles are null, no task is left, and every copy ever allocated was freed exactly once |
| SnifferGuarantees.LimitedCaptureIsExact | Extensions/Network/esp-idf examples/simple_sniffer/main/cmd_sniffer.c:170-250 | a capture limited to n > 0 packets has handed exactly n to the pcap session when its task ends, without any give or take, and all copies, the queued ones included, are freed exactly once |
| SnifferProgress.LimitedTaskEnds | Extensions/Network/esp-idf examples/simple_sniffer/main/cmd_sniffer.c:170-250 | in a disciplined run, once the limit of a limited capture is used up, its task makes at most 15 steps of its own, and two for each place in the queue, whatever the other threads do, and is done when it has made that many |
| SnifferGuarantees.SelfStopNeverWaits | Extensions/Network/esp-idf examples/simple_sniffer/main/cmd_sniffer.c:175-178 | a task that stops itself is never at its own semaphore, and no live task is ever blocked |
| SnifferGuarantees.CaptureKeepsArrivalOrder | Extensions/Network/esp-idf examples/simple_sniffer/main/cmd_sniffer.c:115-198 | packets reach the pcap session in the order in which the driver delivered them; captured, held and queued copies together are increasing |
| SnifferPackets.NothingIsLostWithRoom | Extensions/Network/esp-idf examples/simple_sniffer/main/cmd_sniffer.c:115-132 | every copy that finds room in the queue is kept: until a stop drains the queue, the captured copies, the one in hand and the queued ones are exactly those that found room, as many as the latest start command found on their way and the driver made since, less those that met a full queue; if none did since the capture began, they are the consecutive numbers up to the latest copy |
| SnifferPackets.KeptPacketsAreCaptured | Extensions/Network/esp-idf examples/simple_sniffer/main/cmd_sniffer.c:170-191 | the copies on their way are handed to the pcap session in order and as many as wanted: six steps of the task for each are enough, whatever the other threads do while the capture is on |
| SnifferCommands.IdleMeansOnOrOff | Extensions/Network/esp-idf examples/simple_sniffer/main/cmd_sniffer.c:170-320 | while the console is idle in a disciplined run, a capture is fully on (task in its loop, driver listening, queue, semaphore and pcap session there), or fully off, or its task is stopping it because the limit is used up |
| SnifferCommands.StartOutcome | Extensions/Network/esp-idf examples/simple_sniffer/main/cmd_sniffer.c:252-320 | a start command when no task is left takes at most eleven steps of the console, and then the capture is on with the limit asked for and nothing captured if and only if no call failed and the pcap session was free; otherwise it is off, and the pcap session stays in use when a call after the one that begins it fails |
| SnifferCommands.StopOutcome | Extensions/Network/esp-idf examples/simple_sniffer/main/cmd_sniffer.c:201-250 | a stop command in an unlimited capture leaves it off with every copy freed once if the driver call succeeded, and on otherwise |
| SnifferGuarantees.DisciplinedRunsDoNotBlock | Extensions/Network/esp-idf examples/simple_sniffer/main/cmd_sniffer.c:193-230 | no deadlock: a console that cannot step is waiting for the semaphore, the task can then step, and each such step brings the give nearer |
| SnifferHazards.StopDuringLimitedCaptureCanDeadlock | Extensions/Network/esp-idf examples/simple_sniffer/main/cmd_sniffer.c:170-250 | a complete run, from boot, of a console stop during a limited capture after which no event at all is possible |
| SnifferHazards.OverlappingStopsDeleteTwice | Extensions/Network/esp-idf examples/simple_sniffer/main/cmd_sniffer.c:201-250 | a complete run, from boot, in which a console stop meets a task that stops itself and the semaphore is deleted twice |
| SnifferHazards.StrayGiveEndsBadly | Extensions/Network/esp-idf examples/simple_sniffer/main/cmd_sniffer.c:170-250 | the start conditions matter: a complete run, from boot, with a second start at the end of a limited capture, in which the older task gives the new semaphore and a later stop, though in the window, does not end well |
| SnifferHazards.LimitsAreSafeIff | Extensions/Network/esp-idf examples/simple_sniffer/main/cmd_sniffer.c:170-320 | for starts that all ask for limit n, and for one other limit while a task is left if they come then: every run uses its handles properly and keeps every copy if and only if n is not 0 and a start during a capture finds no limit and sets none |
| SnifferHazards.ZeroIsNoLimit | Extensions/Network/esp-idf examples/simple_sniffer/main/cmd_sniffer.c:175-178 | with limit 0 the task can stop itself before the start turns the driver on, and the next packet copy is lost |
| SnifferHazards.SecondStartFails | Extensions/Network/esp-idf examples/simple_sniffer/main/cmd_sniffer.c:430-437 | a second start command during any limited capture, with any limit, can make the task give a deleted semaphore or start a capture with limit 0 |
| SnifferHazards.LimitedLaterLeaks | Extensions/Network/esp-idf examples/simple_sniffer/main/cmd_sniffer.c:430-437 | a second start command that limits an unlimited capture can start a capture whose limit is used up |
| FilterTable.HashFunc | Extensions/Network/esp-idf examples/simple_sniffer/main/cmd_sniffer.c:65-74 | the hash is the 32-bit sum of the characters modulo the table size |
| FilterTable.CharSumAdds | Extensions/Network/esp-idf examples/simple_sniffer/main/cmd_sniffer.c:65-74 | the sum of a concatenation is the sum of the sums modulo 2^32, and that of one character its code |
| FilterTable.WifiFilterTable.Create | Extensions/Network/esp-idf examples/simple_sniffer/main/cmd_sniffer.c:76-95 | filling N slots with N keys terminates for any hash function and leaves every key with its value in a slot of its own and no slot free |
| FilterTable.WifiFilterTable.FindFree | Extensions/Network/esp-idf examples/simple_sniffer/main/cmd_sniffer.c:85-91 | the slot used is the first free one on the way around from the hash |
| FilterTable.WifiFilterTable.Search | Extensions/Network/esp-idf examples/simple_sniffer/main/cmd_sniffer.c:97-113 | the value at the first slot on the way around whose name begins with the key, else 0; it stops after looking at each slot once |
| FilterTable.FirstMatchAnswers | Extensions/Network/esp-idf examples/simple_sniffer/main/cmd_sniffer.c:97-113 | the answer is the value in the first slot from the start on whose name begins with the key |
| FilterTable.AroundSteps | Extensions/Network/esp-idf examples/simple_sniffer/main/cmd_sniffer.c:85-110 | each slot is followed by its neighbour, and the last one by the first |
| FilterTable.EachNameFindsItsValue | Extensions/Network/esp-idf examples/simple_sniffer/main/cmd_sniffer.c:76-113 | when no name begins another, every stored name finds its own value, wherever its hash starts the search |
| FilterTable.OnlyMatchIsFound | Extensions/Network/esp-idf examples/simple_sniffer/main/cmd_sniffer.c:97-113 | an abbreviation of exactly one name finds that name's value for every hash |
| FilterTable.ZeroIffNoName | Extensions/Network/esp-idf examples/simple_sniffer/main/cmd_sniffer.c:97-113 | with nonzero values, 0 comes back exactly for a key that begins no name |
| FilterTable.AnswerIsFixedIffMatchesAgree | Extensions/Network/esp-idf examples/simple_sniffer/main/cmd_sniffer.c:97-113 | the answer is the same from every start slot if and only if all names that the key begins have one value |
| FilterTable.FilterKeysArePrefixFree | Extensions/Network/esp-idf examples/simple_sniffer/main/cmd_sniffer.c:78-78 | none of the seven filter names begins another |
| FilterTable.WifiFilterTable.SelectFilter | Extensions/Network/esp-idf examples/simple_sniffer/main/cmd_sniffer.c:405-419 | the filter word is the 32-bit sum of the options' values, and all packets when there is no option or none is known |
| FilterUnion.SumIsUnionIff | Extensions/Network/esp-idf examples/simple_sniffer/main/cmd_sniffer.c:408-412 | with single-bit values the sum is at least the bitwise or of the named filters, and equal to it if and only if no two options name the same filter |
| FilterUnion.FilterIsUnionIff | Extensions/Network/esp-idf examples/simple_sniffer/main/cmd_sniffer.c:405-419 | for up to seven options the word is the all-packets mask exactly when no option is a filter name; otherwise its bits are exactly the named filters if and only if none is named twice |
| PcapSession.Console.SniffPacketStart | Extensions/Network/esp-idf examples/simple_sniffer/main/cmd_pcap.c:148-198 | starting a session: which flags, link type and header it leaves for each destination, and when it refuses |
| PcapSession.Console.DoPcapCmd | Extensions/Network/esp-idf examples/simple_sniffer/main/cmd_pcap.c:218-279 | what close, summary and open leave for every answer of the file system and the pcap library |
| PcapSession.Console.StartSniffer | Extensions/Network/esp-idf examples/simple_sniffer/main/cmd_sniffer.c:252-320 | the flags after a start, including the error exits, none of which ends the pcap session |
| PcapSession.CloseIff | Extensions/Network/esp-idf examples/simple_sniffer/main/cmd_pcap.c:228-234 | `pcap --close` closes the file, forgets its link type and clears the handle exactly when nothing writes and the session can be deleted; otherwise it changes nothing |
| PcapSession.StartsIff | Extensions/Network/esp-idf examples/simple_sniffer/main/cmd_sniffer.c:252-320 | in every reachable state, when a start succeeds: nothing runs or writes, the link type is new or the same, the file is open or over JTAG can be, and every call succeeds |
| PcapSession.StopIff | Extensions/Network/esp-idf examples/simple_sniffer/main/cmd_sniffer.c:201-250 | what a stop leaves: nothing changed without a capture or when the driver refuses, else the capture over and, over JTAG, the file closed |
| PcapSession.OpensIff | Extensions/Network/esp-idf examples/simple_sniffer/main/cmd_pcap.c:148-234 | when an open, perhaps behind a summary, opens a closed file |
| PcapSession.RunKeepsInv | Extensions/Network/esp-idf examples/simple_sniffer/main/cmd_pcap.c:86-207 | over any sequence of pcap and sniffer commands with any failures: running implies writing, writing implies a link type, a link type implies an open file, an open file has a live session |
| PcapSession.SameLinkUntilClose | Extensions/Network/esp-idf examples/simple_sniffer/main/cmd_pcap.c:163-188 | until the file is closed, every successful start uses the link type of the first one |
| PcapSession.StuckExactlyAfterLateFailure | Extensions/Network/esp-idf examples/simple_sniffer/main/cmd_sniffer.c:273-319 | the flag for writing is left set without a running capture exactly by a start that fails after the session had begun |
| PcapSession.StuckForGood | Extensions/Network/esp-idf examples/simple_sniffer/main/cmd_pcap.c:163-165 | from there no sequence of commands ever starts a capture or closes the file |
| PcapSession.CanCaptureAgainIff | Extensions/Network/esp-idf examples/simple_sniffer/main/cmd_pcap.c:148-234 | from a reachable state some command sequence captures on a given interface if and only if no start failed that late; with a file of the other link type this takes a close |
| PcapSession.HeaderLostExactlyByReopening | Extensions/Network/esp-idf examples/simple_sniffer/main/cmd_pcap.c:109-188 | the live session keeps its pcap header unless the command creates a session while one with a link type is in use: a second open, or a JTAG start after a close that failed |
| PcapSession.CaptureHasHeader | Extensions/Network/esp-idf examples/simple_sniffer/main/cmd_pcap.c:109-188 | in any run without such a command, packets go to a session whose header has the link type in use |
| PcapSession.ReopenDuringCapture | Extensions/Network/esp-idf examples/simple_sniffer/main/cmd_pcap.c:273-276 | nothing refuses an open during a capture, which then goes on into a file without header |
| EspNowFrame.Prepare | Extensions/Network/wifi/esp-idf examples/espnow/main/espnow_example_main.c:131-145 | the buffer becomes exactly the frame of the fields, the payload and the CRC of the frame with a zero CRC field |
| EspNowFrame.Parse | Extensions/Network/wifi/esp-idf examples/espnow/main/espnow_example_main.c:106-128 | the type for an accepted frame, -1 otherwise; the other fields are read either way; the CRC field is zeroed in place |
| EspNowFrame.FrameRoundTrip | Extensions/Network/wifi/esp-idf examples/espnow/main/espnow_example_main.c:106-145 | parsing undoes preparing for every message, payload and CRC function |
| EspNowFrame.AcceptedIffFrame | Extensions/Network/wifi/esp-idf examples/espnow/main/espnow_example_main.c:106-128 | a frame is accepted if and only if it is the frame that prepare would build from its own fields and payload |
| EspNowFrame.FieldsOnTheWire | Extensions/Network/wifi/esp-idf examples/espnow/main/espnow_example_main.c:131-145 | where the fields of a frame lie, each lowest byte first, and what the CRC is taken of |
| EspNowFrame.CorruptionIsRejected | Extensions/Network/wifi/esp-idf examples/espnow/main/espnow_example_main.c:106-128 | a frame changed outside its CRC field is accepted if and only if the CRC cannot tell the two apart |
| EspNowNode.Device.HandleSent | Extensions/Network/wifi/esp-idf examples/espnow/main/espnow_example_main.c:169-206 | one send callback: the new device state and the frame sent, tied to the step of the protocol model |
| EspNowNode.Device.HandleReceived | Extensions/Network/wifi/esp-idf examples/espnow/main/espnow_example_main.c:207-277 | one received frame: the new device state and the frame sent, tied to the step of the protocol model |
| EspNowProtocol.RunKeepsInv | Extensions/Network/wifi/esp-idf examples/espnow/main/espnow_example_main.c:167-281 | the inductive invariant of both devices over every run in which frames are lost, duplicated, reordered or mixed with foreign ones that are rejected or of neither type |
| EspNowGuarantees.OnlyLargerMagicSendsUnicasts | Extensions/Network/wifi/esp-idf examples/espnow/main/espnow_example_main.c:248-263 | with distinct magic numbers, only the device with the larger one is ever a unicast sender or has sent a unicast |
| EspNowGuarantees.NeverBothUnicastIffMagicsDiffer | Extensions/Network/wifi/esp-idf examples/espnow/main/espnow_example_main.c:248-263 | no run makes both devices unicast senders if and only if their magic numbers differ |
| EspNowGuarantees.EqualMagicsBothTurn | Extensions/Network/wifi/esp-idf examples/espnow/main/espnow_example_main.c:248-248 | with equal magic numbers, a run in which both become unicast senders |
| EspNowGuarantees.UnicastAfterMutualDiscovery | Extensions/Network/wifi/esp-idf examples/espnow/main/espnow_example_main.c:211-265 | a unicast sender has its peer in its list, and the peer has received one of its broadcasts, set its state to 1 and listed it |
| EspNowGuarantees.DeviceDiscipline | Extensions/Network/wifi/esp-idf examples/espnow/main/espnow_example_main.c:131-145 | every frame sent is acceptable, of the type of its destination and numbered consecutively from 0 modulo 65536; unicast excludes broadcast; at most one frame of each type awaits its callback |
| EspNowGuarantees.SendDoneAfterExactCount | Extensions/Network/wifi/esp-idf examples/espnow/main/espnow_example_main.c:185-190 | the sending ends only after exactly the configured number of unicasts, and no device sends more |
| EspNowGuarantees.SendingGoesOn | Extensions/Network/wifi/esp-idf examples/espnow/main/espnow_example_main.c:169-206 | while no send callback is lost, a running sender always has exactly one frame of its type on the way to a callback |
| EspNowGuarantees.NoStepTakesBack | Extensions/Network/wifi/esp-idf examples/espnow/main/espnow_example_main.c:167-281 | broadcasting once stopped is never resumed, unicast once set stays set, and what was sent stays sent |
| EspNowGuarantees.UnicastStopsReceiver | Extensions/Network/wifi/esp-idf examples/espnow/main/espnow_example_main.c:268-272 | a device that receives a unicast stops its broadcasts |
| EspNowTurns.EventOutcome | Extensions/Network/wifi/esp-idf examples/espnow/main/espnow_example_main.c:167-281 | the exact outcome of every event of every run: which frame is sent and that it carries the device's state, when the task ends and how, and what becomes of the flags, the state and the peer list; the other device is untouched |
| EspNowTurns.TurnsExactlyWhen | Extensions/Network/wifi/esp-idf examples/espnow/main/espnow_example_main.c:218-264 | a device turns to unicasts exactly when it hears its peer in state 1, can list it, has no smaller magic number and its send succeeds, whatever its own state was; its broadcasts then stop and its first unicast goes to the peer; no other event changes the flag |
| EspNowTurns.LargerMagicCanFinish | Extensions/Network/wifi/esp-idf examples/espnow/main/espnow_example_main.c:167-281 | for a device with no smaller magic number there is a run from the start in which it sends all its unicasts and ends with send done |
| CertBundle.RecordAtOffset | Extensions/Network/wifi/SRC/WiFiClientSecure/esp_crt_bundle.c:162-176 | the record at each computed offset is the serialised one, and ends where the next begins |
| CertBundle.CrtBundle.Init | Extensions/Network/wifi/SRC/WiFiClientSecure/esp_crt_bundle.c:157-179 | the index holds exactly the start of every record of the bundle |
| CertBundle.CrtBundle.Find | Extensions/Network/wifi/SRC/WiFiClientSecure/esp_crt_bundle.c:112-141 | for byte-sorted, prefix-free names and an issuer that ends inside none of them, the binary search terminates and finds a record if and only if some name begins the issuer, whatever memory lies behind the issuer |
| CertBundle.Compared | Extensions/Network/wifi/SRC/WiFiClientSecure/esp_crt_bundle.c:122-138 | what one comparison of the search rules out on either side |
| CertBundle.MemcmpFirstDifference | Extensions/Network/wifi/SRC/WiFiClientSecure/esp_crt_bundle.c:125-125 | `memcmp` returns the difference at the first position where the bytes differ |
| CertBundle.LexLessIsTotal | Extensions/Network/wifi/SRC/WiFiClientSecure/esp_crt_bundle.c:112-141 | the byte order that the bundle is sorted by is a strict total order |
| CertBundle.OneNameBegins | Extensions/Network/wifi/SRC/WiFiClientSecure/esp_crt_bundle.c:112-141 | at most one name begins an issuer |
| CertBundle.CrtBundle.Verify | Extensions/Network/wifi/SRC/WiFiClientSecure/esp_crt_bundle.c:92-151 | under the conditions of `Find`: on success, that is if and only if the flags hold BADCERT_NOT_TRUSTED and at most BADCERT_BAD_MD beside it and a record whose name begins the issuer has a key that checks the signature, all flags become 0, BADCERT_BAD_MD included; otherwise they are unchanged |
| WifiClient.WiFiClientRxBuffer.FillBuffer | Extensions/Network/wifi/SRC/WiFi/WiFiClient.cpp:62-88 | the buffer, its indices and the failure flag after one fill, for every answer of allocator and socket |
| WifiClient.WiFiClientRxBuffer.ReadBytes | Extensions/Network/wifi/SRC/WiFi/WiFiClient.cpp:111-144 | the bytes delivered, the return value and the whole buffer state after a read |
| WifiClient.WiFiClientRxBuffer.PeekByte | Extensions/Network/wifi/SRC/WiFi/WiFiClient.cpp:146-151 | the byte shown, or -1, and the buffer state after a peek |
| WifiStream.CallsKeepStream | Extensions/Network/wifi/SRC/WiFi/WiFiClient.cpp:62-151 | over any sequence of reads and peeks and any socket behaviour, the bytes returned, the unread buffer slice and the bytes still in the socket are together the original stream, in order |
| WifiStream.ReadKeepsStream | Extensions/Network/wifi/SRC/WiFi/WiFiClient.cpp:111-144 | one read returns the next bytes of the stream and leaves the rest |
| WifiStream.PeekShowsNextRead | Extensions/Network/wifi/SRC/WiFi/WiFiClient.cpp:146-151 | a peek shows the first byte of the stream, which the next one-byte read delivers, exactly when there are unread bytes, after the fill that an empty buffer gets; it leaves the stream alone, and a buffer with unread bytes unchanged |
| WifiStream.FedPeekShows | Extensions/Network/wifi/SRC/WiFi/WiFiClient.cpp:146-151 | it shows a byte whenever the stream has one and the next receive call brings something |
| WifiStream.CallsFailExactly | Extensions/Network/wifi/SRC/WiFi/WiFiClient.cpp:62-151 | over any sequence of reads and peeks, the flag that makes a read without bytes return -1 is raised if and only if an answer used was a failure of the allocator, of FIONREAD or of `recv` |
| WifiStream.FillBrings | Extensions/Network/wifi/SRC/WiFi/WiFiClient.cpp:62-88 | how many bytes one fill brings: what the socket returns, at most the room left |
| WifiStream.FillGrows | Extensions/Network/wifi/SRC/WiFi/WiFiClient.cpp:62-88 | a fill appends the next bytes of the stream to the unread ones, and its count is their number |
| WifiStream.FedReadIsFull | Extensions/Network/wifi/SRC/WiFi/WiFiClient.cpp:111-144 | a read of no more bytes than the stream has returns that many while every receive call brings something |
| WifiStream.ReadLeavesIff | Extensions/Network/wifi/SRC/WiFi/WiFiClient.cpp:62-144 | a read returns fewer bytes than asked and still leaves some in the buffer if and only if there were unread bytes (after the fill that an empty buffer gets), the missing ones have room, the first receive call brings some of them and not all, and the next brings none |
| WifiStream.ShortReadMayLeaveBytes | Extensions/Network/wifi/SRC/WiFi/WiFiClient.cpp:62-144 | this does happen: from a new buffer of at least three bytes, on a socket that brings one byte, one more and then none, a read of three bytes |
| WifiClient.Write | Extensions/Network/wifi/SRC/WiFi/WiFiClient.cpp:364-418 | the loop terminates within ten rounds per byte; the accepted bytes are a prefix of the block; the return value is its length unless `select` fails; it stops at the first failed call, at the last byte, or after the first ten fruitless rounds in a row, and not before |
| NeighborReport.ParseUndoesSerialise | Extensions/Network/wifi/esp-idf examples/roaming/main/roaming_example.c:103-160 | any list of well-formed elements, followed by too few bytes for one more, yields exactly its entries in order |
| NeighborReport.AcceptedIsSerialised | Extensions/Network/wifi/esp-idf examples/roaming/main/roaming_example.c:103-160 | every accepted report is such a list, and its entries are those of the list |
| NeighborReport.AcceptedIffSerialised | Extensions/Network/wifi/esp-idf examples/roaming/main/roaming_example.c:103-160 | a report is accepted if and only if it is a serialised list of well-formed elements and a short tail |
| NeighborReport.SkipSubelements | Extensions/Network/wifi/esp-idf examples/roaming/main/roaming_example.c:132-160 | the walk over subelements terminates within the element and fails exactly when one is too long |
| NeighborReport.ReadElement | Extensions/Network/wifi/esp-idf examples/roaming/main/roaming_example.c:104-160 | the entry and the end of an acceptable element; every byte read lies in the report |
| NeighborReport.ElementOnTheWire | Extensions/Network/wifi/esp-idf examples/roaming/main/roaming_example.c:104-160 | where the parts of an element lie: identifier 52, length, address, information word lowest byte first, and the three numbers |
| NeighborReport.GetBtmNeighborList | Extensions/Network/wifi/esp-idf examples/roaming/main/roaming_example.c:78-200 | no list exactly for an empty or unacceptable report; otherwise the text of all entries, cut to the buffer unless a piece is printed behind its end; without memory for the buffer, a write through the null pointer exactly when the first element is acceptable |
| NeighborReport.TextFitsIffTen | Extensions/Network/wifi/esp-idf examples/roaming/main/roaming_example.c:100-187 | the text of any n neighbors fits the 512-byte buffer if and only if n is at most ten |
| NeighborText.TextDeterminesEntries | Extensions/Network/wifi/esp-idf examples/roaming/main/roaming_example.c:172-187 | different lists of neighbors have different texts |
| NeighborText.LineReads | Extensions/Network/wifi/esp-idf examples/roaming/main/roaming_example.c:172-187 | a line read back at its commas and colons gives the bytes of the address, the information word and the three numbers, in this order |
| NeighborText.OnlyDec | Extensions/Network/wifi/esp-idf examples/roaming/main/roaming_example.c:172-187 | a number is printed as the only decimal numeral of its value without a leading zero |
| NeighborText.OnlyHex | Extensions/Network/wifi/esp-idf examples/roaming/main/roaming_example.c:172-187 | a hexadecimal number is printed as the only lower-case numeral of its value padded to the width |
| NeighborText.ReportRoundTrip | Extensions/Network/wifi/esp-idf examples/roaming/main/roaming_example.c:78-200 | for at most ten elements the report parses to its entries, its text fits, and the entries can be read back from it |
| HandlerRegistry.Hardware.ScanIds | ESP32_System.cpp:153-160 | the restarting scan terminates and finds the least positive number that no listed record has as id |
| HandlerRegistry.Hardware.RegisterType | ESP32_System.cpp:126-171 | the id given, the list after success and after each failure; after k handlers, less free memory than 4 * (k + 1) bytes refuses the record and changes nothing, and with that much it is accepted exactly when its task is created; a write through the null pointer exactly when the list cannot be allocated; the ids stay positive and distinct if and only if the record was not registered already |
| HandlerRegistry.Hardware.RegisterAll | ESP32_System.cpp:126-171 | n handlers that register one after the other on a new bus, each with a fresh record of id 0, all succeed with the ids 1 to n when each finds 4 * n bytes free, memory and a task; in general each is accepted exactly when slots, memory and task creation allow, and it ends early exactly at the first write through the null pointer |
| HandlerRegistry.LeastFreeUnique | ESP32_System.cpp:156-160 | that number is the only positive one that is free with all smaller ones taken, and at most one above the number of ids |
| HandlerRegistry.ZeroIsNoId | ESP32_System.cpp:152-162 | a fresh record with id 0 does not disturb the search, which never exceeds the number of handlers |
| HandlerRegistry.IdsAreConsecutive | ESP32_System.cpp:126-171 | over any such sequence of accepted and refused registrations the accepted ones get the ids 1, 2, 3, ... |
| WifiMulti.WiFiMulti.AddAP | Extensions/Network/wifi/SRC/WiFi/WiFiMulti.cpp:49-86 | which SSID and passphrase lengths are accepted, and the entry appended |
| WifiMulti.WiFiMulti.SelectBest | Extensions/Network/wifi/SRC/WiFi/WiFiMulti.cpp:109-159 | the pick among the scanned networks: none exactly when none is eligible, else the strongest eligible, the earliest of equals, with the entry added last for its SSID |
| WifiMulti.WiFiMulti.Run | Extensions/Network/wifi/SRC/WiFi/WiFiMulti.cpp:88-159 | which of its exits the function takes for a given connection, scan result and list, and the pick it connects to |
| WifiMulti.RightPickIsUnique | Extensions/Network/wifi/SRC/WiFi/WiFiMulti.cpp:109-159 | only one pick meets that description |
| WifiMulti.SeenIsAllIff | Extensions/Network/wifi/SRC/WiFi/WiFiMulti.cpp:90-120 | the loop looks at all scanned networks if and only if there are at most 127 |
| WifiMulti.PickIsRightIff | Extensions/Network/wifi/SRC/WiFi/WiFiMulti.cpp:90-159 | for longer scans the pick is right if and only if no eligible network behind those looked at is stronger than all of them |
| Ipv4.CalculateNetworkID | Extensions/Network/Protocols/IPv4.cpp:23-30 | every octet masked |
| Ipv4.CalculateBroadcast | Extensions/Network/Protocols/IPv4.cpp:32-39 | every octet with the host bits set |
| Ipv4.CalculateSubnetCIDR | Extensions/Network/Protocols/IPv4.cpp:41-64 | the sum of the octets' leading ones, which is p for the mask of prefix length p (section 3.1 of RFC 4632) |
| Ipv4.NetworkIDMasksValue | Extensions/Network/Protocols/IPv4.cpp:23-30 | masking octet by octet is masking the 32-bit address |
| Ipv4.SubnetSpan | Extensions/Network/Protocols/IPv4.cpp:23-39 | for every mask, broadcast minus network is the complement of the mask |
| Ipv4.PrefixSpan | Extensions/Network/Protocols/IPv4.cpp:23-39 | for prefix length p it is 2^(32-p) - 1 |
| Ipv4.SameNetworkIff | Extensions/Network/Protocols/IPv4.cpp:23-39 | two addresses have one network id if and only if the second lies from the network id to the broadcast address of the first |
| Ipv4.CidrOfPrefix | Extensions/Network/Protocols/IPv4.cpp:41-64 | the prefix length of every contiguous mask comes back |
| DhcpLease.LeaseRange | Extensions/Network/wifi/SRC/WiFi/WiFiGeneric.cpp:139-153 | the first and last leased address: three octets of the local address and a last octet computed in 8 bits |
| DhcpLease.AddToLastOctet | Extensions/Network/wifi/SRC/WiFi/WiFiGeneric.cpp:146-152 | 32-bit addition to the top byte changes the last octet alone and wraps there |
| DhcpLease.UsableIff | Extensions/Network/wifi/SRC/WiFi/WiFiGeneric.cpp:141-153 | for which local and mask octets the range has eleven addresses without a wrap and excludes the local one |
| DhcpLease.AlwaysUsableIff | Extensions/Network/wifi/SRC/WiFi/WiFiGeneric.cpp:141-153 | the range is usable for every local address if and only if the mask octet is at most 231 or at least 254: 0, 128, 192 and 224, but not 240, 248 and 252 |
| DhcpLease.OnNetworkIff | Extensions/Network/wifi/SRC/WiFi/WiFiGeneric.cpp:141-153 | with a mask octet of leading ones, all leased octets lie in the local one's subnet if and only if it leaves at least four host bits and masks the local octet to 0 |
| DhcpLease.LeasesShareNetworkIff | Extensions/Network/wifi/SRC/WiFi/WiFiGeneric.cpp:139-153 | the same for the network ids of the whole addresses |
| WifiUdp.WiFiUDP.BeginPacket | Extensions/Network/wifi/SRC/WiFi/WiFiUdp.cpp:131-158 | when a packet can be begun, and that it begins with an empty buffer |
| WifiUdp.WiFiUDP.WriteByte | Extensions/Network/wifi/SRC/WiFi/WiFiUdp.cpp:189-196 | a full buffer is sent before the byte is stored |
| WifiUdp.WiFiUDP.Write | Extensions/Network/wifi/SRC/WiFi/WiFiUdp.cpp:198-203 | a block is written byte by byte, all of it |
| WifiUdp.WiFiUDP.EndPacket | Extensions/Network/wifi/SRC/WiFi/WiFiUdp.cpp:176-187 | the pending bytes leave as one datagram; the return value is the answer to that send alone |
| WifiUdp.PacketIsSplit | Extensions/Network/wifi/SRC/WiFi/WiFiUdp.cpp:131-203 | from begin through any byte and block writes to end, whatever the socket answers, the datagrams concatenate to the bytes written, all but the last hold 1460 bytes, and the last is empty only when nothing was written |
| WifiUdp.ChunksAreWellSplit | Extensions/Network/wifi/SRC/WiFi/WiFiUdp.cpp:189-203 | the split has this shape and loses nothing |
| WifiUdp.ChunksCount | Extensions/Network/wifi/SRC/WiFi/WiFiUdp.cpp:189-203 | the number of datagrams is the length divided by 1460, rounded up, and at least one |
| WifiUdp.SplitIsUnique | Extensions/Network/wifi/SRC/WiFi/WiFiUdp.cpp:189-203 | it is the only list of datagrams of this shape with these bytes |
| HexLine.ProcessLine | Extensions/Network/esp-idf examples/network_tests/main/stdinout.c:111-136 | every byte of the buffer has the digits of its field shifted in, in 8-bit arithmetic; the count is one more than the separators, 0 for an empty line |
| HexLine.OthersAreSkipped | Extensions/Network/esp-idf examples/network_tests/main/stdinout.c:111-136 | a character that is neither a digit, `a` to `f` or a separator changes nothing, wherever it stands |
| HexLine.TwoDigitsErase | Extensions/Network/esp-idf examples/network_tests/main/stdinout.c:121-128 | a field of two or more digits leaves the value of its last two, whatever the byte held |
| HexLine.IndependentIff | Extensions/Network/esp-idf examples/network_tests/main/stdinout.c:121-128 | the byte is independent of what the buffer held if and only if its field has at least two digits |
| HexLine.RoundTrip | Extensions/Network/esp-idf examples/network_tests/main/stdinout.c:111-136 | a byte string printed with two lower-case digits per byte and '-' or ' ' between them comes back exactly, with its count, and the rest of the buffer is unchanged |
| HexLine.PrintedFits | Extensions/Network/esp-idf examples/network_tests/main/stdinout.c:111-136 | it needs no more buffer than it has bytes |

## Left out

- SnifferLifecycle.RunKeepsInv: covers disciplined runs, because outside them the code does not keep the handles: limits of 0 and second starts are the subject of `LimitsAreSafeIff`, and console stops in any run whatever, driver failures included, of `StopEndsWellIff`. A driver call that fails when a task stops itself has no result of its own.
- SnifferSafety.CaptureSafety: starts are disciplined, and a console stop that clears `is_running` outside its window is excluded, because then the handles are misused or the stop hangs (`AnyStopEndsWellIff`, `StopEndsWellIff`).
- The driver callback is one atomic step that happens only while promiscuous mode is on; its checks of packet type and length (cmd_sniffer.c:134-168) are not modelled.
- FreeRTOS internals, time-outs, priorities and real time: a queue receive that times out is a receive that finds nothing; creating a queue, semaphore or task is one step that may fail.
- A queued packet is its number; its bytes and time stamps are not modelled.
- SniffPacketStart: the wait for the JTAG host is one answer; the timer that flushes the trace is only its success.
- The bytes of a pcap file, and the choice among several Ethernet interfaces.
- FilterIsUnionIff: the mask constants are ESP-IDF's and not part of this model; they are any single bits below 2^29.
- HandleReceived: the queues between the driver callbacks and the device's task are part of the channel; a peer record that cannot be allocated ends the device's task, as in the code.
- EspNowProtocol.RunKeepsInv: frames of a third device are events only if they are rejected or of neither type; a broadcast or unicast of a third device with a valid CRC is not.
- EspNowProtocol: a device that stops by an error sends nothing more; encryption keys, channels and delays are left out.
- Create: the hash is an arbitrary function of the name, which includes the one of `HashFunc`.
- Find: `memcmp` may look at memory behind the issuer; that memory is an arbitrary parameter.
- Verify: mbedTLS parsing and the signature check are an arbitrary function of the key bytes.
- WiFiClient::flush, connected and stop: flush mixes buffered and socket byte counts, so the stream claim does not extend to it.
- GetBtmNeighborList: the strings for location and civic data are only logged and left out; the text after a piece was printed behind the end is not stated, because what `snprintf` does behind the end of the buffer is not modelled beyond the fact that it happens.
- RegisterType: what the write through the null pointer does is not modelled beyond the fact that it happens; the event loop it creates is left out.
- Run: connecting to the pick and waiting for the result.
- LeaseRange: setting the address and starting the DHCP server.
- BeginPacket by host name, multicast joins and the receive side of UDP.
- ProcessLine: writes outside the buffer when a line has digits behind more separators than the buffer has bytes; the precondition says exactly when it does not, and what such a write does is not modelled.
- Network, WiFi, provisioning, smart-config, WPS, DPP, enterprise, scan, power-save, iperf, Modbus and TLS set-up code: sequences of driver calls with little logic of their own.
- removeEvent of the event list skips the element behind an erased one; hostByName does not take its idle bit atomically. Neither has a property to prove.
- The copy of WiFiGeneric.cpp outside SRC repeats the code modelled here.
