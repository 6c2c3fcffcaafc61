# Verified model of the native services of an Android device tree for the Raspberry Pi 4

The repository carries, besides build files and resources, a handful of native services that parse
byte streams, speak protocols to devices, or keep state across calls. This project models the ones
with real logic and proves what they promise over every input, every split of an input, every reply
of a device, and every interleaving.

| file | component |
|---|---|
| `mcu_link.dfy`, `tty_reader.dfy`, `cutoff.dfy` | serial link to the power microcontroller: frame decoder, voltage ring, sender |
| `nmea_framer.dfy`, `nmea_tokenizer.dfy`, `nmea_sentence.dfy`, `nmea_history.dfy`, `nmea_reader.dfy`, `nmea_printing.dfy`, `nmea_runs.dfy` | GPS reader: line framer, tokenizer, sentence interpreter, reports over whole runs, printed sentences read back |
| `hci_event.dfy`, `hci_firmware.dfy`, `hci_init.dfy`, `hci_attach.dfy`, `hci_actions.dfy`, `patch_search.dfy`, `bd_address.dfy` | Bluetooth bring-up: event framing, firmware packets, speed handover, firmware search, addresses |
| `cpu_boost.dfy` | CPU boost of the power HAL, as interleaved steps |
| `audio_pacing.dfy` | virtual clock of the audio input stream |
| `battery.dfy` | battery level of the health HAL |
| `common.dfy` | octets, options, small arithmetic |

Code that works by changing things step by step is modelled by classes and methods with loops, and
every such method is proved against a function on values: its result or new state equals that
function of the old state. The theorems about runs are lemmas about those functions. The CPU boost
performs one atomic step of its thread or of a call at a time, so a schedule is a sequence of steps.

Main results:

- `McuLink.DecoderMeetsFormat`: from any state, the uninitialised one included, the octet-at-a-time
  decoder delivers exactly what a one-shot reading of the input delivers. Round trip, resynchronisation
  and error detection follow, and `McuLink.ChangedLengthIff`: exactly which changes of a frame's length
  octets go undetected.
- `TtyReader.VoltageLine`: from line octets to everything published, the means of the last ten readings
  included.
- `NmeaFramer.FramerIsExact`, `NmeaReading.StreamReports`: a reader fed a stream in any chunks has reported
  what the lines that survive of the whole stream call for.
- `NmeaHistory.LocationReports`, `NmeaHistory.EntryUsedIff`, `NmeaHistory.SatelliteListReports`: every
  report as a function of the sentence history. `NmeaHistory.AlwaysFitsIff`: exactly when the number of
  satellites stays within the list, with a run of printed lines in which it does not
  (`NmeaRuns.ListCanOverflow`). `NmeaRuns.SatellitesInView` and `NmeaRuns.GgaThenRmc` go from printed
  sentences to the reports.
- `HciInit.InStepIff`: over all honest replies, write failures and refused speed settings, host and controller speeds agree at
  every write, and a success ends at the requested speed, if and only if both speeds exist for termios and
  a firmware file that is used is not empty. Over all replies whatsoever this holds only when no speed is
  changed (`HciInit.UnrestrictedIff`): the host does not look at the event code, so another event with
  the parameters of an acknowledgement makes it switch alone.
- `HciActions.BringUpActions`: everything a successful bring-up writes, in octets, and every speed it sets the
  host to, in order; `HciActions.NoStaleBytes`: no answer is taken for that of a later command.
- `HciFirmware.PacketsRestoreIff`, `PatchSearch.SearchIff`, `BdAddress.DerivedIsAccepted`.
- `CpuBoost.BoostIsExclusiveAndUndone`, and the exact conditions under which a wake or suspend call takes
  effect (`WakeTakesEffectIff`, `SuspendTakesEffectIff`) and a boost puts back the floor it found
  (`BoostRestoresIff`): the shared buffers can lose each of these updates, and a schedule is given for each.
- `AudioPacing.ClockIsMaximum`, `AudioPacing.NeverTooFast`.
- `Battery.EveryReport`: the report of every poll of every run; and the exact condition under which the level never rises while
  discharging (`NeverRisesIff`): a voltage of 3000 or less is reported as 100 percent.

Assumptions about the surroundings:

- A serial line is the sequence of bytes that arrive before the first error or end; how reads split it
  is nondeterministic.
- `char` is unsigned, as on the arm64 target (BoardConfig.mk line 29).
- The Bluetooth controller switches speed exactly when it answers the speed command with, among other
  events, a command complete (code 0x0E) of that command with status 0, and returns to its initial speed
  with the last firmware record. Its initial speed is the one given to the host.
- An honest reply (`HciInit.Honest`) is a sequence of events of which some prefix arrives, with noise between
  them that does not contain 0x04, and only a command complete carries the opcode of the speed command with
  status 0 in those places. Theorems that need it say so.
- `pthread_create` stores the thread id before the new thread runs, as bionic does; every load of a file
  into a buffer, read of a buffer, print into a buffer, comparison and write of a file is atomic.
- A frequency is a number; the buffers and cpufreq files hold its decimal text without a newline.
- `GNSS_MAX_SVS` is 64, as in Android's hardware/gps.h, which is not part of the repository. The memory
  behind the table of used satellites, which Galileo numbers reach, is an arbitrary fixed function.

Where the code differs from what its names or comments suggest, the model follows the code:
the "median" voltage is a mean (`readall_mcu.c` lines 31-42); GPS satellite 32 is dropped
(`gps_zkw.c` line 532); a line of exactly 129 characters also swallows the next one
(`gps_zkw.c` lines 842-847); a file of the right chip without the `.hcd` extension ends the scan of its
directory (`hciattach_rpi4.c` lines 615-623); a voltage below the table is reported as a full battery
(`health.cpp` lines 236-237 and 276); the response to a Bluetooth command is accepted whatever its event
code (`hciattach_rpi4.c` line 498); the default for an unset ceiling property is read back from a shared
buffer (`power.c` lines 113-115).

## Model

| member | source | states |
|---|---|---|
| McuLink.DecoderMeetsFormat | service/cutiepi/ttyreader/readall_mcu.c:67-135 | from any decoder state, what is delivered from the first sync octet on equals the one-shot reading of the input, block by block |
| McuLink.BlockAfterSync | service/cutiepi/ttyreader/readall_mcu.c:70-135 | behind a sync octet every state reads the stretch up to the next one as the format says |
| McuLink.AcceptedIff | service/cutiepi/ttyreader/readall_mcu.c:74-104 | a stretch is accepted exactly when a complete frame with nonzero length and right sum starts at its first 0xA5, whatever precedes and follows |
| McuLink.FrameAccepted | service/cutiepi/ttyreader/readall_mcu.c:70-135 | from every state a sent frame is accepted exactly once and the decoder is idle again |
| McuLink.SmallPayload | service/cutiepi/ttyreader/readall_mcu.c:93-99 | a payload of at most three octets is delivered as its little-endian number |
| McuLink.StreamRoundTrip | service/cutiepi/ttyreader/readall_mcu.c:67-135 | from idle, or from any state when the line starts with a frame, a line of frames with sync-free gaps decodes to exactly those frames, in order |
| McuLink.OneOctetChanged | service/cutiepi/ttyreader/readall_mcu.c:78-135 | changing one octet of command, payload or checksum to anything but 0x5A yields no delivery and leaves the decoder idle |
| McuLink.ChangedLengthIff | service/cutiepi/ttyreader/readall_mcu.c:82-104 | changing the length octets to another length n without 0x5A is undetected exactly when n is nonzero, shorter than the payload, and the payload octet in the place of the sum is the sum of the shortened frame; and whether the decoder is idle afterwards |
| McuLink.LengthOctetUnprotected | service/cutiepi/ttyreader/readall_mcu.c:82-92 | an instance: lowering a length from 2 to 1 turns one accepted frame into another |
| McuLink.ZeroLength | service/cutiepi/ttyreader/readall_mcu.c:93-102 | a declared length of zero swallows everything up to the next sync octet |
| McuLink.OutsideFrame | service/cutiepi/ttyreader/readall_mcu.c:70-103 | outside a frame octets other than 0x5A change nothing and deliver nothing |
| McuLink.PayloadRun | service/cutiepi/ttyreader/readall_mcu.c:93-102 | the payload state is a closed form of the octets read: sum, value, remaining length |
| TtyReader.Service.Receive | service/cutiepi/ttyreader/readall_mcu.c:68-135 | one octet updates decoder variables, ring and published properties as the step function and the frame handling say |
| TtyReader.Service.Accept | service/cutiepi/ttyreader/readall_mcu.c:104-131 | a validated frame: valid flag, then key, voltage with ring update, or charge |
| TtyReader.Service.MeanVoltage | service/cutiepi/ttyreader/readall_mcu.c:31-42 | the pass over the ring computes the mean of its nonzero slots, undefined when all are zero |
| TtyReader.Service.ReceiveAll | service/cutiepi/ttyreader/readall_mcu.c:67-136 | a batch publishes what its deliveries call for, in order |
| TtyReader.RingHoldsLastTen | service/cutiepi/ttyreader/readall_mcu.c:112-119 | read from the oldest slot, the ring is the last ten of what it held followed by all readings, zeros included |
| TtyReader.MeanIsChronological | service/cutiepi/ttyreader/readall_mcu.c:31-42 | the published mean does not depend on where the ring wraps |
| TtyReader.MeanOfLastReadings | service/cutiepi/ttyreader/readall_mcu.c:31-42 | for readings that are not negative the published value is the floor of the mean of the nonzero ones among the last min(n,10), and there is none exactly when all of those are zero |
| TtyReader.PublishedBetweenExtremes | service/cutiepi/ttyreader/readall_mcu.c:31-42 | it lies between any bounds on those nonzero readings |
| TtyReader.VoltageLine | service/cutiepi/ttyreader/readall_mcu.c:67-135 | a line of any frames publishes, frame by frame, valid, key, charging state, and after each voltage frame the floor of the mean of the nonzero ones among the last ten readings so far |
| TtyReader.ChargeFrame | service/cutiepi/ttyreader/readall_mcu.c:126-130 | from every state a charge frame publishes "charging" exactly when its payload spells 4 |
| Cutoff.BuildFrame | service/cutiepi/cutoff/cutoff.c:37-48 | the array built in place, checksum accumulated in its last octet, is the encoding of command 5 with payload 0xF7 |
| Cutoff.FrameIsUnderstood | service/cutiepi/cutoff/cutoff.c:37-50 | the decoder of the link accepts that frame once, from every state |
| NmeaFramer.FramerIsExact | hal/gps/gnsshal/gps_zkw.c:834-860 | from idle the framer hands on exactly the surviving lines, byte for byte |
| NmeaFramer.KeptIff | hal/gps/gnsshal/gps_zkw.c:837-847 | line k is handed on, in its place, exactly when it has at most 128 characters with its newline and its predecessor did not swallow it by having exactly 129 |
| NmeaFramer.ChunksDoNotMatter | hal/gps/gnsshal/gps_zkw.c:1023-1041 | any chunking of the stream gives the same lines and the same state |
| NmeaTokenizer.Tokenizer.Init | hal/gps/gnsshal/gps_zkw.c:101-145 | the tokens are the first 24 fields of the body, in order, in bounds, and disjoint |
| NmeaTokenizer.Tokenizer.Text | hal/gps/gnsshal/gps_zkw.c:147-159 | a token is the text of its field, or empty when there is none |
| NmeaTokenizer.Tokenizer.Head | hal/gps/gnsshal/gps_zkw.c:147-159 | the character a token points at: its first, the comma behind an empty one, or a terminator |
| NmeaTokenizer.JoinInvertsFields | hal/gps/gnsshal/gps_zkw.c:123-141 | fields are comma-free and joining them restores the body up to one trailing comma |
| NmeaTokenizer.FieldsInvertJoin | hal/gps/gnsshal/gps_zkw.c:123-141 | cutting joined comma-free fields gives those fields back |
| NmeaTokenizer.SpansAreFields | hal/gps/gnsshal/gps_zkw.c:123-141 | the stretches between commas hold the fields, ordered and within bounds |
| NmeaTokenizer.Str2Int | hal/gps/gnsshal/gps_zkw.c:162-193 | the loop computes the signed 32-bit number a field spells, 0 for an empty and -1 for a malformed one |
| NmeaTokenizer.IntOfDecimal | hal/gps/gnsshal/gps_zkw.c:162-193 | a number that fits 32 bits is read back from its decimal notation |
| NmeaTokenizer.IntOfNegative | hal/gps/gnsshal/gps_zkw.c:162-193 | so is a negative one, behind its sign |
| NmeaTokenizer.IntOfOther | hal/gps/gnsshal/gps_zkw.c:162-193 | an empty field is 0, one with anything but digits behind an optional sign is -1 |
| NmeaSentence.NormalisedIsListedIff | hal/gps/gnsshal/gps_zkw.c:509-547 | normalising and listing a satellite number 1..32 gives back system and number except for GPS 32 |
| NmeaHistory.LocationReports | hal/gps/gnsshal/gps_zkw.c:693-818 | the location callback fires exactly once per processed RMC with status A and never otherwise, with an accuracy and exactly the parts updated since the last report, latest values |
| NmeaHistory.CollectedIsLatest | hal/gps/gnsshal/gps_zkw.c:396-507 | collected updates hold exactly the parts that were updated, each with its last value |
| NmeaHistory.FixIsCollected | hal/gps/gnsshal/gps_zkw.c:781-818 | between sentences the fix in progress is what was collected since the last reported one |
| NmeaHistory.ModeIsTracked | hal/gps/gnsshal/gps_zkw.c:649-651 | the fix mode is that of the last GSA sentence |
| NmeaHistory.UsedIff | hal/gps/gnsshal/gps_zkw.c:655-664 | in every run the used table marks exactly the numbers named since the last satellite report |
| NmeaHistory.EntryUsedIff | hal/gps/gnsshal/gps_zkw.c:552-555 | an entry below 256 is flagged as used exactly when a GSA with mode 2 or 3 since the last cleared report named it before its first empty slot |
| NmeaHistory.SatelliteListReports | hal/gps/gnsshal/gps_zkw.c:719-830 | with groups since the last RMC numbered 1..num and one count, an RMC reports exactly the satellites accepted in finished groups since then, in order, cut at 64, or nothing when there are none; what came before the last RMC does not matter |
| NmeaHistory.CountFitsList | hal/gps/gnsshal/gps_zkw.c:719-763 | with groups numbered that way since the last RMC the number of satellites never exceeds the 64 slots of the list |
| NmeaHistory.LineFitsIff | hal/gps/gnsshal/gps_zkw.c:719-763 | for any reader and line: the number still fits unless the line is the last message, not the only one, of its group, counted and committed satellites exceed the list, and it announces at least those counted |
| NmeaHistory.AlwaysFitsIff | hal/gps/gnsshal/gps_zkw.c:719-763 | in any run the number fits throughout exactly when no line is such a message |
| NmeaHistory.OvercommitIsReported | hal/gps/gnsshal/gps_zkw.c:753-763 | when the list is full, a further last message makes the next RMC report all that was counted and committed, more than the 64 it lists |
| NmeaHistory.IncompleteIsDropped | hal/gps/gnsshal/gps_zkw.c:753-763 | a last message that announces fewer satellites than are counted drops them and all committed before |
| NmeaHistory.GsvLists | hal/gps/gnsshal/gps_zkw.c:719-763 | each message of a well-numbered group keeps the list in step and the last one always commits |
| NmeaHistory.OnlyRmcReportsSatellites | hal/gps/gnsshal/gps_zkw.c:718-829 | no other sentence reports satellites |
| NmeaReading.NmeaReader.UpdatePosition | hal/gps/gnsshal/gps_zkw.c:396-428 | both coordinates are stored with their hemispheres, or neither when one is shorter than six characters |
| NmeaReading.NmeaReader.UpdateNumber | hal/gps/gnsshal/gps_zkw.c:443-507 | a nonempty field sets its flag and value, an empty one changes nothing |
| NmeaReading.NmeaReader.ParseGga | hal/gps/gnsshal/gps_zkw.c:613-630 | position and altitude updates |
| NmeaReading.NmeaReader.ParseGsa | hal/gps/gnsshal/gps_zkw.c:631-692 | fix mode, accuracy and used table after a GSA |
| NmeaReading.NmeaReader.MarkUsed | hal/gps/gnsshal/gps_zkw.c:655-664 | the loop marks exactly the numbers named up to the first empty slot |
| NmeaReading.NmeaReader.ParseRmc | hal/gps/gnsshal/gps_zkw.c:693-718 | position, bearing and speed updates and the two report requests |
| NmeaReading.NmeaReader.ParseGsv | hal/gps/gnsshal/gps_zkw.c:719-763 | a satellite message restarts, extends and commits the list |
| NmeaReading.NmeaReader.UpdateSv | hal/gps/gnsshal/gps_zkw.c:520-563 | a listed satellite is appended while there is room, others change nothing |
| NmeaReading.NmeaReader.ParseAccuracy | hal/gps/gnsshal/gps_zkw.c:765-775 | an accuracy counts only with a fix |
| NmeaReading.NmeaReader.ReportLocation | hal/gps/gnsshal/gps_zkw.c:808-817 | the reported fix always has an accuracy, 100 when none is known, and the flags are cleared |
| NmeaReading.NmeaReader.ReportSatellites | hal/gps/gnsshal/gps_zkw.c:821-830 | a nonempty list is reported and list and used table are cleared |
| NmeaReading.NmeaReader.Parse | hal/gps/gnsshal/gps_zkw.c:566-831 | a complete line changes state and reports as the sentence function says; no report request survives it |
| NmeaReading.NmeaReader.AddC | hal/gps/gnsshal/gps_zkw.c:834-860 | a character moves the framer one step; state and reports stay those of the lines handed on |
| NmeaReading.NmeaReader.Feed | hal/gps/gnsshal/gps_zkw.c:1035-1041 | a chunk appends its surviving lines to the history, and reports stay those of the history |
| NmeaReading.StreamReports | hal/gps/gnsshal/gps_zkw.c:1023-1042 | a fresh reader fed a stream in any chunks has made exactly the reports that the surviving lines of the whole stream call for |
| NmeaPrinting.PrintedIsRead | hal/gps/gnsshal/gps_zkw.c:101-145 | a printed sentence is tokenized into the fields it was printed from |
| NmeaPrinting.PrintedIsCut | hal/gps/gnsshal/gps_zkw.c:101-145 | any comma-free fields, printed, are read up to an empty last one and to the 24th |
| NmeaPrinting.BareIsCut | hal/gps/gnsshal/gps_zkw.c:107-121 | so are they without dollar sign and checksum, if the line has at least nine characters |
| NmeaPrinting.RmcReadBack | hal/gps/gnsshal/gps_zkw.c:693-717 | a printed RMC updates exactly the position, course and speed printed, only with status A |
| NmeaPrinting.GgaReadBack | hal/gps/gnsshal/gps_zkw.c:613-630 | a printed GGA updates exactly the position and altitude printed |
| NmeaPrinting.AccuracyReadBack | hal/gps/gnsshal/gps_zkw.c:766-775 | a printed accuracy sentence updates the accuracy in fix mode 2 or 3 only |
| NmeaPrinting.OthersAreIgnored | hal/gps/gnsshal/gps_zkw.c:776-779 | no sentence of another type does anything |
| NmeaPrinting.GsvReadBack | hal/gps/gnsshal/gps_zkw.c:719-752 | a printed satellite message is tokenized into its fields and read back: numbering, count, and the listed ones of its satellites, in order, under the system and number of their talker |
| NmeaPrinting.GsaReadBack | hal/gps/gnsshal/gps_zkw.c:631-664 | a printed GSA is tokenized into its fields and read back: mode, accuracy, and with mode 2 or 3 exactly its satellites, numbered by the system it ends with or its talker |
| NmeaRuns.ListCanOverflow | hal/gps/gnsshal/gps_zkw.c:719-763 | a printed message, sent six times, makes an RMC report 80 satellites in a list of 64; it fits the line buffer |
| NmeaRuns.SatellitesInView | hal/gps/gnsshal/gps_zkw.c:719-830 | up to 64 satellites printed four to a message, with numbering and count, and then an RMC, bring a report of exactly the listed ones, in order, whatever was counted before in an unfinished group |
| NmeaRuns.GgaThenRmc | hal/gps/gnsshal/gps_zkw.c:613-718 | a printed GGA and a printed RMC with status A bring one location with the position, altitude, course and speed printed |
| HciEvent.Receiver.ReadHciEvent | bluetooth/btuart/hciattach_rpi4.c:119-160 | for every split into short reads: count, buffer and bytes left are those of the first event on the line, or -1 at its end |
| HciEvent.Receiver.ReadFully | bluetooth/btuart/hciattach_rpi4.c:138-144 | the short-read loop delivers n bytes or fails when fewer arrive |
| HciEvent.ReadsEvent | bluetooth/btuart/hciattach_rpi4.c:127-159 | behind any bytes other than 0x04 an event is read up to the room there is, and exactly those bytes are consumed |
| HciEvent.NextEventIff | bluetooth/btuart/hciattach_rpi4.c:146-150 | after a read without room for all parameters the next event is read whole exactly when no byte left behind is 0x04 |
| HciEvent.EventsRoundTrip | bluetooth/btuart/hciattach_rpi4.c:119-160 | events that fit are read back one by one until the line is used up |
| HciFirmware.PacketsRestoreIff | bluetooth/btuart/hciattach_rpi4.c:550-572 | stripping the packets and concatenating restores the file exactly when it is a sequence of complete records |
| HciFirmware.OnePacketPerRecord | bluetooth/btuart/hciattach_rpi4.c:550-572 | one packet per record, in order, whatever the buffer held before |
| HciFirmware.Packets | bluetooth/btuart/hciattach_rpi4.c:550-568 | every packet has 4 to 259 bytes and so fits the buffer, for any file |
| HciInit.InStepIff | bluetooth/btuart/hciattach_rpi4.c:637-681 | for all honest replies, write failures and refused speed settings every command is written at equal speeds and every success ends at the requested speed, if and only if both speeds exist and a used firmware file is not empty |
| HciInit.ReadyIsGood | bluetooth/btuart/hciattach_rpi4.c:637-681 | for all honest replies, write failures and refused speed settings a ready bring-up is in step |
| HciInit.NotReadyIsBad | bluetooth/btuart/hciattach_rpi4.c:100-114 | otherwise it goes wrong even when everything is acknowledged |
| HciInit.SpeedBytes | bluetooth/btuart/hciattach_rpi4.c:481-484 | the four bytes of the speed command spell the speed |
| HciInit.SwitchSafe | bluetooth/btuart/hciattach_rpi4.c:469-509 | with honest replies a speed change that succeeds leaves both sides at the new speed, one that fails has written in step |
| HciInit.HonestAcceptance | bluetooth/btuart/hciattach_rpi4.c:493-501 | what the host accepts of an honest reply to the speed command is a command complete the controller sent for it |
| HciInit.AcceptedSwitchIff | bluetooth/btuart/hciattach_rpi4.c:469-509 | for any reply, a speed change that the host accepts leaves both sides at the new speed exactly when the controller acknowledged it or ran at that speed before |
| HciInit.MimicSwitchesHostAlone | bluetooth/btuart/hciattach_rpi4.c:498-505 | an event of any other code with the opcode and status 0 in bytes 4 to 6 makes the host switch, unless termios refuses, and not the controller |
| HciInit.UnrestrictedIff | bluetooth/btuart/hciattach_rpi4.c:637-681 | over all replies, honest or not, the bring-up is in step exactly when it changes no speed and the speed exists |
| HciActions.BringUpActions | bluetooth/btuart/hciattach_rpi4.c:227-681 | a bring-up that succeeds without a failing write has written exactly these octets and set the host to exactly these speeds, in order: initial speed, reset, name, with a firmware file speed change, download command, packets, initial speed and reset, then the address as six bytes that print as its text, and the speed change |
| HciActions.NoStaleBytes | bluetooth/btuart/hciattach_rpi4.c:227-681 | whatever the replies, no command or packet is written while bytes of an earlier answer are waiting |
| HciActions.ExampleBringUp | bluetooth/btuart/hciattach_rpi4.c:406-509 | from 115200 to 3000000 with an address, in literal octets |
| HciInit.AnsweredRun | bluetooth/btuart/hciattach_rpi4.c:637-681 | a bring-up whose commands are all answered with the parameters of a success succeeds, whatever the event code of the answers to speed commands; the speeds are those of its track |
| HciAttach.Serial.Exchange | bluetooth/btuart/hciattach_rpi4.c:383-404 | write, read, compare: success exactly when bytes 4 to 6 of the event repeat the opcode with status 0 |
| HciAttach.Serial.ReadLocalName | bluetooth/btuart/hciattach_rpi4.c:343-368 | the exchange of the name command |
| HciAttach.Serial.SetBdAddr | bluetooth/btuart/hciattach_rpi4.c:406-438 | an accepted address is sent, byte for byte, an unacceptable one is not |
| HciAttach.Serial.SetClock48 | bluetooth/btuart/hciattach_rpi4.c:440-467 | the exchange of the clock command |
| HciAttach.Serial.SetControllerSpeed | bluetooth/btuart/hciattach_rpi4.c:469-509 | clock command above 3000000, speed command, then the host's own speed, which may be refused |
| HciAttach.Serial.SetSpeed | bluetooth/btuart/hciattach_rpi4.c:100-114 | the host line takes a speed termios knows, hangs up at any other, and keeps its speed and fails when termios refuses |
| HciAttach.Serial.NextPacket | bluetooth/btuart/hciattach_rpi4.c:550-563 | the transmit buffer after one record, stale bytes included, and the rest of the file |
| HciAttach.Serial.LoadFirmware | bluetooth/btuart/hciattach_rpi4.c:511-583 | the download does what the script of its packets says, for any file, and terminates |
| HciAttach.DownloadIsLockStep | bluetooth/btuart/hciattach_rpi4.c:565-572 | every packet is written once, in order, with exactly one event read after it; a failing download does so for a prefix |
| HciAttach.Serial.Init | bluetooth/btuart/hciattach_rpi4.c:637-681 | the control flow of the initialisation is its script, with and without a patch |
| HciAttach.Serial.InitUart | bluetooth/btuart/hciattach_rpi4.c:227-249 | the same with the host's speed settings around it; with honest replies a ready bring-up is in step |
| HciAttach.BringUpInStepIff | bluetooth/btuart/hciattach_rpi4.c:227-249 | the in-step condition over all honest replies in terms of the caller's arguments |
| PatchSearch.LocatePatch | bluetooth/btuart/hciattach_rpi4.c:585-635 | the loop with recursion returns 0 and the path, or -1 with the location untouched, as the search function says |
| PatchSearch.SearchIff | bluetooth/btuart/hciattach_rpi4.c:598-630 | on every tree it succeeds exactly when some position leads to a firmware file unhidden, and gives the first such in depth-first listing order |
| PatchSearch.PathNamesFirmware | bluetooth/btuart/hciattach_rpi4.c:615-628 | the path lies below the root and ends in a name that starts with the chip name and ends in .hcd |
| PatchSearch.TypesSearched | bluetooth/btuart/hciattach_rpi4.c:604-615 | directories are searched, regular files and links are taken as files |
| PatchSearch.HiddenFirmware | bluetooth/btuart/hciattach_rpi4.c:615-623 | a chip-named file without the extension hides a firmware file listed behind it |
| BdAddress.Bachk | bluetooth/btuart/hciattach_rpi4.c:303-326 | the scan accepts exactly the 17-character texts of six hex pairs between colons |
| BdAddress.Str2Ba | bluetooth/btuart/hciattach_rpi4.c:328-341 | the buffer holds the pairs in reverse order, or zeros when the text is refused |
| BdAddress.AcceptedIff | bluetooth/btuart/hciattach_rpi4.c:303-326 | a text is accepted exactly when it has 17 characters, every third a colon, and the others hex digits of either case |
| BdAddress.ParseInvertsPrint | bluetooth/btuart/hciattach_rpi4.c:328-341 | printing an address and parsing it gives it back |
| BdAddress.PrintInvertsParse | bluetooth/btuart/hciattach_rpi4.c:328-341 | parsing an accepted text and printing gives it back in lower case |
| BdAddress.DeriveAddress | bluetooth/btuart/hciattach_rpi4.c:788-816 | the text built from the last six characters of the serial |
| BdAddress.DerivedIsAccepted | bluetooth/btuart/hciattach_rpi4.c:788-816 | it is accepted for any serial, carries the vendor prefix, and unmasking gives back what the serial spelt |
| BdAddress.DerivedDigits | bluetooth/btuart/hciattach_rpi4.c:788-816 | digit by digit the derived text is the vendor prefix and the last six characters of the serial with bits 1 and 3 inverted, or aa:aa:aa without six |
| CpuBoost.BoostIsExclusiveAndUndone | hal/power/power.c:49-126 | in every interleaving at most one boost thread is alive, named by the thread id, and scaling_min_freq is raised only between its raise and its restore |
| CpuBoost.PowerHal.BoostThread | hal/power/power.c:49-68 | one step of the boost thread: load ceiling, load floor, compare, raise, restore, clear the thread id |
| CpuBoost.PowerHal.CallerThread | hal/power/power.c:84-126 | one step of a hint or of a wake or suspend call inside the lock |
| CpuBoost.PowerHal.Enter | hal/power/power.c:86-113 | a caller enters only when the lock is free |
| CpuBoost.PowerHal.Perform | hal/power/power.c:49-126 | a schedule in place ends in the state that the run of its steps gives; from the initial state at most one boost thread is alive and the floor is raised only until that thread restores it |
| CpuBoost.BoostAlone | hal/power/power.c:49-68 | undisturbed, the boost raises the floor to the ceiling and puts it back |
| CpuBoost.HintAlone | hal/power/power.c:70-92 | undisturbed, an interaction hint starts one boost thread exactly when none is running |
| CpuBoost.OtherHintAlone | hal/power/power.c:84-104 | undisturbed, any other hint takes the lock and gives it back, and nothing else |
| CpuBoost.HintFails | hal/power/power.c:70-92 | a hint whose thread cannot be created leaves the thread id unset |
| CpuBoost.WakeAlone | hal/power/power.c:106-125 | undisturbed, a wake call returns with the ceiling at the configured one or the CPU maximum, and floor, threads and thread id unchanged |
| CpuBoost.SuspendAlone | hal/power/power.c:106-125 | undisturbed, a suspend call returns with the ceiling at the CPU minimum, and floor, threads and thread id unchanged |
| CpuBoost.CeilingIsKnown | hal/power/power.c:106-126 | scaling_max_freq only ever holds its original value, the configured ceiling or CPU maximum of a wake call, the CPU minimum, or the original minimum |
| CpuBoost.NextKeepsExclusive | hal/power/power.c:70-77 | every step keeps the lock exclusive and the thread id equal to the one live thread |
| CpuBoost.NextKeepsFiles | hal/power/power.c:49-68 | every step keeps the files and buffers within their values |
| CpuBoost.WakeTakesEffectIff | hal/power/power.c:106-125 | a wake call, from taking the lock to its return, frees the lock and leaves the configured ceiling, or the CPU maximum without one, exactly when the ceiling was that already, or no boost thread loads the old ceiling between its print and its write nor, without one configured, between its load of the CPU maximum and its reading of that |
| CpuBoost.SuspendTakesEffectIff | hal/power/power.c:106-125 | a suspend call, from taking the lock to its return, frees the lock and leaves the ceiling at the CPU minimum exactly when the floor is the CPU minimum or no boost thread loads the floor between the load of the CPU minimum and the write |
| CpuBoost.WakeCanBeLost | hal/power/power.c:51-118 | a schedule in which waking with a configured ceiling leaves the ceiling at the CPU minimum |
| CpuBoost.OldCeilingReadAsDefault | hal/power/power.c:51-116 | a schedule in which waking without a configured ceiling reads back the old one as its default |
| CpuBoost.SuspendCanBeLost | hal/power/power.c:51-123 | a schedule in which suspending sets the ceiling to the floor of 800 instead of the CPU minimum of 600 |
| CpuBoost.BoostRestoresIff | hal/power/power.c:52-62 | from a boost thread's load of the floor to its restoring, the floor is afterwards the one it loaded exactly when that is the CPU minimum or no suspend call loads the CPU minimum in between |
| CpuBoost.BoostCanLowerFloor | hal/power/power.c:52-121 | a schedule in which a boost leaves the floor at the CPU minimum |
| AudioPacing.InputStream.InRead | hal/audio/audio_hw.c:390-421 | silence is delivered and the clock moves by the sleep, as the advance function says |
| AudioPacing.InputStream.Standby | hal/audio/audio_hw.c:362-367 | standby resets the clock |
| AudioPacing.ClockLaw | hal/audio/audio_hw.c:401-412 | outside standby the clock is the later of now and the time the buffer drains |
| AudioPacing.ClockIsMaximum | hal/audio/audio_hw.c:401-412 | over a run the clock is the largest of the start plus all durations and each entry time plus all later durations |
| AudioPacing.ExactWhenNeverLate | hal/audio/audio_hw.c:401-412 | it equals the start plus the summed durations exactly when no read is late |
| AudioPacing.NeverTooFast | hal/audio/audio_hw.c:405-412 | n reads of F whole frames take more than F*1000000/rate - n microseconds |
| AudioPacing.NeverTooSlow | hal/audio/audio_hw.c:405-412 | a reader that is never late gets F frames in at most F*1000000/rate microseconds |
| AudioPacing.DurationOfFrames | hal/audio/audio_hw.c:405-406 | for whole frames the two nested divisions round only once |
| Battery.Health.CalcBatteryLevel | hal/health/health.cpp:227-238 | the walk from the highest threshold down computes the table level |
| Battery.LevelProperties | hal/health/health.cpp:55-59 | it is the level of the greatest threshold strictly below the voltage, exists exactly above 3000, and is monotone |
| Battery.FullLevel | hal/health/health.cpp:55-59 | the level is 100 exactly above 3890 |
| Battery.LevelsRiseByFive | hal/health/health.cpp:55-59 | behind the first entry the levels of the table are 5, 10 and so on to 100 |
| Battery.Health.GetCapacity | hal/health/health.cpp:253-277 | the reported and held capacity of one poll |
| Battery.DischargingReport | hal/health/health.cpp:265-276 | while discharging every report is the minimum of the capacity held and all levels seen, or 100 for an unusable voltage |
| Battery.HeldSince | hal/health/health.cpp:265-273 | over any polls the held capacity is the minimum of the levels from the last usable poll on that was not known to be discharging, or of the start and all levels without one |
| Battery.EveryReport | hal/health/health.cpp:253-277 | an unset charging state is reported as 100, charging as 99, a usable voltage while discharging as that minimum, an unusable one as 100 |
| Battery.LevelRecovers | hal/health/health.cpp:265-276 | 3500 discharging, 3870 charging and 3870 discharging are reported as 10, 99 and 90 |
| Battery.NeverRisesIff | hal/health/health.cpp:266-276 | reports never rise while discharging exactly when no unusable voltage follows a usable one that is at most 3890, or any usable one when less than 100 was held at the start |
| Battery.LowVoltageReadsFull | hal/health/health.cpp:265-276 | 3500 and then 3000 are reported as 10 and then 100 |
| Battery.AlwaysInRange | hal/health/health.cpp:253-277 | what is held and reported stays between 1 and 100 |

## Left out

- Timestamps, time zones and dates of the GPS reader, and the conversion of its texts to floating point: values are the texts they are computed from.
- The GPS thread's start and stop, epoll, and the interval counter that discards some chunks (`gps_zkw.c` lines 1017-1021).
- Satellite groups that are duplicated or out of order since the last RMC: the reader is modelled on them, and when the count outgrows the list is characterised, but the list theorem assumes numbered groups, because the count is not reset on commit.
- Signed overflow in satellite group numbering beyond 32 bits, and in the sum of the voltage ring: undefined in C, unbounded here.
- The value of payloads longer than three octets: C leaves the shift undefined; the model takes the arm64 instruction and no theorem uses it.
- The watchdog of ttyreader that exits when no frame validates (`readall_mcu.c` lines 139-146), and serialFlush, which drops octets that are not part of the stream read.
- Answers of the Bluetooth controller that reach the host only after a later flush: what arrives of an answer
  does so before the next instruction.
- Opening of ports and files, termios attributes other than the speed, line disciplines, signals and the 10-second alarm: an alarm ends a run early, which leaves a prefix of a modelled run.
- The copy of the controller's name (`hciattach_rpi4.c` lines 370-373): the chip name is a parameter of the search.
- Truncation of search paths at PATH_MAX.
- Errors of sysfs reads and writes in the power HAL, and clamping of the frequency files by the kernel.
- 64-bit overflow of bytes * 1000000 in the audio clock, and usleep waking early or being cut to 32 bits: the clock does not depend on them.
- The fake-battery properties and the fixed fields of the health report, which are assignments of constants.
- Audio output and mixer stubs, lights, GPIO tools, settings applications, and all configuration files.
