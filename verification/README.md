# Inverter bridge: verified model

A Dafny model of a bridge that reads solar inverters over noisy Modbus RTU
lines and a battery bank over Bluetooth, integrates energy and publishes it.
The modules follow the program:

| module | program part |
|---|---|
| Crc, CrcAlgebra, CrcErrors, CrcPeriod | the CRC-16 register and the errors it detects |
| Modbus | function 3 requests, responses and exceptions |
| FrameStream, StreamTheorems | the two walks over a noisy byte stream, and what they guarantee |
| SerialQuery, QueryClock | choosing our response, and the read loop that re-scans its buffer until its deadline |
| PollScheduler, PollTiming | one poll per inverter and round on a thread pool; the retry loop and the worker timeout |
| Octopus, BleClient | the battery packs' frames, and one request over a notification queue |
| BankAggregator | the bank's figures from the packs' readings |
| BmsTrace, BmsEnergy, BmsService, BmsTurns, BmsRuns | the Bluetooth poll loop: stale packs, counters, energy, watchdog, back-off |
| EnergyIntegrator, EnergyRuns | the six energy counters, their file, and runs with crashes |
| AtomicFile, Powers, Wrappers | shared: how a save can end, powers of two, options and results |

Code that updates state is modelled by methods and classes with the same
fields; each method is proved equal to a function of its inputs and the old
state, and the lemmas are about that function. Bytes are `bv8`, the CRC
register is `bv16`, numbers the program holds as floats are `real`. What comes
from outside (bytes read, notifications, clock readings, thread interleavings,
file errors, the stop event) is a parameter, and the results hold for every
value of it.

## Where the program and its description differ

The model follows the code.

- `serial_io.py:107-110` says a response is paired with the nearest preceding
  request of its slave. In the code any response clears the pending request,
  and a request of any other slave replaces it; skipped bytes and exceptions do
  neither. The two agree exactly when no request of the slave precedes, or
  nothing but skips and exceptions followed the nearest one
  (`StreamTheorems.DocumentedExact`); they differ on a request of the slave
  followed by another slave's request (`StreamTheorems.DocumentedFails`).
- `energy_integrator.py:223-231` promises zeros for a malformed file or another
  version. Three kinds of file raise out of `load` instead: bytes that are not
  UTF-8; text on which the JSON decoder raises something other than its decode
  error (an integer of more than 4300 digits anywhere, nesting too deep); and an
  object of the current version with a counter too large for a float. The
  version `true` passes as 1. Among the kinds of file that are modelled the
  description fails for exactly these (`EnergyIntegrator.DescribedExact`, with
  one of each in `EnergyIntegrator.DescriptionFails`).
- Counters that come back after a crash can exceed the lost ones. They do not
  exactly when the last start could read the file, or a save has completed
  since, or the samples since that start have caught up with the file
  (`EnergyRuns.NeverAheadExact`; a run in which they do exceed is
  `EnergyRuns.OldCountersReturn`). The Bluetooth service's counters behave the
  same way (`BmsEnergy.RestartExact`, `BmsEnergy.OldEnergyReturns`).
- `bms/service.py:150` reports a start at zero when the file cannot be used.
  When only the second field is bad, the first one has been loaded already
  (`BmsEnergy.FailedLoadIsZero`, `BmsEnergy.FailedLoadKeepsEnergy`).
- One query at a time per serial port needs distinct ports, which loading the
  configuration does not check (`PollScheduler.PortsExact`).
- `daemon.py:96-107` derives the worker timeout so that the slowest legal cycle
  completes. It charges two serial timeouts a query, but a write and a read
  begun just before the deadline can together come as close as one likes to
  three (`PollTiming.QueryBound`, `PollTiming.LateQuery`). The timeout covers
  every poll exactly when the larger tier's blocks, at one serial timeout an
  attempt with their back-offs and delays, fit in 20 seconds
  (`PollTiming.TimeoutAdequate`); for the daemon's blocks that is 5 seconds a
  block, and the default configuration needs 4.85
  (`PollTiming.BlocksAdequate`).
- The first reconnect wait is not cut to the maximum, and a link that came up
  and was lost puts the next failure one doubling further
  (`BmsRuns.BackoffExact`, `BmsRuns.StreakExact`).

## Model

| member | source | states |
|---|---|---|
| Crc.ComputeCrc16 | inverter_bridge/crc.py:12-19 | the loops compute the register's value, low byte first |
| Crc.ComputeCrc16Modbus | inverter_bridge/bms/octopus_protocol.py:63-76 | the second implementation has the same register, and its little-endian bytes are the first one's result |
| CrcAlgebra.RegisterXor | inverter_bridge/crc.py:14-18 | the register is affine: XOR of two equally long messages and start values gives the XOR of the registers |
| CrcAlgebra.ShiftInjective | inverter_bridge/crc.py:18 | no two registers shift to the same one |
| CrcAlgebra.RegisterIsBitSerial | inverter_bridge/crc.py:16-18 | the byte loop equals feeding the wire bits, low bit first, one at a time |
| CrcAlgebra.RegisterIsRemainder | inverter_bridge/crc.py:12-19 | the register is the schoolbook remainder of the message by x^16 + x^15 + x^2 + 1 (section 6.2.2 of MODBUS over Serial Line V1.02) |
| CrcErrors.TrailerUnique | inverter_bridge/crc.py:12-19 | only the register's own two bytes bring it to zero |
| CrcErrors.ResidueZero | inverter_bridge/bms/octopus_protocol.py:79-85 | a frame checks iff the register over body and trailer ends at zero |
| CrcErrors.CorruptionSeen | inverter_bridge/crc.py:12-19 | a checked frame hit by an error still checks iff the error alone leaves a zero register |
| CrcErrors.BurstSeen | inverter_bridge/crc.py:12-19 | errors confined to sixteen consecutive wire bits are seen, in frames of any length |
| CrcErrors.ParityRegister | inverter_bridge/crc.py:14-18 | the register's parity is its start's parity plus that of the bits fed |
| CrcErrors.OddSeen | inverter_bridge/crc.py:12-19 | an odd number of flipped bits is seen, in frames of any length |
| CrcPeriod.OrderOfX | inverter_bridge/crc.py:18 | d shifts bring 1 back to 1 iff d is a multiple of 32767 |
| CrcPeriod.TwoFlipsSeen | inverter_bridge/crc.py:12-19 | two flips go unseen iff their distance is a multiple of 32767 bits |
| CrcPeriod.VisibleBreaksCrc | inverter_bridge/bms/octopus_protocol.py:79-85 | none of these errors leaves a checked frame checking |
| Modbus.ParseResponseExact | inverter_bridge/modbus.py:68-100 | a frame is returned iff the buffer starts with exactly that frame's encoding, for the slave and count asked |
| Modbus.EncodedResponseParts | inverter_bridge/modbus.py:68-100 | an encoded response has the slave, function, byte count and big-endian registers it was made of, and a valid CRC |
| Modbus.CorruptResponseRejected | inverter_bridge/modbus.py:68-100 | a response hit by any of the errors above never yields a frame |
| Modbus.FewFlipsRejected | inverter_bridge/modbus.py:68-100 | one, two or three flipped bits anywhere in a response never yield a frame |
| Modbus.ParseRaisedExact | inverter_bridge/modbus.py:75-86 | an exception is raised, with its function and code, iff the buffer starts with its encoding for the slave asked |
| FrameStream.ParseFrameStream | inverter_bridge/serial_io.py:28-91 | the loop yields the responses and the CRC callbacks of the whole walk |
| FrameStream.ResponsesWithContext | inverter_bridge/serial_io.py:94-162 | the second loop, its own copy of the branches, yields the same walk's responses with their request addresses, and as many callbacks |
| StreamTheorems.HeadTile | inverter_bridge/serial_io.py:49-90 | each token encodes to exactly the bytes its step consumed |
| StreamTheorems.WalkTiles | inverter_bridge/serial_io.py:49-90 | the tokens tile the stream from its start; at most four bytes remain |
| StreamTheorems.HeadExact | inverter_bridge/serial_io.py:53-90 | a framed item is read back whatever follows, iff it is not a request whose bytes also read as a checked response |
| StreamTheorems.FramesRead | inverter_bridge/serial_io.py:53-90 | responses of slaves 1..247 with 1..125 registers, and exceptions, are read back whatever follows |
| StreamTheorems.RequestsRead | inverter_bridge/serial_io.py:79-84 | so are requests whose bytes do not also read as a checked response |
| StreamTheorems.OthersSkipped | inverter_bridge/serial_io.py:53-55 | a first byte outside 1..247 is skipped without a callback |
| StreamTheorems.BuiltRequest | inverter_bridge/modbus.py:49-65 | a request is built iff count and address are in range, checks, and is read back by the walk |
| StreamTheorems.Composition | inverter_bridge/serial_io.py:49-91 | framed items then a tail: the items' responses in order, then the tail's, and no callback before the tail |
| StreamTheorems.RoundTrip | inverter_bridge/serial_io.py:49-91 | the same for all responses, exceptions, fillers and requests whose address high byte is no even number in 2..250 |
| StreamTheorems.HeadStable | inverter_bridge/serial_io.py:120-161 | with 255 bytes in view a step does not depend on what follows |
| StreamTheorems.SettledStable | inverter_bridge/serial_io.py:120-161 | the steps from such positions are a prefix of every walk over a longer buffer |
| StreamTheorems.SettledFramesFinal | inverter_bridge/serial_io.py:120-162 | their frames and request addresses never change as bytes arrive |
| StreamTheorems.TruncationDisagrees | inverter_bridge/serial_io.py:61-62 | a response cut short is never read as one, so a prefix's walk is then no prefix of the walk |
| StreamTheorems.PendingExact | inverter_bridge/serial_io.py:136-153 | the pending request is the first request or response met going back over skips and exceptions, if it is a request |
| StreamTheorems.ContextExact | inverter_bridge/serial_io.py:136-153 | a response carries an address iff that address was last asked of its slave |
| StreamTheorems.DocumentedExact | inverter_bridge/serial_io.py:107-110 | the code's pairing is the described one iff no request of the slave precedes or only skips and exceptions followed the nearest |
| StreamTheorems.DocumentedFails | inverter_bridge/serial_io.py:107-110 | a response, or any other slave's request, hides a request the description still counts |
| StreamTheorems.PairedFrames | inverter_bridge/serial_io.py:94-162 | the frames among the second loop's pairs are those of the first loop, in the same order |
| StreamTheorems.ParsersAgree | inverter_bridge/modbus.py:75-100 | the single-frame parser returns a frame iff the walk's first token is that response |
| StreamTheorems.CrcErrorExact | inverter_bridge/serial_io.py:57-77 | a callback fires iff a plausible complete response fails its check where no checked request stands |
| SerialQuery.SelectIsBest | inverter_bridge/serial_io.py:188-198 | the selection is the least match by tier and stream position, and there is none iff nothing matches |
| SerialQuery.SelectPriority | inverter_bridge/serial_io.py:188-198 | the first match that answers our own address if there is one, else the first match nobody asked for, else the first match |
| SerialQuery.SelectResponse | inverter_bridge/serial_io.py:165-198 | the three passes make that selection, with one scan's callbacks |
| SerialQuery.FindMarker | inverter_bridge/serial_io.py:288-294 | the search finds the leftmost marker from a position on, or none is there |
| SerialQuery.FindException | inverter_bridge/serial_io.py:286-295 | the leftmost complete exception with a valid CRC |
| SerialQuery.ExceptionInExact | inverter_bridge/serial_io.py:286-295 | the leftmost encoded 0x83 exception of the slave is raised, as function 3 with the code it carries; without one nothing is |
| QueryClock.ReadPhase | inverter_bridge/serial_io.py:259-263 | the reads of a query take less than two timeouts, if each keeps to its own |
| QueryClock.LateRead | inverter_bridge/serial_io.py:259-263 | and come as close to two as one likes |
| QueryClock.SilentRead | inverter_bridge/serial_io.py:259-263 | a silent port takes one timeout |
| SerialQuery.Query | inverter_bridge/serial_io.py:226-283 | the outcome is the verdict at the first chunk boundary before the deadline that has one, a match before an exception; callbacks are the sum over all scans; the time is that of the reads done; the second look after the deadline finds nothing |
| SerialQuery.OutcomeExact | inverter_bridge/serial_io.py:250-283 | the first boundary that shows a match or an exception decides, a match before an exception; none: timeout |
| SerialQuery.ScanErrorsExact | inverter_bridge/serial_io.py:263-270 | each non-empty chunk costs the callbacks of one scan of all bytes so far |
| SerialQuery.ExceptionStable | inverter_bridge/serial_io.py:286-295 | an exception found in a prefix is the one found in every longer buffer |
| SerialQuery.ChunkingExact | inverter_bridge/serial_io.py:250-283 | for every chunking: a timeout iff no boundary has a verdict, an exception raised is the leftmost of all bytes, and bytes with a match or an exception never time out |
| SerialQuery.ReturnedIsReal | inverter_bridge/serial_io.py:250-270 | a returned frame has our slave and count, and its encoding stands among the bytes read |
| SerialQuery.FramedResponseFound | inverter_bridge/serial_io.py:250-283 | framed traffic that holds a matching response ends the query, in any chunks and before any tail |
| PollScheduler.RoundsConserved | inverter_bridge/daemon.py:262-279 | in every interleaving, an inverter's rounds are its skips, successes, failures, crashes and the at most one poll in flight |
| PollScheduler.FailCountExact | inverter_bridge/daemon.py:362-368 | the fail count is the skips and failures since the last success |
| PollScheduler.FailsExact | inverter_bridge/daemon.py:262-279 | the fail count reaches c iff c skips or empty bookings are in the history with no success after the first of them |
| PollScheduler.AllowedExact | inverter_bridge/daemon.py:262-282 | for each event of an inverter, whether it can happen next, from the events since its last submission |
| PollScheduler.UnfinishedExact | inverter_bridge/daemon.py:263-264 | a poll is still running iff one was submitted and has neither finished nor crashed since |
| PollScheduler.ResultExact | inverter_bridge/daemon.py:282-296 | a future gives the blocks its poll booked once that poll has finished, and nothing before that or after a crash |
| PollScheduler.OfferedAll | inverter_bridge/daemon.py:245-313 | every legal interleaving of worker events is one of the schedules |
| PollScheduler.TurnExact | inverter_bridge/daemon.py:262-279 | a turn lets any legal worker events happen, then skips an inverter whose poll is unfinished and submits any other |
| PollScheduler.GatheredExact | inverter_bridge/daemon.py:280-296 | each result of a round is what that round's poll gives, in terms of the events before its gather |
| PollScheduler.NeverQueuesBehind | inverter_bridge/daemon.py:89-95 | outstanding polls never exceed the pool and a queued poll always finds a thread |
| PollScheduler.PortsExact | inverter_bridge/daemon.py:61-70 | no two workers ever share a port iff no two configured inverters do |
| PollScheduler.Daemon.PollAllParallel | inverter_bridge/daemon.py:245-313 | one round, for every schedule of worker events: the run it leaves, who was submitted and who skipped; each submitted inverter's result is what its poll booked if it finished before the gather, any other result is empty; offline iff three misses without a success after the first; no poll waits for a thread |
| PollScheduler.Daemon.SkipOrSubmit | inverter_bridge/daemon.py:262-279 | a poll still running is skipped and raises the fail count, else a new one is submitted and the count stays |
| PollScheduler.TurnedMeans | inverter_bridge/daemon.py:261-279 | the futures list holds, in order, the inverters that were submitted; each other one was skipped |
| PollScheduler.Daemon.PublishStatuses | inverter_bridge/daemon.py:304-312 | an inverter is offline iff the history holds three skips or empty bookings of it with no success after the first of them |
| PollTiming.PollInverter | inverter_bridge/daemon.py:315-359 | the retry loops: the blocks whose last reply parsed, success iff there is one, and the seconds spent |
| PollTiming.SettledExact | inverter_bridge/daemon.py:326-351 | the first reply that is no timeout counts, within the attempts |
| PollTiming.ParsedExact | inverter_bridge/daemon.py:321-359 | exactly the tier's blocks whose first such reply is a frame that parses are returned |
| PollTiming.AttemptTimeExact | inverter_bridge/daemon.py:326-359 | the time on a block: its queries up to that reply and backoff * (2^a - 1) for the a timeouts before it |
| PollTiming.PollBound | inverter_bridge/daemon.py:321-359 | with at most q a query, a poll takes at most B * (q * r + backoff * (2^(r-1) - 1) + delay), and exactly that if every query takes q and times out |
| PollTiming.QueryBound | inverter_bridge/serial_io.py:233-275 | a query's write and reads take less than three timeouts |
| PollTiming.LateQuery | inverter_bridge/serial_io.py:233-275 | no smaller bound holds |
| PollTiming.TwoTimeoutsAdequate | inverter_bridge/daemon.py:96-107 | if no query takes more than two serial timeouts, the worker timeout covers every poll iff B * (backoff * (2^(r-1) - 1) + delay) is at most 20 |
| PollTiming.TimeoutAdequate | inverter_bridge/daemon.py:96-107 | on every bus that keeps to the serial timeouts the worker timeout covers every poll iff B * (T * r + backoff * (2^(r-1) - 1) + delay) is at most 20 for the larger tier |
| PollTiming.BlocksAdequate | inverter_bridge/srne_map.py:44-54 | for the daemon's blocks: iff T * r + backoff * (2^(r-1) - 1) + delay is at most 5, which is 4.85 by default |
| Octopus.PiaRequests | inverter_bridge/bms/octopus_protocol.py:39-44 | the built PIA requests are the literal ones |
| Octopus.PibRequests | inverter_bridge/bms/octopus_protocol.py:46-51 | the built PIB requests are the literal ones |
| Octopus.VerifyCrcIsCrcOk | inverter_bridge/bms/octopus_protocol.py:79-85 | the packs' CRC check is the inverters' one |
| Octopus.CorruptFrameRejected | inverter_bridge/bms/octopus_protocol.py:155-168 | a pack's frame hit by any of the errors above is a CRC mismatch |
| Octopus.OctopusErrorsExact | inverter_bridge/bms/octopus_protocol.py:155-197 | which frames decode, to which type, and which error each other frame raises |
| Octopus.PiaRoundTrip | inverter_bridge/bms/octopus_protocol.py:200-232 | 18 registers of packs 1..4, encoded and parsed, give the typed fields, the current signed |
| Octopus.PibRoundTrip | inverter_bridge/bms/octopus_protocol.py:235-295 | 26 registers give the cells, and the temperatures as raw / 10 - 273.15, missing iff raw is 0x0AAB |
| Octopus.PibStatistics | inverter_bridge/bms/octopus_protocol.py:256-261 | smallest and largest cell are cells and bound all, the average is the floor of the sixteen cells' sum over 16 and lies between |
| Octopus.PibTail | inverter_bridge/bms/octopus_protocol.py:263-280 | through the parser, the temperatures always come from payload offset 32, as raw / 10 - 273.15, missing iff raw is 0x0AAB |
| BleClient.OctopusBleClient.Connect | inverter_bridge/bms/ble_client.py:80-89 | nothing happens when the link is up; a refused connection leaves a dead client, a refused subscription a connected one, and both raise |
| BleClient.OctopusBleClient.Disconnect | inverter_bridge/bms/ble_client.py:91-107 | no client, and late answers dropped if there was one |
| BleClient.OctopusBleClient.Request | inverter_bridge/bms/ble_client.py:125-176 | the first of at most three new notifications whose header matches, what is left in the queue; old ones never count |
| BleClient.FirstMatchExact | inverter_bridge/bms/ble_client.py:146-170 | an answer behind mismatching frames is found iff it is among the first three |
| BleClient.OctopusBleClient.PollPia | inverter_bridge/bms/ble_client.py:178-187 | the first match that decodes is returned, as a reading of the pack asked for; one that does not is an error; the wrong-type error never happens |
| BleClient.OctopusBleClient.PollPib | inverter_bridge/bms/ble_client.py:189-198 | the same for PIB |
| BleClient.TypeFollowsHeader | inverter_bridge/bms/ble_client.py:165-187 | a frame that passed the header checks decodes to the type asked for or not at all |
| BankAggregator.MaxCellTemp | inverter_bridge/bms/aggregator.py:133-139 | the hottest cell that reports a value, none iff none does |
| BankAggregator.AggregateOne | inverter_bridge/bms/aggregator.py:83-131 | every figure of a bank of one pack |
| BankAggregator.AggregateMore | inverter_bridge/bms/aggregator.py:83-131 | what one more pack does to every figure |
| BankAggregator.SplitsAddUp | inverter_bridge/bms/aggregator.py:107-131 | charge minus discharge current is the total, charging minus discharging power is the power, one of the two is zero |
| BankAggregator.AverageBetween | inverter_bridge/bms/aggregator.py:49-62 | the average lies between the extremes |
| BankAggregator.PowerDeviation | inverter_bridge/bms/aggregator.py:99-131 | V_avg * I_total misses the packs' net power by at most the voltage spread times the current that flows |
| BankAggregator.OrderIrrelevant | inverter_bridge/bms/aggregator.py:83-131 | every figure from the PIA readings is independent of the order of the packs |
| BankAggregator.HottestUnique | inverter_bridge/bms/aggregator.py:133-139 | neither does the hottest cell depend on it |
| BmsTrace.StaleExact | inverter_bridge/bms/service.py:401-415 | with a monotone clock, after a check the stale list is exactly the packs whose last PIA answer is older than the timeout |
| BmsTrace.StaysOut | inverter_bridge/bms/service.py:405-415 | a stale pack stays stale and out of the bank until it answers a PIA poll |
| BmsTrace.LogAlternates | inverter_bridge/bms/service.py:306-311 | expired and recovered alternate per pack, starting with expired; stale iff the last was an expiry |
| BmsTrace.NothingExpired | inverter_bridge/bms/service.py:404-409 | each PIA reading of the bank is a pack's last answer and no older than the timeout, one per pack |
| BmsTrace.NothingMissing | inverter_bridge/bms/service.py:404-409 | every pack whose last PIA answer is no older than the timeout is in the bank with it |
| BmsTrace.NoPibExpired | inverter_bridge/bms/service.py:416-420 | each PIB reading of the bank is a pack's last PIB answer and no older than its cutoff, one per pack |
| BmsTrace.NoPibMissing | inverter_bridge/bms/service.py:416-420 | every pack whose last PIB answer is no older than the cutoff has its cells in the bank |
| BmsTrace.CountersAddUp | inverter_bridge/bms/service.py:312-315 | the total of answers is the sum over the packs, PIA answers never exceed answers |
| BmsTrace.CountsExact | inverter_bridge/bms/service.py:312-315 | the counters are the numbers of answers, of a pack's answers and of its PIA answers in the history |
| BmsEnergy.CycleGrows | inverter_bridge/bms/service.py:478-491 | a cycle never lowers a counter, moves at most one, and adds power * gap / 3600 if there is data and the gap is in (0, 60) |
| BmsEnergy.BankEnergyConserved | inverter_bridge/bms/service.py:478-491 | over any cycles, in - out moves by the integral of the bank power over gaps in (0, 60) with data, and neither counter falls |
| BmsEnergy.SavedRecently | inverter_bridge/bms/service.py:494-499 | from a process's second cycle on, a cycle with data never ends with the last save attempt thirty seconds or more ago |
| BmsEnergy.SavesApart | inverter_bridge/bms/service.py:494-499 | a cycle saves iff it has data, is not the process's first and the last save is thirty seconds or more ago |
| BmsEnergy.FileExact | inverter_bridge/bms/service.py:154-174 | the file becomes the counters of that moment iff a save is due and completes its five operations |
| BmsEnergy.LastSaveKept | inverter_bridge/bms/service.py:154-174 | whatever is cut short since, the file holds the counters of the last completed save |
| BmsEnergy.RestartExact | inverter_bridge/bms/service.py:117-174 | a restart that can read has no more than was lost iff the last start could read, or a save has completed since, or the cycles since have caught up; after a stop whose save completed it has exactly that |
| BmsEnergy.OldEnergyReturns | inverter_bridge/bms/service.py:139-152 | a run in which nothing is lost and 1000 Wh come back |
| BmsService.BmsService.KeepPia | inverter_bridge/bms/service.py:306-315 | an answered PIA poll adds its event to the history that the caches, the stale list, the log and the counters follow |
| BmsService.BmsService.KeepPib | inverter_bridge/bms/service.py:340-345 | an answered PIB poll adds its event to the history that the PIB caches and the counters follow |
| BmsService.BmsService.FreshStates | inverter_bridge/bms/service.py:394-421 | the readings within their ages, and the check added to the history |
| BmsService.BmsService.IntegrateEnergy | inverter_bridge/bms/service.py:478-499 | energy, sample time, save time and file after a cycle |
| BmsService.BmsService.LoadEnergyState | inverter_bridge/bms/service.py:139-152 | the counters after a load, field by field, for every file and for a read that fails |
| BmsService.BmsService.SaveEnergyState | inverter_bridge/bms/service.py:154-174 | wherever the five file operations are cut, and whatever temporary file was left before, the file is the old one or the complete counters |
| BmsService.BmsService.PollLoop | inverter_bridge/bms/service.py:289-392 | for every script of polls the loop's exit, history and energy are those of the turn-by-turn definition, and each check's hottest cell is that of its recent PIB readings |
| BmsService.BmsService.RunAsync | inverter_bridge/bms/service.py:265-287 | the waits between attempts, where it stops, one poll loop per connection, and all their hottest cells |
| BmsRuns.Watchdog | inverter_bridge/bms/service.py:356-368 | the loop gives up after the first turn that completes max_failed_cycles silent turns in a row, and only then; the history and the reason of every other way out |
| BmsTurns.TurnHears | inverter_bridge/bms/service.py:300-354 | exactly the polls reached and answered are booked, poll i to pack i; PIB polls happen iff the PIA round finished and the slow interval has passed |
| BmsTurns.TurnOrder | inverter_bridge/bms/service.py:303-354 | in the order PIA before PIB, each by pack number |
| BmsTurns.TurnLeft | inverter_bridge/bms/service.py:300-354 | a turn is left iff some poll calls for it, for the first one's reason |
| BmsRuns.DeadLinkGivenUp | inverter_bridge/bms/service.py:356-368 | if nothing ever answers, after exactly that many turns |
| BmsRuns.BackoffExact | inverter_bridge/bms/service.py:283-287 | a wait is min(initial * 2^k, max), except that the first is not cut |
| BmsRuns.StreakExact | inverter_bridge/bms/service.py:265-287 | k is the failed attempts in a row before it, plus one if they follow a lost link |
| BmsRuns.TotalsAgree | inverter_bridge/bms/service.py:312-344 | across all cycles and reconnects the total counter is the sum of the packs' counters, PIA counters stay below |
| BmsRuns.LoopEnergy | inverter_bridge/bms/service.py:370-375 | a loop's energy is that of one sample for each of its checks: the packs recent then, at the instant its turn sampled |
| BmsRuns.AttemptedEnergy | inverter_bridge/bms/service.py:265-375 | across all connections the energy is that of their loops' samples, one after the other, one for each check in the history |
| BmsRuns.ServiceEnergyConserved | inverter_bridge/bms/service.py:265-499 | over a process's whole run, in - out moves by the integral of the bank power over exactly those samples, and neither counter falls |
| BmsRuns.ServiceIsRun | inverter_bridge/bms/service.py:117-499 | energy and file of a process over all its connections are those of one of the runs of BmsEnergy |
| BmsRuns.HottestIsRecent | inverter_bridge/bms/service.py:371-372 | a published hottest cell is a cell of a pack's last PIB answer, no older than the cutoff |
| BmsRuns.PublishedIsRecent | inverter_bridge/bms/service.py:300-372 | every hottest cell published in a run is one that was recent at its check |
| BmsRuns.PublishedMissesNone | inverter_bridge/bms/service.py:300-421 | no cell recent at that check is hotter |
| BmsRuns.SampleIsRecent | inverter_bridge/bms/service.py:300-375 | so is every reading of every bank whose power is integrated |
| BmsRuns.SampleMissesNone | inverter_bridge/bms/service.py:300-421 | and every pack with a recent last answer at a check is in that check's bank |
| EnergyIntegrator.NearestMonotone | inverter_bridge/energy_integrator.py:173-178 | rounding to three decimals, ties to even, keeps order |
| EnergyIntegrator.NearestIsNearest | inverter_bridge/energy_integrator.py:173-178 | the rounded figure is a nearest one, the even one of two |
| EnergyIntegrator.SnapshotExact | inverter_bridge/energy_integrator.py:173-178 | each published figure is its own counter in kWh, to three decimals |
| EnergyIntegrator.OneDirection | inverter_bridge/energy_integrator.py:136-169 | a rejected sample changes nothing; of each in/out pair at most one side moves, and upwards |
| EnergyIntegrator.NeverDecrease | inverter_bridge/energy_integrator.py:113-178 | over any samples, counters and published kWh never fall |
| EnergyIntegrator.EnergyConserved | inverter_bridge/energy_integrator.py:136-169 | in - out moves by exactly the signed power integrated over accepted samples, for battery and grid |
| EnergyIntegrator.CountersExact | inverter_bridge/energy_integrator.py:136-169 | each of the six counters moves by its own signal's positive or negative part times elapsed / 3600, over the samples with elapsed in (0, 600] |
| EnergyIntegrator.SaveLoad | inverter_bridge/energy_integrator.py:182-291 | load after save gives the counters back iff none is negative |
| EnergyIntegrator.RestoredExact | inverter_bridge/energy_integrator.py:246-291 | field by field, what a current object brings back |
| EnergyIntegrator.DescribedExact | inverter_bridge/energy_integrator.py:223-291 | the files for which load does what its description says |
| EnergyIntegrator.DescriptionFails | inverter_bridge/energy_integrator.py:223-291 | one file of each kind for which it does not |
| EnergyIntegrator.EnergyIntegrator.Update | inverter_bridge/energy_integrator.py:113-178 | one sample adds each counter's gain, and the rounded counters are returned |
| EnergyIntegrator.EnergyIntegrator.Save | inverter_bridge/energy_integrator.py:182-221 | wherever an OSError, an interrupt or a power loss cuts it, the file is the old one or the complete counters; a temporary file remains only after an interrupt, a power loss or a failing unlink |
| EnergyIntegrator.EnergyIntegrator.LoadState | inverter_bridge/energy_integrator.py:223-291 | what every kind of file does to the counters, and which ones raise |
| EnergyIntegrator.Start | inverter_bridge/energy_integrator.py:104-109 | counters of a new integrator |
| EnergyRuns.AlwaysLoads | inverter_bridge/energy_integrator.py:182-291 | a file that loads keeps loading over any run, and counters stay non-negative |
| EnergyRuns.FileIsLastCommit | inverter_bridge/energy_integrator.py:182-221 | the file is the first one or the complete counters of the last save that reached its rename |
| EnergyRuns.RestartRestores | inverter_bridge/energy_integrator.py:182-291 | a restart comes back with exactly the counters of the last completed save, zero if there is no file |
| EnergyRuns.CountersAheadOfFile | inverter_bridge/energy_integrator.py:104-291 | the counters are the file's plus the samples taken since |
| EnergyRuns.NothingInvented | inverter_bridge/energy_integrator.py:104-291 | if the last start could read the file or a save has completed since, a crash loses exactly the samples since, no more comes back than was lost |
| EnergyRuns.NeverAheadExact | inverter_bridge/energy_integrator.py:104-291 | over every run: no more comes back than was lost iff that holds, or the samples since the last start have caught up with the file |
| EnergyRuns.UnreadableStart | inverter_bridge/energy_integrator.py:232-245 | a start leaves the file ahead of the counters iff it could not read a file that holds energy |
| EnergyRuns.OldCountersReturn | inverter_bridge/energy_integrator.py:232-245 | a run in which more comes back than was lost |

## Left out

- SerialQuery.Query: the slave is a byte, so a slave outside 0..255, which makes building the request raise, is not modelled; nor are the port's own errors and buffers. The time between reads is not counted: a script of reads that ends early ends at the deadline.
- FrameStream.ParseFrameStream: a missing CRC callback is not modelled: the model counts where it would be called.
- PollScheduler.Daemon.PollAllParallel: a wait that times out is a gather that finds its future not done; durations, publishing errors and shutting down the pool are not modelled. If two inverters had one name, a gather would look at that name's latest poll, where the source keeps each future.
- PollTiming.PollInverter: the reply and the durations of each query are given by an arbitrary function of block and attempt; parsing a block is a yes or no.
- PollTiming.QueryBound: the write and the flush after it are taken to last at most one timeout together, as the source's comment on `write_timeout` expects; opening the port and scanning the buffer take no time.
- BleClient.OctopusBleClient.Request: a failing write and the lock between concurrent requests are not modelled.
- BmsService.BmsService.PollLoop: publishing, and so an exception from it, is not modelled; an exception from a poll is. The bank is made from the packs in ascending order, not in the order they first answered; `BankAggregator.OrderIrrelevant` and `BankAggregator.HottestUnique` say that this makes no difference.
- BmsService.BmsService.RunAsync: cancellation is not modelled.
- BmsEnergy.RestartExact: an error from asking whether the file exists is not modelled, here and in EnergyRuns. A stored NaN or infinity, which the program would load as it is, is not modelled.
- BmsRuns.BackoffExact: stated for a maximum that is not negative.
- EnergyIntegrator.EnergyIntegrator.Save: an interrupt while the temporary file is being unlinked is not modelled.
- EnergyIntegrator.EnergyIntegrator.Update: sums are exact; float rounding, and a sum that overflows, are not modelled.
- JSON syntax is not modelled: a file is not UTF-8, beyond the decoder, not JSON, not an object, or an object with a version and fields. A rename is atomic and a synced file survives a power loss.
- `aggregator.py` (inverters), `parsers.py` and the field table of `srne_map.py`: table lookups and sums.
- `config.py`, `__main__.py`, `sdnotify.py`, `mqtt_publisher.py`, `bms/discovery.py` and `tools/`: configuration, signals, sockets, topic names and administration scripts.
