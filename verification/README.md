# Rinsen.IoT.OneWire: a verified model of the DS2482 1-Wire engine

This project models the host-side 1-Wire engine of Rinsen.IoT.OneWire in
Dafny. The engine drives 1-Wire buses through a DS2482 I2C-to-1-Wire bridge
(the single-channel DS2482-100 or the eight-channel DS2482-800). The model
covers:

- the command and status protocol of the bridge: bus reset, bit and byte
  slots, channel selection, strong pull-up and status polling;
- the Maxim ROM search (application note 187): first, next, verify, target
  setup and family-skip setup, with the CRC-8 that validates each ROM code;
- enumeration of the devices on every channel, the family-code registry and
  the device cache of a bridge;
- the DS18B20 and DS18S20 temperature sensors: match ROM, convert T, read and
  check the scratchpad, and decode the temperature;
- the factory that derives I2C addresses from the AD pins, creates a bridge
  and probes it with a reset, and the bridge's disposal.

The I2C device (`I2c.I2cDevice`) is a transport with three parts:

- a `log` of the frames written, write-read transfers included;
- a finite script of `replies`, which are the bytes the bridge answers with;
- a `disposed` flag.

Each channel operation that succeeds is stated as the exact frames it
appends to the log and the replies it consumes from the script. Spec
functions say which replies each step takes: `Bus.PositionReplies` for one
search position, `Bus.SearchReplies` for one search call, `Bus.Enumerate` and
`Bus.RunChannel` for the device enumeration of a channel, `Bus.FillCache` for
the enumeration of every channel, and `Sensors.ScratchpadReplies` for a
temperature reading. The bus answers the search reasons about (presence and
bit/complement pairs) are therefore the ones those replies encode. A script
that runs out stands for the C# I/O exception. Exceptions become
`Result`/`Outcome` errors (`Errors.Error`).

The imperative search (`Bus.Ds2482Channel.OneWireSearch`) is proved equal to
a value-level specification, `SearchSpec.Search`. That function takes the
search state, the presence answer and the bit/complement pairs the bus
returned. The properties of the algorithm are lemmas over `Search`: the code
found is valid, directions and discrepancies behave as described, verify
decides membership, and on a wired-AND bus the code found is a device on the
bus.

The CRC-8 in the source is a 256-entry lookup table. `Crc8.TableIsBitwise`
proves that every entry equals the bitwise polynomial division by
x^8 + x^5 + x^4 + 1 (`Crc8.Step`). Temperatures are exact reals.

Where the code and its documentation disagree, the model follows the code:

- the inverted disposal flag (see Findings);
- `Bus.Ds2482.InitializeDevices` keeps the devices already produced when an
  enumeration fails;
- an undefined device shares the channel's `ROM_NO` buffer, while a sensor
  gets its own copy.

## Model

| member | source | states |
|---|---|---|
| ExtensionMethods.GetBitIsBinaryDigit | src/Rinsen.IoT.OneWire/ExtensionMethods.cs:7 | for bit numbers 0..7, GetBit is exactly binary digit n of the byte |
| ExtensionMethods.GetBit | src/Rinsen.IoT.OneWire/ExtensionMethods.cs:7 | the byte is widened to a 32-bit int and the shift count taken mod 32, so a bit number whose count mod 32 is 8 or more is never set |
| ExtensionMethods.FormatIdString | src/Rinsen.IoT.OneWire/ExtensionMethods.cs:9 | BitConverter format: empty for no bytes, otherwise 3n-1 characters with '-' at exactly the positions 2 mod 3 |
| ExtensionMethods.FormatIdStringRoundTrip | src/Rinsen.IoT.OneWire/ExtensionMethods.cs:9 | the id string determines the sensor id: parsing it back yields the original bytes |
| Crc8.TableIsBitwise | src/Rinsen.IoT.OneWire/DS2482Channel.cs:539-569 | TableStep, the table lookup crc := table[crc ^ b] that docrc8 makes, equals one step of polynomial division by x^8+x^5+x^4+1 for every register and byte |
| Crc8.StepInjective | src/Rinsen.IoT.OneWire/DS2482Channel.cs:539-569 | for a fixed register, distinct input bytes give distinct CRC steps (the table is a permutation) |
| Crc8.StepZero | src/Rinsen.IoT.OneWire/DS2482Channel.cs:539-569 | a step yields 0 exactly when the byte equals the register |
| Crc8.CrcAppendZero | src/Rinsen.IoT.OneWire/DS1820Base.cs:97-107 | the CRC of data plus a byte c is 0 iff c is the CRC of data, so the scratchpad check and the ROM-search check are one test |
| Crc8.CrcPrefix | src/Rinsen.IoT.OneWire/DS2482Channel.cs:562-569 | Crc, the fold of the step over a byte string from 0: the CRC of a prefix one byte longer is one more docrc8 step |
| RomCode.SetRomBitChangesOneBit | src/Rinsen.IoT.OneWire/DS2482Channel.cs:172-178 | setting or clearing ROM bit i through byte number and mask changes bit i and no other bit |
| RomCode.RomBitAt | src/Rinsen.IoT.OneWire/DS2482Channel.cs:150-154 | the byte-number/mask test reads ROM bit i (LSB first) |
| RomCode.BitsOfBytes | src/Rinsen.IoT.OneWire/DS2482Channel.cs:18 | the 64-bit and the 8-byte views of ROM_NO are inverse (bits to bytes to bits) |
| RomCode.BytesOfBits | src/Rinsen.IoT.OneWire/DS2482Channel.cs:18 | the 64-bit and the 8-byte views of ROM_NO are inverse (bytes to bits to bytes) |
| RomCode.SetRomBitOfBytes | src/Rinsen.IoT.OneWire/DS2482Channel.cs:172-178 | writing a bit into the byte buffer is updating that bit of the bit view |
| Ds2482Protocol.ChannelCodesDistinct | src/Rinsen.IoT.OneWire/DS2482Channel.cs:634-656 | channel-select codes and their verification bytes are distinct per channel |
| Ds2482Protocol.StrongPullupConfiguration | src/Rinsen.IoT.OneWire/DS2482Channel.cs:528-537 | the configuration byte that enables strong pull-up (SPU set, complement nibble in the high half) is 0xB4 |
| Ds2482Protocol.SingleBitByte | src/Rinsen.IoT.OneWire/DS2482Channel.cs:474-491 | a 1 bit is sent as 0x80 and a 0 bit as 0x00 |
| Ds2482Protocol.ResetResult | src/Rinsen.IoT.OneWire/DS2482Channel.cs:313-334 | a reset fails with ShortDetected iff the SD bit is set, otherwise reports presence iff the PPD bit is set |
| Ds2482Protocol.FirstReady | src/Rinsen.IoT.OneWire/DS2482Channel.cs:410-438 | polling stops at the first status whose 1WB bit is clear, and every status before it is busy |
| Ds2482Protocol.PollEnd | src/Rinsen.IoT.OneWire/DS2482Channel.cs:410-438 | a completed poll ends on a status that is not busy |
| Ds2482Protocol.AfterPoll | src/Rinsen.IoT.OneWire/DS2482Channel.cs:410-438 | a completed poll consumes at least the first read and one status |
| Ds2482Protocol.UnstartedPollNeverTimesOut | src/Rinsen.IoT.OneWire/DS2482Channel.cs:427-435 | as written: with the stopwatch never started, the poll ends only when the bridge answers not busy, whatever the limit and however long the bridge stays busy |
| Ds2482Protocol.StartedPollGivesUp | src/Rinsen.IoT.OneWire/DS2482Channel.cs:427-435 | corrected: with the stopwatch started, the poll gives up exactly when the bridge stays busy past the limit, and never reads more than one status past it |
| SearchSpec.StepsBits | src/Rinsen.IoT.OneWire/DS2482Channel.cs:147-178 | bit j of the search walk is the direction taken at position j; positions not reached keep their old value |
| SearchSpec.StepsCrc | src/Rinsen.IoT.OneWire/DS2482Channel.cs:186-195 | the running CRC is the CRC of the ROM bytes completed so far |
| SearchSpec.StepsLastZero | src/Rinsen.IoT.OneWire/DS2482Channel.cs:159-163 | last_zero is the last position where a discrepancy was resolved toward 0 |
| SearchSpec.StepsFamilyZero | src/Rinsen.IoT.OneWire/DS2482Channel.cs:164-166 | LastFamilyDiscrepancy is the last such position within the family byte, or its old value when there is none |
| SearchSpec.AnswersAll | src/Rinsen.IoT.OneWire/DS2482Channel.cs:138-143 | when no pair is (1,1), the search reads all of them |
| SearchSpec.AnswersAbort | src/Rinsen.IoT.OneWire/DS2482Channel.cs:138-143 | a (1,1) pair ends the bit loop, after the pairs answered before it |
| SearchSpec.Search | src/Rinsen.IoT.OneWire/DS2482Channel.cs:103-224 | the value model of one OneWireSearch call: the ROM code stays 8 bytes, and a code is reported found only after a presence pulse, when the last device had not been found, with a non-zero family byte |
| SearchSpec.LastZeroIn | src/Rinsen.IoT.OneWire/DS2482Channel.cs:159-163 | the position returned is a zero choice, and no later position is |
| SearchProperties.SearchFoundPath | src/Rinsen.IoT.OneWire/DS2482Channel.cs:118-198 | a successful search had presence, was not after the last device, read 64 pairs, and the ROM found is the direction walk |
| SearchProperties.SearchFoundValid | src/Rinsen.IoT.OneWire/DS2482Channel.cs:200-211 | a code is reported found only if its CRC is 0 and its family byte is non-zero |
| SearchProperties.SearchFoundDiscrepancy | src/Rinsen.IoT.OneWire/DS2482Channel.cs:200-205 | after a successful search LastDiscrepancy is the last zero choice of this pass |
| SearchProperties.SearchFoundLastDevice | src/Rinsen.IoT.OneWire/DS2482Channel.cs:205-208 | LastDeviceFlag is set exactly when no zero choice remains |
| SearchProperties.SearchFoundFamily | src/Rinsen.IoT.OneWire/DS2482Channel.cs:164-166 | LastFamilyDiscrepancy follows the last zero choice within the family byte |
| SearchProperties.SearchNotFound | src/Rinsen.IoT.OneWire/DS2482Channel.cs:214-221 | an unsuccessful search clears LastDiscrepancy, LastFamilyDiscrepancy and LastDeviceFlag |
| SearchProperties.FoundWalk | src/Rinsen.IoT.OneWire/DS2482Channel.cs:131-211 | a successful search is exactly the completed direction walk with CRC 0 and a non-zero family byte |
| SearchProperties.WalkFound | src/Rinsen.IoT.OneWire/DS2482Channel.cs:131-211 | conversely, every such walk is reported as found with that state |
| SearchProperties.FoundAgrees | src/Rinsen.IoT.OneWire/DS2482Channel.cs:147-167 | every bit of a found code is one that some device answered at that position |
| SearchProperties.VerifyStart | src/Rinsen.IoT.OneWire/DS2482Channel.cs:244-245 | verify searches from the stored code with LastDiscrepancy 64 and LastDeviceFlag clear |
| SearchProperties.VerifiedAgrees | src/Rinsen.IoT.OneWire/DS2482Channel.cs:230-272 | a verified code was answered bit by bit on the bus after a presence pulse |
| SearchProperties.AgreesVerified | src/Rinsen.IoT.OneWire/DS2482Channel.cs:230-272 | a valid code that the bus answers bit by bit is verified |
| SearchProperties.RepeatWalk | src/Rinsen.IoT.OneWire/DS2482Channel.cs:244-259 | searching from a code with LastDiscrepancy 64 retraces that code when the bus agrees with it |
| SearchProperties.TargetStart | src/Rinsen.IoT.OneWire/DS2482Channel.cs:278-289 | target setup puts the family code in byte 0, zeroes the rest, and sets LastDiscrepancy 64 and the other state clear |
| SearchProperties.TargetFound | src/Rinsen.IoT.OneWire/DS2482Channel.cs:278-289 | after target setup, if the pass succeeds and the answers in the family byte agree with the target family, the code found has that family byte |
| SearchProperties.FamilyByteRepeated | src/Rinsen.IoT.OneWire/DS2482Channel.cs:147-158 | with LastDiscrepancy beyond the family byte, the search repeats the family byte |
| SearchProperties.FamilySkip | src/Rinsen.IoT.OneWire/DS2482Channel.cs:294-303 | family skip moves LastFamilyDiscrepancy into LastDiscrepancy, clears the former, and marks the last device when there is none |
| SearchProperties.FamilySkipBranches | src/Rinsen.IoT.OneWire/DS2482Channel.cs:294-303 | after family skip the next search ends at once when there was no family discrepancy, and otherwise takes the 1 branch at it |
| SearchProperties.BusSearchFindsDevice | src/Rinsen.IoT.OneWire/DS2482Channel.cs:131-211 | on a wired-AND bus the code a search finds is the code of a device on the bus |
| SearchProperties.BusSearchFindsSome | src/Rinsen.IoT.OneWire/DS2482Channel.cs:131-211 | on a wired-AND bus of devices with valid ROM codes, a pass that is not after the last device and sees a presence pulse finds a code, and it is the code of one of the devices |
| SearchProperties.FollowDevices | src/Rinsen.IoT.OneWire/DS2482Channel.cs:147-167 | the path the search follows is always the prefix of some device's code |
| SearchProperties.Participant | src/Rinsen.IoT.OneWire/DS2482Channel.cs:138-143 | a bit the wired-AND bus answers comes from a device whose code extends the path |
| Bus.OfType | src/Rinsen.IoT.OneWire/DS2482.cs:61-66 | the devices of a kind are exactly the cached devices of that kind |
| Bus.OfTypeAppend | src/Rinsen.IoT.OneWire/DS2482.cs:61-66 | filtering by kind distributes over appending device lists |
| Bus.ChannelList | src/Rinsen.IoT.OneWire/DS2482_100.cs:17 | a bridge has at least one channel and channel IO0 comes first |
| Bus.SearchRepliesDetermineTurn | src/Rinsen.IoT.OneWire/DS2482Channel.cs:118-198 | the reply script decides what one search call read: at most one presence answer and one list of bit/complement pairs fit it |
| Bus.PassStuck | src/Rinsen.IoT.OneWire/DS2482Channel.cs:135-198 | once the replies run out at a position before the last one, before a (1,1) pair, no complete search pass fits the script |
| Bus.SearchStuck | src/Rinsen.IoT.OneWire/DS2482Channel.cs:118-211 | a search call before the last device that hits a reset error, or a presence pulse followed by a failed poll or no complete pass, has no turn that fits the script |
| Bus.EnumerateEnds | src/Rinsen.IoT.OneWire/DS2482Channel.cs:38-53 | an enumeration loop that stops, or whose next search has no turn that fits the script, cannot be extended by any turn |
| Bus.RunChannelEnds | src/Rinsen.IoT.OneWire/DS2482Channel.cs:30-57 | a channel run whose reset failed, found no presence, or whose loop cannot be extended, cannot be extended by any turn |
| Bus.EnumerationDetermined | src/Rinsen.IoT.OneWire/DS2482Channel.cs:38-53 | two enumeration loops that both fit the script and cannot be extended read the same turns |
| Bus.ChannelRunDetermined | src/Rinsen.IoT.OneWire/DS2482Channel.cs:30-57 | two channel runs that both fit the script and cannot be extended read the same turns, so the run a method reports is the only one the script allows |
| Bus.RunsEndSnoc | src/Rinsen.IoT.OneWire/DS2482.cs:52-57 | adding a channel run that cannot be extended keeps every recorded channel run unextendable |
| Bus.EnumerateCodesValid | src/Rinsen.IoT.OneWire/DS2482Channel.cs:38-53 | every ROM code the enumeration loop collects has CRC 0 and a non-zero family byte |
| Bus.RunChannelCodesValid | src/Rinsen.IoT.OneWire/DS2482Channel.cs:30-57 | every ROM code a channel's enumeration collects, reset included, is valid |
| Bus.CacheDevicesSound | src/Rinsen.IoT.OneWire/DS2482.cs:48-55 | every device the channel enumerations add to the cache is on one of the bridge's channels and sound for the registry |
| Bus.Ds2482Channel.ReadStatus | src/Rinsen.IoT.OneWire/DS2482Channel.cs:410-438 | sets the read pointer when asked, reads until the bridge is not busy, and returns that status; the script ending is an I/O error |
| Bus.Ds2482Channel.SelectDs2482Channel | src/Rinsen.IoT.OneWire/DS2482Channel.cs:336-403 | writes the channel-select code and succeeds iff the echoed byte is the channel's verification value, which marks the channel selected |
| Bus.Ds2482Channel.OneWireReset | src/Rinsen.IoT.OneWire/DS2482Channel.cs:313-334 | selects the channel when needed, issues 1WRS and reports presence, a short, or an I/O error, with the exact frames written |
| Bus.Ds2482Channel.OneWireWriteByte | src/Rinsen.IoT.OneWire/DS2482Channel.cs:458-468 | writes 1WWB with the byte and waits for the bridge |
| Bus.Ds2482Channel.OneWireWriteBit | src/Rinsen.IoT.OneWire/DS2482Channel.cs:474-491 | writes 1WSB with 0x80 or 0x00 and waits for the bridge |
| Bus.Ds2482Channel.OneWireReadBit | src/Rinsen.IoT.OneWire/DS2482Channel.cs:497-513 | a read slot returns the SBR bit of the final status |
| Bus.Ds2482Channel.OneWireReadByte | src/Rinsen.IoT.OneWire/DS2482Channel.cs:519-526 | writes 1WRB, waits, and reads the data register |
| Bus.Ds2482Channel.EnableStrongPullup | src/Rinsen.IoT.OneWire/DS2482Channel.cs:528-537 | writes the configuration register with 0xB4 and consumes no reply |
| Bus.Ds2482Channel.OneWireSearch | src/Rinsen.IoT.OneWire/DS2482Channel.cs:103-224 | on success, the result and new search state are SearchSpec.Search of the old state and the bus answers, the replies consumed are SearchReplies of those answers from the old script, and the frames are exact; after the last device nothing is sent or read; an error is reported only when no turn fits the old script (NoTurn) |
| Bus.Ds2482Channel.SearchPass | src/Rinsen.IoT.OneWire/DS2482Channel.cs:131-211 | one pass after presence: SEARCH_ROM, the bit loop, and the decision whether a code was found; an error only when the poll after the write fails or no complete pass fits the script |
| Bus.Ds2482Channel.SearchRomBits | src/Rinsen.IoT.OneWire/DS2482Channel.cs:135-198 | the bit loop leaves in ROM_NO the walk over the pairs answered, with the frames of each position; it fails only when no complete pass fits the script |
| Bus.Ds2482Channel.SearchStep | src/Rinsen.IoT.OneWire/DS2482Channel.cs:137-196 | one position: reading the pair, and unless it is (1,1), choosing, storing and writing the direction and advancing; an error only when the position's replies are not in the script |
| Bus.Ds2482Channel.SearchPosition | src/Rinsen.IoT.OneWire/DS2482Channel.cs:137-182 | the pair is the two SBR bits the bit slot and then the complement slot read from the old script (PositionReplies), the direction follows Direction, and the frames are exact; a script that runs out is an I/O error |
| Bus.Ds2482Channel.TakeDirection | src/Rinsen.IoT.OneWire/DS2482Channel.cs:146-178 | the direction chosen and stored agrees with SearchSpec.Direction, and a zero choice updates last_zero |
| Bus.Ds2482Channel.ChooseDirection | src/Rinsen.IoT.OneWire/DS2482Channel.cs:146-167 | the direction is the answered bit, or at a discrepancy the rule of LastDiscrepancy |
| Bus.Ds2482Channel.StoreBit | src/Rinsen.IoT.OneWire/DS2482Channel.cs:170-178 | sets or clears the masked bit of one ROM byte and nothing else |
| Bus.Ds2482Channel.AdvanceSearch | src/Rinsen.IoT.OneWire/DS2482Channel.cs:184-195 | moves to the next bit and folds a completed byte into the CRC |
| Bus.Ds2482Channel.NextSearchBit | src/Rinsen.IoT.OneWire/DS2482Channel.cs:184-195 | bit number, byte number and mask advance together |
| Bus.Ds2482Channel.AcceptResult | src/Rinsen.IoT.OneWire/DS2482Channel.cs:214-223 | an unsuccessful or invalid result resets the search state |
| Bus.Ds2482Channel.Docrc8 | src/Rinsen.IoT.OneWire/DS2482Channel.cs:562-569 | the CRC register becomes one CRC-8 step of the value, which is also returned |
| Bus.Ds2482Channel.OneWireFirst | src/Rinsen.IoT.OneWire/DS2482Channel.cs:83-91 | a search from the restarted state (discrepancies and last-device flag cleared); an error only when no turn from that state fits the script |
| Bus.Ds2482Channel.OnoWireNext | src/Rinsen.IoT.OneWire/DS2482Channel.cs:97 | a search from the state the previous one left; an error only when no turn from it fits the script |
| Bus.Ds2482Channel.OneWireVerify | src/Rinsen.IoT.OneWire/DS2482Channel.cs:230-272 | returns whether the stored code was found again, and restores the code and the search state; an error only when no turn from the verify start state fits the script |
| Bus.Ds2482Channel.CopyRom | src/Rinsen.IoT.OneWire/DS2482Channel.cs:236-241 | the backup is a fresh copy of ROM_NO |
| Bus.Ds2482Channel.SameRom | src/Rinsen.IoT.OneWire/DS2482Channel.cs:251-258 | true iff ROM_NO equals the backup |
| Bus.Ds2482Channel.RestoreRom | src/Rinsen.IoT.OneWire/DS2482Channel.cs:263-268 | ROM_NO holds the backup again |
| Bus.Ds2482Channel.OneWireTargetSetup | src/Rinsen.IoT.OneWire/DS2482Channel.cs:278-289 | the search state becomes SearchProperties.TargetStart of the family code |
| Bus.Ds2482Channel.OneWireFamilySkipSetup | src/Rinsen.IoT.OneWire/DS2482Channel.cs:294-303 | the search state becomes SearchProperties.FamilySkip of the old state |
| Bus.Ds2482Channel.GetConnectedOneWireDevices | src/Rinsen.IoT.OneWire/DS2482Channel.cs:30-57 | the codes are RunChannel of the old search state and the old script: a reset, no device without presence, otherwise OneWireFirst then OnoWireNext with one code per true result up to the first false; the devices are DevicesFor of the codes; on success the replies left and the frames are exact, and the search state is cleared; the turns read are all the script allows (ChannelEnds), so a failure means the script cannot go on |
| Bus.Ds2482Channel.EnumerationLoop | src/Rinsen.IoT.OneWire/DS2482Channel.cs:38-53 | the loop's codes are Enumerate of the turns read, it completes iff the last turn found nothing, the devices are DevicesFor of the codes, and the turns read cannot be extended (EnumerationEnds) |
| Bus.Ds2482Channel.EnumerationTurn | src/Rinsen.IoT.OneWire/DS2482Channel.cs:40-53 | one turn extends the enumeration by the code found, if any, and the loop goes on iff a code was found; an error only when the enumeration cannot be extended |
| Bus.Ds2482Channel.NextDevice | src/Rinsen.IoT.OneWire/DS2482Channel.cs:38-53 | a search from the restarted state on the first turn and from the current state after it, related to the old script and log by Search; the device for a valid code found; an error only when no turn fits the script |
| Bus.Ds2482Channel.DevicesFor | src/Rinsen.IoT.OneWire/DS2482Channel.cs:59-75 | one device per code, in order, each the one AddOneWireDevice makes for it |
| Bus.Ds2482Channel.DeviceFor | src/Rinsen.IoT.OneWire/DS2482Channel.cs:59-75 | a registered family gives a sensor of that kind with a copy of the code; any other gives an undefined device sharing ROM_NO |
| Bus.Ds2482Channel.AddOneWireDevice | src/Rinsen.IoT.OneWire/DS2482Channel.cs:59-75 | the device made for the code in ROM_NO |
| Bus.ProducedDevices | src/Rinsen.IoT.OneWire/DS2482Channel.cs:59-75 | devices made from valid codes belong to their channel and are sound for the registry |
| Bus.DeviceTypeRegistry.constructor | src/Rinsen.IoT.OneWire/DS2482.cs:20-24 | the registry starts with 0x10 as DS18S20 and 0x28 as DS18B20 |
| Bus.DeviceTypeRegistry.AddDeviceType | src/Rinsen.IoT.OneWire/DS2482.cs:36-39 | adds a new family code; a code already present fails with a duplicate key and changes nothing |
| Bus.Ds2482.constructor | src/Rinsen.IoT.OneWire/DS2482.cs:26-30 | holds the device and the dispose flag, starts uninitialised with an empty cache, and owns one channel per ChannelList entry |
| Bus.Ds2482.IsCorrectChannelSelected | src/Rinsen.IoT.OneWire/DS2482_100.cs:20 | every channel counts as selected on the DS2482-100; on the DS2482-800 exactly the channel selected last |
| Bus.Ds2482.SetSelectedChannel | src/Rinsen.IoT.OneWire/DS2482_100.cs:22-24 | afterwards the channel counts as selected |
| Bus.Ds2482.InitializeDevices | src/Rinsen.IoT.OneWire/DS2482.cs:48-59 | once initialised nothing happens; otherwise the channel runs are FillCache of the old search states and script, in channel order up to the first failure, and the cache is the old cache followed by each run's devices; every run read all the script allows (RunsEnd), so the failing one could not go on; the bridge is initialised iff every channel completed |
| Bus.Ds2482.EnumerateAll | src/Rinsen.IoT.OneWire/DS2482.cs:49-57 | the first call, from the channels' search states, the script, the log and the cache before it: the runs are FillCache's, each read to the end the script allows, and the bridge is initialised iff every channel completed |
| Bus.Ds2482.MarkInitialized | src/Rinsen.IoT.OneWire/DS2482.cs:56 | the cache is recorded as complete and the filled cache, runs and device stay as they are |
| Bus.Ds2482.FillChannels | src/Rinsen.IoT.OneWire/DS2482.cs:52-57 | the foreach from channel i on: each completed channel adds its run and devices, every run read all the script allows, the loop stops at the first failure, and it passes iff every channel completed |
| Bus.Ds2482.AddChannelDevices | src/Rinsen.IoT.OneWire/DS2482.cs:52-55 | one loop turn: the runs gain channel i's run, read to the end the script allows, and the cache gains its devices |
| Bus.Ds2482.EnumerateChannel | src/Rinsen.IoT.OneWire/DS2482.cs:54 | the devices of channel i are DevicesFor of RunChannel of its search state on the old script, appended to the cache; on success the replies left and the frames are the run's; the turns read cannot be extended (ChannelEnds) |
| Bus.Ds2482.GetAllDevices | src/Rinsen.IoT.OneWire/DS2482.cs:41-46 | initialises once and returns the cache, which holds the channel enumerations, each read to the end the script allows; a cached result involves no bus traffic |
| Bus.Ds2482.GetDevices | src/Rinsen.IoT.OneWire/DS2482.cs:61-66 | initialises once and returns the cached devices of the kind asked for, in cache order; an error only when a channel run cannot go on |
| Bus.Ds2482.OneWireReset | src/Rinsen.IoT.OneWire/DS2482.cs:68-71 | a bus reset on channel IO0 |
| Bus.Ds2482.Dispose | src/Rinsen.IoT.OneWire/DS2482.cs:79-86 | as written: closes the I2C device exactly when the bridge does not own it |
| Bus.Ds2482.DisposeOwned | src/Rinsen.IoT.OneWire/DS2482.cs:79-86 | corrected: closes the I2C device exactly when the bridge owns it |
| Temperature.Raw | src/Rinsen.IoT.OneWire/DS18B20.cs:9 | the register is the 16-bit two's-complement value of lsb + 256 * msb (congruent to it modulo 65536 and in range), negative iff the MSB's top bit is set |
| Temperature.Ds18b20Celsius | src/Rinsen.IoT.OneWire/DS18B20.cs:7-12 | sixteen times the temperature is the raw register; the range is -2048 to 2047.9375 and the sign follows the sign bit |
| Temperature.Ds18b20UsesTemperatureBytes | src/Rinsen.IoT.OneWire/DS18B20.cs:9 | only scratchpad bytes 0 and 1 affect the DS18B20 reading |
| Temperature.Ds18b20TestVectors | tests/Rinsen.IoT.OneWire.Tests/DS18B20Tests.cs:18-27 | the datasheet conversions of the unit test (125, 25.0625, ..., -55 degrees) |
| Temperature.Ds18b20PowerOnValue | src/Rinsen.IoT.OneWire/DS18B20.cs:9-11 | the power-on register decodes to 85 degrees; the DS18B20 decoder has no "no value" case |
| Temperature.Ds18s20Reading | src/Rinsen.IoT.OneWire/DS18S20.cs:7-21 | no value iff the register holds the power-on value 0x0550; a temperature iff not that and COUNT_PER_C is non-zero; otherwise the IEEE results of dividing by zero |
| Temperature.Ds18s20FullCount | src/Rinsen.IoT.OneWire/DS18S20.cs:18 | a full count remaining gives the half-degree reading minus 0.25 |
| Temperature.Ds18s20ZeroCount | src/Rinsen.IoT.OneWire/DS18S20.cs:18 | no count remaining gives the half-degree reading plus 0.75 |
| Temperature.Ds18s20CorrectionBounds | src/Rinsen.IoT.OneWire/DS18S20.cs:14-18 | the extended-resolution value lies between 0.25 below and 0.75 above the half-degree reading |
| Temperature.Ds18s20PowerOnNoValue | src/Rinsen.IoT.OneWire/DS18S20.cs:9-12 | the power-on value gives no reading whatever the other bytes hold |
| Sensors.CheckCrc | src/Rinsen.IoT.OneWire/DS1820Base.cs:97-107 | passes iff the last byte is the CRC of the others, which is iff the CRC of the whole is 0 |
| Sensors.AllOnesFailsCrc | src/Rinsen.IoT.OneWire/DS1820Base.cs:87 | an all-ones scratchpad (no device driving the bus) fails the CRC |
| Sensors.PowerOnScratchpadPassesCrc | src/Rinsen.IoT.OneWire/DS1820Base.cs:88 | the power-on scratchpad passes the CRC, so it must be refused separately |
| Sensors.ValidScratchpad | src/Rinsen.IoT.OneWire/DS1820Base.cs:87-92 | a scratchpad is accepted iff its CRC is 0 and it is not the power-on scratchpad (the all-ones pattern already fails the CRC) |
| Sensors.TemperatureOf | src/Rinsen.IoT.OneWire/DS18S20.cs:7-21 | the decoder of the sensor's kind: only the DS18S20 gives no value, and a temperature comes out iff the sensor is a DS18B20 or the register is not the power-on value and COUNT_PER_C is non-zero |
| Sensors.ReadScratchpad | src/Rinsen.IoT.OneWire/DS1820Base.cs:68-95 | a buffer that is not 9 bytes is an argument error; otherwise sends READ_SCRATCHPAD, fills the buffer with the bytes read, and reports validity |
| Sensors.ReadBytesInto | src/Rinsen.IoT.OneWire/DS1820Base.cs:77-80 | the buffer holds the bytes the bus returned, in order, or the read fails |
| Sensors.ReadByteInto | src/Rinsen.IoT.OneWire/DS1820Base.cs:79 | slot i receives the next byte the bus delivers, earlier slots are kept, or the read fails |
| Sensors.ReadFailureStays | src/Rinsen.IoT.OneWire/DS1820Base.cs:77-80 | a read that fails after k bytes fails for every longer read |
| Sensors.WriteAddress | src/Rinsen.IoT.OneWire/DS1820Base.cs:115-118 | each address byte is written in order, and the loop fails iff the bridge stops answering |
| Sensors.MatchRom | src/Rinsen.IoT.OneWire/DS1820Base.cs:113-118 | MATCH_ROM then the address bytes, one wait each |
| Sensors.ResetOneWireAndMatchDeviceRomAddress | src/Rinsen.IoT.OneWire/DS1820Base.cs:109-119 | a reset whose presence answer is ignored, then MATCH_ROM and the address bytes, with the exact frames; fails iff the reset or a write fails |
| Sensors.StartTemperatureConversion | src/Rinsen.IoT.OneWire/DS1820Base.cs:61-66 | writes CONVERT_T and waits for the bridge; fails iff the bridge never becomes ready |
| Sensors.GetTemperatureScratchpad | src/Rinsen.IoT.OneWire/DS1820Base.cs:48-59 | match, strong pull-up, CONVERT_T, match again, READ_SCRATCHPAD: exactly these frames; it fails iff ScratchpadReplies of the old script does, and otherwise the buffer holds the nine bytes those replies deliver, the rest of the script is left, and the result is their validity |
| Sensors.GetTemperature | src/Rinsen.IoT.OneWire/DS1820Base.cs:24-44 | fails iff ScratchpadReplies of the old script does; otherwise no value for an invalid scratchpad and the decoder of the sensor's kind applied to the nine bytes those replies deliver |
| Factory.Ds2482_100Address | src/Rinsen.IoT.OneWire/DS2482DeviceFactory.cs:10-19 | the address is 0x18 to 0x1B with bit 0 set iff AD0 and bit 1 set iff AD1 |
| Factory.Ds2482_800Address | src/Rinsen.IoT.OneWire/DS2482DeviceFactory.cs:46-61 | the address is 0x18 to 0x1F, and bits 0, 1, 2 follow AD0, AD1, AD2 |
| Factory.Ds2482_100AddressInjective | src/Rinsen.IoT.OneWire/DS2482DeviceFactory.cs:10-19 | distinct pin settings give distinct addresses |
| Factory.Ds2482_800AddressInjective | src/Rinsen.IoT.OneWire/DS2482DeviceFactory.cs:46-61 | distinct pin settings give distinct addresses |
| Factory.SameAddressWithoutAd2 | src/Rinsen.IoT.OneWire/DS2482DeviceFactory.cs:46-61 | with AD2 low both variants compute the same address |
| Factory.PrivateCreate | src/Rinsen.IoT.OneWire/DS2482DeviceFactory.cs:28-42 | a new bridge probed with a reset; a failed reset becomes DeviceNotFound wrapping its cause |
| Factory.CreateDs2482_100 | src/Rinsen.IoT.OneWire/DS2482DeviceFactory.cs:8-22 | opens bus 1 at the pin address and returns a bridge that owns the device |
| Factory.CreateDs2482_100OnBus | src/Rinsen.IoT.OneWire/DS2482DeviceFactory.cs:24 | opens the given bus and address and returns a bridge that owns the device |
| Factory.CreateDs2482_100WithDevice | src/Rinsen.IoT.OneWire/DS2482DeviceFactory.cs:26 | a bridge over the caller's device that does not own it; a null device is refused |
| Factory.CreateDs2482_800 | src/Rinsen.IoT.OneWire/DS2482DeviceFactory.cs:44-64 | opens bus 1 at the pin address and returns an eight-channel bridge that owns the device |
| Factory.CreateDs2482_800OnBus | src/Rinsen.IoT.OneWire/DS2482DeviceFactory.cs:66 | opens the given bus and address and returns an eight-channel bridge that owns the device |
| Factory.CreateDs2482_800WithDevice | src/Rinsen.IoT.OneWire/DS2482DeviceFactory.cs:68 | an eight-channel bridge over the caller's device that does not own it, probed with a reset whose frames are exact; a null device is refused |
| Factory.OwnedDeviceLeftOpen | src/Rinsen.IoT.OneWire/DS2482.cs:83 | as written: a bridge that owns its I2C device leaves it open on Dispose |
| Factory.OwnedDeviceClosed | src/Rinsen.IoT.OneWire/DS2482.cs:83 | corrected: the same bridge closes its I2C device on Dispose |

## Left out

- Timing is not modelled. This covers Thread.Sleep, SpinWait and the async
  Task wrappers: each operation runs to completion in order.
- The Stopwatch guard of ReadStatus is never started (see Findings), so on a
  bridge that stays busy the source polls forever. A hang cannot be
  expressed here: `Bus.Ds2482Channel.ReadStatus` consumes a finite reply
  script and reports I2cIoError when it runs out, which is the give-up the
  guard was meant to provide. The guard itself is modelled only by
  `Ds2482Protocol.GuardedPoll`. WaitForOneWireReady, which has the same
  guard and is never called, is not modelled.
- System.Device.I2c is not part of this model. `I2cDevice.Create` is a
  constructor that takes the reply script, and Dispose only records that the
  device was closed.
- ArrayPool rental and return are not modelled. Buffers are plain arrays and
  sequences.
- Reflection is replaced by a closed kind (`Bus.SensorKind`).
  Activator.CreateInstance of a registered type becomes a sensor of that kind.
- The static device-type dictionary is a `Bus.DeviceTypeRegistry` object
  passed to the bridge, because Dafny has no static mutable state. Its
  initial contents are those of the static constructor.
- DS2482_800.cs is not part of this model. The eight-channel variant is
  assumed to keep channels IO0..IO7 and to remember the last channel
  selected.
- Floating point is not modelled. Temperatures are exact reals, and only the
  DS18S20 division by a zero count is given its IEEE results (NaN or
  negative infinity).
- The DS18S20 override of GetTemp_Read overrides a signature its base class
  does not declare. The model dispatches on the sensor kind instead
  (`Sensors.TemperatureOf`).
- The assertion at tests/Rinsen.IoT.OneWire.Tests/DS18B20Tests.cs:19 expects
  no value for the power-on register. The DS18B20 decoder does not give
  that; `Temperature.Ds18b20PowerOnValue` states what it does give.
- "DS18B20 .cs" (with a space) is an older copy of the sensor and is not
  modelled.
- The interfaces, OneWireDeviceFactory, the sample StartupTask and the
  string formatting of UndefinedOneWireDevice are not modelled.
- Sensors.CheckCrc requires a non-empty buffer. The source would index before
  the span on an empty one, but it is only ever called with the 9-byte
  scratchpad.
- The CRC of DS18X20Base.CheckCrc calls a static docrc8 that the channel class
  does not declare. The model uses the same table step (`Crc8.TableStep`).
- Bus.Ds2482Channel.GetConnectedOneWireDevices is lazy in the source
  (yield return). The model runs it to the end, or up to the first error.
  Devices produced before an error stay in the bridge's cache.
- The Ds2482Channel search methods relate the result to the bus answers only
  when no I/O error occurs. After an error they state that no search call
  fits the script and which parts of the search state are unchanged, but not
  the search state the partial pass leaves.
- I2c.I2cDevice.Write never fails. An unacknowledged write is modelled by
  the following read running out of replies, which is where the factory's
  probe at src/Rinsen.IoT.OneWire/DS2482DeviceFactory.cs:28-42 notices it.
- Bus.Ds2482.InitializeDevices: after a channel run fails, the runs and the
  cache are stated, but the replies left and the frames written are not.
- Bus.Ds2482.constructor takes a non-null I2C device, so the
  ArgumentNullException of DS2482.cs:28 is not modelled for direct
  construction, which the public DS2482_100 constructor at DS2482_100.cs:13
  allows. The factory's null check is modelled
  (`Factory.CreateDs2482_100WithDevice`).
- SearchProperties.BusSearchFindsDevice and
  SearchProperties.BusSearchFindsSome prove one pass on a wired-AND bus:
  it finds a code, and the code is a device's. That OneWireFirst followed
  by OnoWireNext finds every device exactly once, in order, and then
  returns false, is not proved.

## Findings

| source | as written | input that shows it | evidently intended | confidence | as-written member | corrected member |
|---|---|---|---|---|---|---|
| src/Rinsen.IoT.OneWire/DS2482Channel.cs:427-435 | the Stopwatch guarding the status poll is created but never started, so ElapsedMilliseconds stays 0 and "One Wire bus busy for too long" can never be thrown | a bridge whose polled status keeps the 1WB bit set: ReadStatus never returns | start the stopwatch (Stopwatch.StartNew) so the poll gives up once more than 1 ms has passed | not executed | Ds2482Protocol.UnstartedPollNeverTimesOut | Ds2482Protocol.StartedPollGivesUp |
| src/Rinsen.IoT.OneWire/DS2482.cs:83 | Dispose closes the I2C device only when `_disposeI2cDevice` is false, so a bridge that opened its own device leaves it open, and a bridge over the caller's device closes it | CreateDS2482_100(1, 0x18) on a bridge that answers the reset with presence, then Dispose(): the device it created stays open | close the I2C device exactly when the bridge created it (`_disposeI2cDevice` true) | not executed | Factory.OwnedDeviceLeftOpen | Factory.OwnedDeviceClosed |
