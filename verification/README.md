# FeliCa reader stack: verified model

A Dafny model of the protocol core of a FeliCa card reader stack: the state machines and
codecs between a card, a reader chip and the host. It covers

- the emulated card's tree of areas and services, its flat directory, and the walk that
  rebuilds the nesting from that directory (`AreaTree`, `Overlap`, `CardSystem`,
  `AreaRules`, `DirectoryWalk`, `DirectoryWalker`, `DirectoryRebuild`, `DirectoryLastIndex`,
  `DirectoryDepth`);
- the frame envelope shared by three reader chips and the buffered readers that take frames
  from a byte stream cut anywhere (`Framing`, `FrameBytes`, `FrameErrors`, `Transport`,
  `Port100Reader`, `Port100Recovery`, `Rcs320Reader`);
- the Port-100 driver's memory of its reader's registers and RF speed (`Port100Cache`,
  `Port100Doubt`, `Port100Values`, `Port100Driver`);
- the command codec: printing and parsing of all 33 commands (`Commands`, `CommandWriter`,
  `CommandParser`, `CommandLayout`, `CommandRoundTrip`, `CommandSecure`);
- purse and cyclic block writes of the emulated card, sections 3.4.3 to 3.4.4.1 of the FeliCa
  Card User's Manual, Excerpted Edition (`Purse`, `PurseOutcome`, `Cyclic`);
- the bitwise CRC of Annex B of ISO/IEC 14443-3, ISO-DEP chaining of section 7 of
  ISO/IEC 14443-4, and the civil-year formula of the transaction dump (`Crc`, `CrcRemainder`,
  `CrcMessages`, `IsoDep`, `IsoDepBytes`, `CivilYear`).

Code that updates state is a class or a method with loops, proved equal to a function of its
inputs or old state; the properties are then proved of these functions, over all inputs and
whole runs. `dafny verify dfyconfig.toml` checks everything. Bytes and 16-bit words are
ranges of `int`, and every wrap, cast and truncation of the program is written out.

The transport is a finite script of chunks and failures; timeouts stand anywhere in it. A card
is a function from a 16-bit index to an optional directory entry, and may fail to answer any
index. A Port-100 answers from a
script: it carries a command out, refuses it without effect, or carries it out and the answer
is lost.

## What the proofs showed

Where a property fails, the model keeps the code as it is and states exactly when the property
holds.

- The ISO-DEP exchange cuts its payload by the reader's frame size (FSD), not the card's (FSC).
  No frame exceeds FSC exactly when FSD <= FSC or the payload fits one card frame; with the
  Type A defaults that is up to 30 bytes (`IsoDep.FramesFitTheCard`, `IsoDep.TypeADefaultsOverrun`).
- The exchange sends the next frame of a chain only on an acknowledgement whose block number
  differs from the block's own. All frames of an acknowledged chain go out exactly when every
  number differs (`IsoDep.AllFramesGoOut`). By section 7.5 of ISO/IEC 14443-4 a card acknowledges
  with the number of the block it received: every payload over one frame then stops after the
  first (`IsoDep.EqualNumbersStopTheChain`).
- The Port-100 driver may skip writes exactly as long as no key's last entry repeats a known
  value that an earlier entry of the same write departs from (`Port100Cache.SkippingIsHarmless`).
  The defaults and every card profile use distinct keys. When the answer to a command is lost, the
  memory stays true exactly when the command changed nothing it held: for a write, none of the keys
  (`Port100Cache.LostWrite`); for a change of speed, no speed and none of the registers the reset
  changes (`Port100Cache.LostRf`); for a change of mode, nothing the reset changes
  (`Port100Cache.LostDisturb`). Over any run, what may be false follows from the commands sent and
  their answers (`Port100Doubt.RunLeads`), and a successful change of mode or speed makes the memory
  true again from any state (`Port100Doubt.RunRecovers`).
- The directory walk uses every index once unless no index is without an entry, the last one
  holds a service, and some area entry takes everything behind it; only the last index is then
  used again, once more for each such area entry (`DirectoryLastIndex.EachIndexOnce`,
  `DirectoryLastIndex.SystemRepeats`; a card for which it is: `DirectoryLastIndex.LastIndexIsUsedTwice`).
- The walk rebuilds the stored nesting exactly when no area's range captures the sibling that
  follows it (`DirectoryRebuild.Rebuild`; a tree for which it does: `DirectoryRebuild.CapturedSibling`).
- On a limit purse, purse plus cashback data can grow, and more can be cashed back than was there
  and was taken: each exactly in a decrement that is executed over negative cashback data
  (`Purse.WhenTotalGrows`, `Purse.WhenMoreIsCashedBack`).
- The 16-bit running checksum can reach 65,536 for exactly the payload lengths above 256
  (`Framing.OverflowIffLonger`). An extended length is cast to 16 bits, so only payloads below
  65,536 bytes survive framing (`Framing.RoundTrip`).
- One changed byte anywhere in a frame is detected, unless it switches the form of the length
  (a length and its checksum, or the extended marker) and the bytes behind it complete a frame of
  that form; `FrameErrors.AlteredByteIsData` is the exact condition in every dialect. Every Port-100
  frame of 252 payload bytes passes with the second byte of its marker changed from FF to 01, and is
  read as a payload of 255 bytes (`FrameErrors.ChangedFramePasses`).
- A card can drive the directory walk 65,535 calls deep, and no card deeper: exactly those do whose
  entries before the last index are all areas, each taken by the one before it
  (`DirectoryDepth.DeepestWalk`, `DirectoryDepth.SameAreaEverywhere`).
- After a response that cannot be read, the Port-100 driver is back in step once its input has gone
  quiet (`Port100Recovery.BackInStep`). After a failed ACK it drains nothing, and stale bytes are met
  by the next command (`Port100Recovery.FailedAckKeepsTheRest`, `Port100Recovery.StaleAfterFailedAck`).
- Adding to the root area of an emulated system directly links nothing. Without a kind clash,
  sharing a store is sharing a number whenever the system itself made the last addition that was
  accepted (`CardSystem.SystemsShareByNumber`); a direct one keeps this exactly if the service
  brings the store of its number (`CardSystem.DirectlyKeepsSharing`).

## Model

| member | source | states |
|---|---|---|
| Crc.CalculateCrc | src/clf/crc.rs:11-24 | the register after feeding the bits of the first `size` bytes, lowest bit first, whatever `size` is |
| Crc.ClockByte | src/clf/crc.rs:13-22 | the inner loop is eight clocks of the bit-by-bit register |
| Crc.RunIsPower | src/clf/crc.rs:11-24 | feeding up to sixteen bits one by one is xoring them in at once and clocking |
| Crc.ClockIsInjective | src/clf/crc.rs:11-24 | one register step can be undone |
| Crc.RunIsInjective | src/clf/crc.rs:11-24 | registers that differ stay different under any common input |
| Crc.BurstChangesRegister | src/clf/crc.rs:11-24 | inputs that differ only inside one window of sixteen bits lead to different registers |
| Crc.CheckIsResidue | src/clf/crc.rs:33-40 | a message checks exactly if the register over message and CRC ends in one fixed state |
| Crc.BurstIsDetected | src/clf/crc.rs:33-72 | a change confined to sixteen consecutive bits of a checked message, CRC included, is always detected, at every length |
| Crc.AdjacentBytesDetected | src/clf/crc.rs:33-72 | so is a change confined to two adjacent bytes |
| Crc.AppendCrc | src/clf/crc.rs:26-31 | the low byte and then the high byte go behind the message |
| Crc.VerifyCrc | src/clf/crc.rs:33-40 | true exactly for messages of two or more bytes whose last two carry the CRC |
| Crc.AddCrcA | src/clf/crc.rs:43-47 | a message framed with CRC_A is kept and checks |
| Crc.CheckCrcA | src/clf/crc.rs:50-56 | true exactly if the trailing bytes carry the CRC_A of what precedes them |
| Crc.AddCrcB | src/clf/crc.rs:59-63 | a message framed with CRC_B is kept and checks |
| Crc.CheckCrcB | src/clf/crc.rs:66-72 | true exactly if the trailing bytes carry the complemented CRC_B of what precedes them |
| CrcRemainder.RegisterIsRemainder | src/clf/crc.rs:11-24 | the register after a message is the one remainder of the message, behind its preset, on division by x^16 + x^12 + x^5 + 1 |
| CrcRemainder.CrcAIsRemainder | src/clf/crc.rs:4-56 | bytes check for CRC_A exactly if the last two are that remainder of the others, preset to 6363h |
| CrcRemainder.CrcBIsRemainder | src/clf/crc.rs:7-72 | and for CRC_B exactly if they are its complement, preset to FFFFh |
| CrcMessages.AnnexBMessagesA | src/clf/crc.rs:43-47 | 00 00 is framed with A0 1E, and 12 34 with 26 CF |
| CrcMessages.AnnexBMessagesB | src/clf/crc.rs:59-63 | 00 00 00 is framed with CC C6, and 0F AA FF with FC D1 |
| CivilYear.ClosedFormCounts | examples/dump_suica.rs:350-361 | the closed form is the year found by counting years of Gregorian length from 1970, forwards or backwards, exactly if that year fits in 32 bits |
| CivilYear.YearIsUnique | examples/dump_suica.rs:350-361 | a day number lies in exactly one year |
| Framing.ChecksumIsExact | src/driver/framing.rs:50-65 | wrapping the sum at 16 bits loses nothing: the checksum is the one byte that makes the exact sum a multiple of 256, and a match is tested as that |
| Framing.NoOverflowUpTo256 | src/driver/framing.rs:50-65 | for up to 256 bytes no partial sum reaches 65,536, the checksum included |
| Framing.OverflowIffLonger | src/driver/framing.rs:50-65 | the sum that is tested for a match stays below 65,536 for all payloads of a length exactly if that length is at most 256 |
| Framing.OneByteChangesChecksum | src/driver/framing.rs:50-53 | changing one byte changes the checksum |
| Framing.PushLength | src/driver/framing.rs:197-232 | the length field of each encoding, extended lengths cast to 16 bits |
| Framing.Build | src/driver/framing.rs:137-151 | building yields the envelope of the payload |
| Framing.LengthIsNoMarker | src/driver/framing.rs:263-292 | a one-byte length and its checksum are never the extended marker |
| Framing.ParseIsExact | src/driver/framing.rs:153-160 | a parse yields a payload and its frame for precisely the byte strings that begin with an envelope of it and are no error report |
| Framing.RoundTrip | src/driver/framing.rs:137-160 | parsing a built frame with anything behind it yields the payload and the built bytes, exactly for payloads below 65,536 bytes that, for the RC-S320, do not start with 7F |
| FrameBytes.NormalEnvelopeIs | src/driver/framing.rs:137-232 | the bytes of a frame with one byte of length, each by its value |
| FrameBytes.ExtendedEnvelopeIs | src/driver/framing.rs:137-232 | and of one with an extended length |
| FrameBytes.FramesAre | src/driver/framing.rs:197-232 | which of them each reader sends for a payload, and the order of the length bytes |
| FrameBytes.ParsedAs | src/driver/framing.rs:153-313 | every byte string is taken for an ACK, an error or data exactly if it is that ACK, that error, or else starts with an envelope |
| FrameErrors.NormalChanged | src/driver/framing.rs:234-313 | one changed byte in a frame with a one-byte length is detected unless it makes the extended marker of that length and its checksum |
| FrameErrors.ExtendedChanged | src/driver/framing.rs:234-313 | one changed byte in an extended frame is detected unless it makes 01 FF or FF 01 of the marker |
| FrameErrors.AlteredByteIsData | src/driver/framing.rs:137-313 | in every dialect, at every length that is framed, and whatever follows, a frame with one changed byte is taken for data exactly if the byte switches the form of the length and the bytes behind it complete a frame of that form |
| FrameErrors.AlteredPayloadIsRejected | src/driver/framing.rs:137-160 | so a payload altered in one byte is never taken for data |
| FrameErrors.MarkerToOne | src/driver/framing.rs:263-313 | a marker changed to 01 FF passes, whatever follows, exactly if the two length bytes sum to zero |
| FrameErrors.MarkerToMost | src/driver/framing.rs:263-313 | a marker changed to FF 01 passes exactly if 252 bytes from the payload on are followed by their checksum and a postamble |
| FrameErrors.OneToMarker | src/driver/framing.rs:263-313 | a length of one changed to FF passes exactly if what follows the frame completes an extended frame of the length that payload and checksum make |
| FrameErrors.MostToMarker | src/driver/framing.rs:263-313 | the checksum of a length of 255 changed to FF passes exactly if the payload's third byte is the checksum of the first two and the bytes behind it complete the extended frame they announce |
| FrameErrors.ChangedFramePasses | src/driver/framing.rs:137-313 | every Port-100 frame of 252 payload bytes, with one byte of its marker changed, is parsed whole as a payload of 255 bytes |
| Transport.BufferedReader.TakeFromBuffer | src/driver/io.rs:32-41 | bytes move from the buffer until it is empty or there are enough, none lost and none reordered |
| Transport.BufferedReader.ReadChunk | src/driver/io.rs:55-68 | one outcome of the transport keeps the stream ahead or is the failure behind it |
| Transport.BufferedReader.ReadExact | src/driver/io.rs:47-72 | it succeeds exactly if enough bytes arrive before the next failure, and splits them off the stream, however that is cut; else it reports that failure |
| Transport.BufferedReader.DrainInput | src/driver/io.rs:113-127 | nothing stays buffered, and everything up to the first empty read or timeout is discarded |
| Transport.BufferedReader.PushBack | src/driver/rcs320/chipset.rs:274-281 | bytes pushed back are ahead again in their order |
| Transport.TakeSplits | src/driver/io.rs:47-72 | however the stream is cut, a read splits it, or uses up all before the next failure and reports that |
| Transport.TakeStops | src/driver/io.rs:47-72 | a read stops behind the first outcome in the script that brings enough bytes, or that fails |
| Transport.DrainedAt | src/driver/io.rs:113-127 | draining takes everything up to the first empty read or timeout, and that one |
| Port100Reader.Chipset.ReadAckFrame | src/driver/port100/chipset.rs:469-478 | succeeds exactly if an ACK is ahead, and takes it |
| Port100Reader.Chipset.ReadFrameBytes | src/driver/port100/chipset.rs:486-506 | takes exactly the bytes the length field announces, in the normal and the extended form |
| Port100Reader.Chipset.RecoverAfterError | src/driver/port100/chipset.rs:546-561 | an ACK goes out, input is drained if asked for, and nothing stays buffered |
| Port100Reader.Chipset.ReadCommandResponse | src/driver/port100/chipset.rs:512-536 | the payload behind the ACK and the response code, as a function of the byte stream alone; after a failed read the reader is sent an ACK and nothing stays buffered; and in every case exactly what is left of the input |
| Port100Reader.FrameIsMeasured | src/driver/port100/chipset.rs:486-506 | every frame a reader may send is measured at its own length, whatever follows it |
| Port100Reader.FrameIsRead | src/driver/port100/chipset.rs:512-536 | an ACK and a frame are read back exactly if the payload answers the command |
| Port100Reader.RunIsRead | src/driver/port100/chipset.rs:469-536 | a run of ACK, frame, ACK, frame, ... returns exactly the framed payloads in order and leaves what follows |
| Port100Recovery.FailedAckKeepsTheRest | src/driver/port100/chipset.rs:512-514 | after a failed ACK nothing is drained: every outcome behind those its six bytes used up is still to come |
| Port100Recovery.FailedResponseDrains | src/driver/port100/chipset.rs:512-536 | after a failed response everything up to the first quiet outcome behind those its bytes used up is gone, and exactly what is behind that one is left |
| Port100Recovery.BackInStep | src/driver/port100/chipset.rs:469-536 | once a response has failed and the input has gone quiet, every command that follows is answered from the bytes behind that point alone |
| Port100Recovery.StaleAfterFailedAck | src/driver/port100/chipset.rs:469-514 | after a failed ACK stale bytes are met by the next command |
| Port100Recovery.AllAnswered | src/driver/port100/chipset.rs:469-536 | commands answered by proper frames all succeed, however the bytes arrive |
| Rcs320Reader.Chipset.PacketWrite | src/driver/rcs320/chipset.rs:253-261 | the framed command goes out, and its ACK is waited for |
| Rcs320Reader.Chipset.WaitForAck | src/driver/rcs320/chipset.rs:269-291 | takes an ACK, or restores the stream if a frame came instead |
| Rcs320Reader.Chipset.ReadFrameBytes | src/driver/rcs320/chipset.rs:318-343 | takes an ACK or a whole frame by its length field |
| Rcs320Reader.Chipset.RecvResponse | src/driver/rcs320/chipset.rs:293-316 | skips at most one ACK and returns the payload of the next frame |
| Rcs320Reader.Chipset.WriteThenRead | src/driver/rcs320/chipset.rs:253-316 | one command and its answer, as a function of the byte stream alone |
| Rcs320Reader.DataIsAnswered | src/driver/rcs320/chipset.rs:269-316 | a data frame alone is answered whole, unless its payload starts with 7F |
| Rcs320Reader.AcksAreTolerated | src/driver/rcs320/chipset.rs:269-342 | any number n of ACKs before a data frame leaves the same payload and the same following bytes exactly if n <= 2 and the payload is no error report |
| Rcs320Reader.ExchangeTakesOff | src/driver/rcs320/chipset.rs:253-343 | whether an exchange succeeds or fails, exactly the bytes it asked for are off the stream, or all up to the failure that kept them back |
| Port100Cache.WriteIsSound | src/driver/port100/chipset.rs:186-206 | a write, whether it succeeds or fails, leaves every known value the reader's |
| Port100Cache.SetRfIsSound | src/driver/port100/chipset.rs:227-269 | so does setting the RF, which may reset every register |
| Port100Cache.RunIsSound | src/driver/port100/chipset.rs:119-269 | over any run of exchanges, settings, mode changes and failures, known values are the reader's registers and the known speed is its RF speed |
| Port100Cache.NewDriverIsSound | src/driver/port100/chipset.rs:72-79 | so over any run of a new driver, whatever its reader holds at first |
| Port100Cache.PendingIsLast | src/driver/port100/chipset.rs:186-199 | what the entries not skipped give each key |
| Port100Cache.SkippingIsHarmless | src/driver/port100/chipset.rs:186-206 | writing only what is not in place leaves the registers as writing everything, exactly without a stale repeat of a key |
| Port100Cache.RepeatedKeyGoesWrong | src/driver/port100/chipset.rs:186-199 | a repeated key that leaves 5 where 7 was asked for last |
| Port100Cache.LostWrite | src/driver/port100/chipset.rs:196-205 | after a write whose answer is lost, the memory is true exactly if it held none of the keys written |
| Port100Cache.LostRf | src/driver/port100/chipset.rs:245-263 | after a change of speed whose answer is lost, the memory is true exactly if no speed was known and the reset left all known registers; a known speed asked for again is skipped although the RF has left it |
| Port100Cache.LostDisturb | src/driver/port100/chipset.rs:119-161 | after a mode change whose answer is lost, the memory is true exactly if the reset left all it held; a remembered value that the reset changed is then not written again |
| Port100Doubt.RunLeads | src/driver/port100/chipset.rs:119-269 | over any run, whatever answers are lost, everything remembered is the reader's but for what the commands sent and their answers leave in doubt |
| Port100Doubt.NewDriverIsTrueBut | src/driver/port100/chipset.rs:72-79 | so from a new driver on |
| Port100Doubt.HonestLeavesNoDoubt | src/driver/port100/chipset.rs:119-269 | without lost answers nothing is in doubt |
| Port100Doubt.Recovers | src/driver/port100/chipset.rs:119-269 | from any state, a successful change of mode, or of speed that is sent, leaves nothing false in memory |
| Port100Doubt.RunRecovers | src/driver/port100/chipset.rs:119-269 | so over any run: after one such change and without further lost answers the memory is true, whatever was lost before |
| Port100Cache.DefaultsAre | src/driver/port100/chipset.rs:11-15 | the defaults set every key but the reserved 0D, each to the value stated |
| Port100Cache.ProfileIs | src/driver/port100/device.rs:182-226 | a profile sets each of its keys once, to what a Type A, B or Type 2 card needs |
| Port100Cache.PrepareEstablishes | src/driver/port100/device.rs:124-134 | after every successful preparation all settings of the exchange are known, and unmanaged registers are as setting the RF left them |
| Port100Cache.SkippingRefinesWriting | src/driver/port100/device.rs:124-134 | the reader then runs at the card's speeds with the defaults overridden by its profile, as after a driver that remembers nothing and writes everything |
| Port100Cache.RepeatedPrepare | src/driver/port100/device.rs:124-134 | preparing again for the same card sends nothing exactly if the card is neither Type A nor Type B, and then changes nothing |
| Port100Values.SettingsAre | src/driver/port100/chipset.rs:232-244 | the supported speeds and the four RF values of each, by its rate and modulation |
| Port100Values.SetRfSends | src/driver/port100/chipset.rs:227-263 | what setting the RF sends and remembers, for every pair of speeds |
| Port100Values.PreparedRf | src/driver/port100/device.rs:124-134 | after every successful preparation the RF holds exactly the values of the card's speeds |
| Port100Values.UnsupportedIsRefused | src/driver/port100/device.rs:124-134 | a card at an unsupported speed is refused before anything is sent |
| Port100Values.ParamsAre | src/driver/port100/chipset.rs:600-624 | the key of every named parameter |
| Port100Values.WhenWritten | src/driver/port100/chipset.rs:186-206 | a write succeeds exactly if all is in place or its one command does |
| Port100Values.WhenChanged | src/driver/port100/chipset.rs:119-161 | a mode change succeeds exactly if its command does, and what is remembered then |
| Port100Values.WhenRfIsSet | src/driver/port100/chipset.rs:245-263 | so for a change of speed |
| Port100Values.WhenPrepared | src/driver/port100/device.rs:124-134 | with three successes to come, preparing succeeds exactly for supported speeds |
| Port100Values.WhenConfigured | src/driver/port100/chipset.rs:173-182 | an unknown name writes nothing; all else is written as its entries, in order |
| Port100Values.CardsNeed | src/driver/port100/device.rs:182-226 | the value of every key an exchange runs with, for every card at a supported speed |
| Port100Driver.Connection.Send | src/driver/port100/chipset.rs:113-117 | one command takes one reply from the script and its effect |
| Port100Driver.Chipset.ForgetInitiatorSettings | src/driver/port100/chipset.rs:210-213 | nothing is known any more |
| Port100Driver.Chipset.ChangeMode | src/driver/port100/chipset.rs:119-161 | a successful mode change forgets the settings, a failed one does not |
| Port100Driver.Chipset.SetInitiatorRf | src/driver/port100/chipset.rs:227-269 | repeated speeds are skipped; other supported ones are sent and everything else forgotten |
| Port100Driver.Chipset.CollectPending | src/driver/port100/chipset.rs:187-194 | exactly the entries not known to be in place, in order |
| Port100Driver.Chipset.WriteInitiatorProtocol | src/driver/port100/chipset.rs:186-206 | pending entries are sent in one command and remembered only if it succeeds |
| Port100Driver.Chipset.ConfigureInitiator | src/driver/port100/chipset.rs:173-182 | named parameters are written unless a name is unknown, and then nothing is |
| Port100Driver.Device.PrepareInitiatorExchange | src/driver/port100/device.rs:124-134 | the sequence of speeds, defaults and profile, stopping at the first failure |
| CommandWriter.PayloadWriter.ExtendU16ListLe | src/felica_standard/payload.rs:92-96 | the values go behind the payload, low byte first |
| CommandWriter.PayloadWriter.ExtendBlockList | src/felica_standard/payload.rs:125-129 | the packed elements go behind the payload |
| CommandWriter.WriteBlocks | src/felica_standard/command/serialize.rs:67-178 | appending step by step yields the fields of every command that names blocks |
| CommandWriter.WriteCodes | src/felica_standard/command/serialize.rs:48-280 | of every command that lists services, areas or nodes |
| CommandWriter.WriteIdm | src/felica_standard/command/serialize.rs:57-300 | of every command of an IDm, a challenge or reserved bytes |
| CommandWriter.WriteValues | src/felica_standard/command/serialize.rs:25-306 | of every command of single values |
| CommandWriter.WriteRegistration | src/felica_standard/command/serialize.rs:300-340 | and of every registration |
| CommandWriter.EncodeCommand | src/felica_standard/command/serialize.rs:23-340 | every command's frame or secure payload, its refusals and its panics |
| CommandLayout.FrameIsLaidOut | src/felica_standard/command/serialize.rs:23-340 | where each field of every plain command stands in its frame, from the length and the code to the last byte |
| CommandLayout.PayloadIsLaidOut | src/felica_standard/command/serialize.rs:23-340 | and in every secure payload |
| CommandLayout.SecureCodesAre | src/felica_standard/command/parse.rs:773-786 | which codes are those of commands that only travel encrypted |
| CommandLayout.WhenEncoded | src/felica_standard/command/serialize.rs:23-340 | which commands are refused and which panic, by their numbers |
| CommandLayout.LimitsAre | src/felica_standard/constants.rs:4-68 | the limits of every command's lists and data, by numbers |
| CommandWriter.TakeBlocks | src/felica_standard/command/parse.rs:738-771 | the loop over elements of two or three bytes takes what the recursive parser takes |
| CommandWriter.ReadU16ListLe | src/felica_standard/command/parse.rs:720-732 | the loop over byte pairs reads the list they encode |
| CommandWriter.ReadAuthentication1 | src/felica_standard/command/parse.rs:217-258 | the cursor parser accepts and yields what the field-by-field parser does |
| CommandRoundTrip.ElementTaken | src/felica_standard/types.rs:480-493 | a packed element is taken back, with index and mode masked to four and three bits |
| CommandRoundTrip.ElementGiven | src/felica_standard/command/parse.rs:743-769 | a taken element packs to the same bytes exactly if it did not use three bytes for a number below 256, and never to more |
| CommandRoundTrip.BlockListTaken | src/felica_standard/command/parse.rs:738-771 | so for whole block lists, whatever follows them |
| CommandRoundTrip.BlockListGiven | src/felica_standard/command/parse.rs:738-771 | and back |
| CommandRoundTrip.ListTaken | src/felica_standard/command/parse.rs:698-705 | a counted list is taken back exactly if its length is within the limits |
| CommandRoundTrip.ListGiven | src/felica_standard/command/parse.rs:698-705 | a taken list prints to the bytes it was taken from |
| CommandRoundTrip.FieldsAreParsed | src/felica_standard/command/parse.rs:27-75 | the fields of each of the 25 plain commands parse to that command as far as its bytes express it, within the limits only |
| CommandRoundTrip.ParseUndoesPrint | src/felica_standard/command/parse.rs:10-75 | whatever prints parses back to the same command exactly if it is within the limits, with mode < 8, index < 16 and unknown properties above 1 |
| CommandRoundTrip.BodyIsReprinted | src/felica_standard/command/parse.rs:27-75 | whatever parses has the code and, but for wide elements, the bytes it was parsed from |
| CommandRoundTrip.PrintUndoesParse | src/felica_standard/command/parse.rs:10-75 | any frame that parses prints again, no longer, identical exactly without a wide element, and to a frame that parses to the same command |
| CommandRoundTrip.WritePrintsIfItFits | src/felica_standard/command/mod.rs:271-283 | a Write Without Encryption of n blocks to s services prints exactly if 12 + 2s + W + 16n <= 255 |
| CommandRoundTrip.MostBlocks | src/felica_standard/constants.rs:23-34 | one service with short elements admits 13 blocks, sixteen with long ones 11 |
| CommandSecure.SecurePayloadRoundTrip | src/felica_standard/command/parse.rs:566-650 | a secure payload yields its command; padding is ignored behind reads and writes, and joins the package of a registration |
| CommandSecure.SecurePrintUndoesParse | src/felica_standard/command/parse.rs:566-650 | whatever is parsed from a secure payload prints again, to the payload without its padding exactly without a wide element, never to more, and to a payload that parses to the same command |
| Commands.CanonicalIsExpressible | src/felica_standard/types.rs:551-582 | a command is its own canonical form exactly if its fields are ones its bytes can express |
| Purse.ValueRoundTrip | src/felica_standard/emulator/blocks.rs:86-104 | a value survives four bytes exactly if they can express it |
| Purse.ApplyPurseWrite | src/felica_standard/emulator/blocks.rs:106-189 | the block to store, that a repeat stores none, and each refusal's status flag |
| Purse.UpdateEffect | src/felica_standard/emulator/blocks.rs:133-189 | what each operation does to purse, cashback data, user data and execution ID |
| PurseOutcome.FieldsAre | src/felica_standard/emulator/blocks.rs:31-98 | where purse, cashback data, user data and execution ID stand, and what number four bytes say |
| PurseOutcome.DecrementOnOrdinary | src/felica_standard/emulator/blocks.rs:106-189 | when a decrement of an ordinary purse is stored, a repeat, or refused with 01h |
| PurseOutcome.DecrementOnLimit | src/felica_standard/emulator/blocks.rs:106-189 | so for a limit purse, refused with 03h |
| PurseOutcome.CashbackOnOrdinary | src/felica_standard/emulator/blocks.rs:106-189 | so for a cashback, refused with 02h or 01h |
| PurseOutcome.CashbackOnLimit | src/felica_standard/emulator/blocks.rs:106-189 | and on a limit purse |
| PurseOutcome.DirectOnOrdinary | src/felica_standard/emulator/blocks.rs:106-189 | so for direct access, never a repeat, refused with A5h |
| PurseOutcome.DirectOnLimit | src/felica_standard/emulator/blocks.rs:106-189 | and on a limit purse |
| PurseOutcome.StoredFields | src/felica_standard/emulator/blocks.rs:106-189 | the fields of every block that is stored |
| PurseOutcome.AnswerIs | src/felica_standard/emulator/blocks.rs:67-82 | which operation a service attribute and an access mode select; everything else is refused with A5h |
| PurseOutcome.OrdinaryAccess | src/felica_standard/emulator/blocks.rs:67-189 | for every access to an ordinary purse, from the bytes: when a block is stored, when it is a repeat, and each refusal |
| PurseOutcome.LimitAccess | src/felica_standard/emulator/blocks.rs:67-189 | and for every access to a limit purse |
| Purse.LimitsAreKept | src/felica_standard/emulator/blocks.rs:133-189 | every updated limit purse reads back between its limits |
| Purse.SecondWriteChangesNothing | src/felica_standard/emulator/blocks.rs:106-189 | a repeated command finds nothing to change, for every block, command, operation and limit |
| Purse.AtMostOnce | src/felica_standard/emulator/blocks.rs:106-189 | a command applied any number of times is a command applied once |
| Purse.PurseIsConserved | src/felica_standard/emulator/blocks.rs:106-189 | over any run the final purse is the first minus decrements, plus cashbacks, minus direct reductions |
| Purse.WhenTotalGrows | src/felica_standard/emulator/blocks.rs:150-189 | purse plus cashback data grows exactly in a decrement over negative cashback data whose execution ID is new and whose difference is in range |
| Purse.WhenMoreIsCashedBack | src/felica_standard/emulator/blocks.rs:150-189 | exactly such a write lets more be cashed back than was there and was taken |
| Purse.RunCreatesNothing | src/felica_standard/emulator/blocks.rs:106-189 | over any run without such a write, on any purse, the total never grows, and cashed back plus what can still be cashed back never exceeds initial cashback plus decremented |
| Purse.NothingIsCreated | src/felica_standard/emulator/blocks.rs:106-189 | a run without negative cashback data is such a run, and leaves none behind |
| Purse.OrdinaryPurseCreatesNothing | src/felica_standard/emulator/blocks.rs:106-189 | so is every run on an ordinary purse |
| Purse.WhenPurseRises | src/felica_standard/emulator/blocks.rs:67-189 | one access raises an ordinary purse exactly if it cashes back, through a cashback service, an amount that is stored and fits |
| Purse.OthersNeverRaise | src/felica_standard/emulator/blocks.rs:67-189 | no run of other accesses raises it |
| Purse.LimitPurseCanGrow | src/felica_standard/emulator/blocks.rs:106-189 | a run on a limit purse whose total grows from 0 to 5 |
| Cyclic.ApplyCyclicWrite | src/felica_standard/emulator/blocks.rs:210-229 | the new ring, that a repeat leaves it, and that a write longer than the ring is refused |
| Cyclic.RepeatsAgree | src/felica_standard/emulator/blocks.rs:215-221 | the repeat test on the ring agrees with the one on the whole log |
| Cyclic.RingRefinesLog | src/felica_standard/emulator/blocks.rs:210-229 | after any run of writes the ring is the newest part of the unbounded log, at its first length |
| AreaTree.EmulatedArea.New | src/felica_standard/emulator/structure.rs:152-161 | an empty area, or the first of its range errors |
| AreaTree.EmulatedArea.AddService | src/felica_standard/emulator/structure.rs:227-265 | appends the service and stays well formed, or names the first failed check and changes nothing |
| AreaTree.EmulatedArea.AddArea | src/felica_standard/emulator/structure.rs:237-282 | appends the subtree and stays well formed, or names the first failed check and changes nothing |
| AreaRules.AreaIsAccepted | src/felica_standard/emulator/structure.rs:579-607 | which ranges and attributes an area may have, and the error for each other |
| AreaRules.ServiceIsAccepted | src/felica_standard/emulator/structure.rs:243-265 | which codes a service may have below an area, and the error for each other |
| AreaRules.ChildAreaIsAccepted | src/felica_standard/emulator/structure.rs:267-284 | which areas may stand below an area, and the error for each other |
| AreaRules.WellFormedIs | src/felica_standard/emulator/structure.rs:227-284 | the trees the builders make are exactly those whose codes follow these rules at every depth |
| AreaRules.RootIs | src/felica_standard/emulator/structure.rs:16-21 | the root area is area 0 and takes every code below FFFFh |
| ServiceCodes.NumberIs | src/felica_standard/types.rs:141-143 | the service number is the count of whole 64s |
| ServiceCodes.AttributeIs | src/felica_standard/types.rs:47-62 | what the low six bits of every code say |
| ServiceCodes.BitsAreMasked | src/felica_standard/types.rs:47-51 | only the low six bits of a byte are looked at |
| ServiceCodes.KindIs | src/felica_standard/types.rs:65-79 | and what kind of service that makes |
| AreaTree.BuilderInvariant | src/felica_standard/emulator/structure.rs:227-333 | every descendant of every area lies in its range, areas marked so have no child areas, and every service has a kind |
| AreaTree.AppendDirectoryEntries | src/felica_standard/emulator/structure.rs:286-301 | the entries of the tree in pre-order go behind the list |
| AreaTree.FindServiceIsFirst | src/felica_standard/emulator/structure.rs:303-319 | the pre-order-first service of a code, found exactly if the directory lists the code |
| AreaTree.FindAreaIsFirst | src/felica_standard/emulator/structure.rs:321-333 | the pre-order-first area of a code, found exactly if the directory lists the code |
| Overlap.SyncOverlappingServices | src/felica_standard/emulator/structure.rs:360-402 | the recursion over the tree links what the specification links |
| Overlap.TreeIsItsList | src/felica_standard/emulator/structure.rs:360-402 | linking a tree is linking its services in pre-order, and keeps the directory |
| Overlap.LinkAllMeans | src/felica_standard/emulator/structure.rs:360-402 | linking a list gives every service the store of the first one of its number, up to the first kind clash, which it names and from which on the services stay as they were |
| Overlap.LinkingMeans | src/felica_standard/emulator/structure.rs:360-402 | so for trees; linking succeeds exactly without a kind clash, and else names the pre-order-first one |
| Overlap.WhenCodesClash | src/felica_standard/emulator/structure.rs:360-402 | linking a built tree fails exactly if two codes with one number have attributes of different kinds, by their arithmetic |
| Overlap.WhenCodesShare | src/felica_standard/emulator/structure.rs:360-402 | once it is linked, services share a store exactly if their codes have one number |
| Overlap.SharingIsOverlapping | src/felica_standard/emulator/structure.rs:360-402 | after linking, services share a store exactly if they share a number, and then have one kind, even if some overlapped and shared before |
| Overlap.LinkAllUses | src/felica_standard/emulator/structure.rs:360-402 | linking, even as far as a clash, gives no store to a number that did not have it |
| Overlap.BuiltTreesHaveKinds | src/felica_standard/emulator/structure.rs:371-374 | in built trees every service has a kind, so linking does not panic |
| Overlap.LinkingTwice | src/felica_standard/emulator/structure.rs:360-402 | linking again changes nothing |
| CardSystem.EmulatedSystem.constructor | src/felica_standard/emulator/system.rs:161-175 | a new system has an empty root area over all codes |
| CardSystem.EmulatedSystem.AddService | src/felica_standard/emulator/system.rs:253-260 | a service that passes its check goes below the root, and the whole tree is linked; a kind clash is reported but the service stays |
| CardSystem.EmulatedSystem.AddArea | src/felica_standard/emulator/system.rs:263-267 | so for an area with all that is below it |
| CardSystem.AddKeeps | src/felica_standard/emulator/system.rs:253-267 | every addition keeps the tree well formed and, as long as no kinds clash, makes sharing a store the same as sharing a number, whatever was added directly before |
| CardSystem.RunKeeps | src/felica_standard/emulator/system.rs:208-267 | so over any run of additions, direct and refused ones included, if the system made the last one that passed its check |
| CardSystem.SystemsShareByNumber | src/felica_standard/emulator/system.rs:161-267 | so for every system built from new |
| CardSystem.DirectlyKeepsSharing | src/felica_standard/emulator/system.rs:208-216 | a service added directly keeps it exactly if it brings the store and kind of its number |
| CardSystem.AddSucceeds | src/felica_standard/emulator/system.rs:253-267 | an addition succeeds exactly if it passes its check and no kinds clash then |
| CardSystem.ClashesStay | src/felica_standard/emulator/system.rs:253-267 | once kinds clash, every later addition is refused |
| DirectoryWalk.MergeService | examples/dump.rs:675-692 | grouping services while walking is grouping the found list at the end |
| DirectoryWalk.GroupingMeans | examples/dump.rs:675-692 | grouping keeps the areas, keeps every number's services in order, and leaves one group per number in order of first appearance |
| DirectoryWalk.RegisterIsDistinct | examples/dump.rs:694-702 | requested codes are those met, each once |
| DirectoryWalker.Walker.RegisterServiceCode | examples/dump.rs:694-702 | a code not seen is appended; the set and the list hold the same codes |
| DirectoryWalker.Walker.AppendServiceChild | examples/dump.rs:675-692 | the service joins the group of its number or opens one behind all others |
| DirectoryWalker.Walker.CollectArea | examples/dump.rs:554-640 | for every card, it fails exactly if the card fails to answer an index up to where the walk stops, and else what the loop finds, requests and warns of is what the recursive walk does; it terminates and always advances, so its "did not advance" warning is unreachable |
| DirectoryWalker.Walker.CollectSystemAreas | examples/dump.rs:491-552 | the same for the whole card, areas and system-level services apart |
| DirectoryWalker.StoredTreeIsGathered | examples/dump.rs:491-640 | a stored separated tree comes out with its own areas, grouped services, each code once, and no warning |
| DirectoryRebuild.AreaWalkReads | examples/dump.rs:554-640 | for every card an area's walk uses each index it passes once, but for FFFFh, and reports each code |
| DirectoryRebuild.SystemWalkReads | examples/dump.rs:491-552 | so for the whole card, where it stops at an index without an entry |
| DirectoryRebuild.WalkListsDirectory | examples/dump.rs:491-640 | with no entry at FFFFh the walk lists the directory up to its first gap, each entry once, in order |
| DirectoryLastIndex.AreaRepeats | examples/dump.rs:554-640 | an area walk uses FFFFh once and once more for every area entry that takes all behind it, if the area takes all and a service is last, and not at all otherwise |
| DirectoryLastIndex.SystemRepeats | examples/dump.rs:491-552 | so does the walk over the whole card, if it has no gap |
| DirectoryLastIndex.EachIndexOnce | examples/dump.rs:491-640 | every index is used once exactly unless there is no gap, a service is last, and some area entry takes all behind it |
| DirectoryLastIndex.LastIndexIsUsedTwice | examples/dump.rs:491-640 | a card whose walk from the first index finds its last service twice |
| DirectoryRebuild.AreaWalkIsContained | examples/dump.rs:554-640 | for every card, everything found below an area lies in the ranges of all areas around it |
| DirectoryRebuild.SystemWalkIsContained | examples/dump.rs:491-640 | so for the whole card |
| DirectoryRebuild.AreaWalkIsSeparated | examples/dump.rs:554-640 | a rebuilt area never captures the sibling behind it |
| DirectoryRebuild.RebuildChildren | examples/dump.rs:554-640 | the walk rebuilds a separated area's children from their entries and stops behind them |
| DirectoryRebuild.Rebuild | examples/dump.rs:491-640 | for every well-formed tree under 65,536 entries the walk lists the whole directory, and rebuilds the nesting exactly if no area captures the sibling behind it |
| DirectoryRebuild.CapturedSibling | examples/dump.rs:554-640 | a tree the builders accept whose nesting comes out different |
| DirectoryDepth.DeepestWalk | examples/dump.rs:491-640 | for every card the walk nests at most 65,535 areas, one call each, and so many exactly if every entry before the last index is an area that the one before it takes |
| DirectoryDepth.SameAreaEverywhere | examples/dump.rs:554-640 | a card that answers every index with the same area is walked so deep |
| IsoDep.IBlockRoundTrip | src/driver/port400/iso14443.rs:373-394 | an I-block is parsed back, with its flags, exactly if it is addressed to its receiver |
| IsoDep.RBlockRoundTrip | src/driver/port400/iso14443.rs:418-432 | so is an R-block; its chaining flag is the negative acknowledgement |
| IsoDep.SBlockRoundTrip | src/driver/port400/iso14443.rs:396-416 | so is an S-block of any code that claims no address it does not carry; its chaining flag is part of its code |
| IsoDepBytes.IBlockIs | src/driver/port400/iso14443.rs:373-394 | the bytes of an I-block, its first bit by bit |
| IsoDepBytes.RBlockIs | src/driver/port400/iso14443.rs:418-432 | of an R-block |
| IsoDepBytes.SBlockIs | src/driver/port400/iso14443.rs:396-416 | and of an S-block of any code |
| IsoDepBytes.ReceivedIs | src/driver/port400/iso14443.rs:463-513 | what every byte string is taken for, and each refusal |
| IsoDepBytes.FrameSizesAre | src/driver/port400/iso14443.rs:6-10 | the size of every index |
| IsoDepBytes.PayloadsFit | src/driver/port400/iso14443.rs:104-121 | the room for a payload, and the state of a new session |
| IsoDepBytes.TypeADefaultsAre | src/driver/port400/iso14443.rs:67-86 | 254 bytes from the card and 30 to it, with CID 2 |
| IsoDep.Exchange.NextFrame | src/driver/port400/iso14443.rs:434-461 | the next frame, the offset behind it, and the one empty frame of an empty payload |
| IsoDep.Exchange.constructor | src/driver/port400/device/iso_dep.rs:283-312 | an exchange starts with the first frame of its payload |
| IsoDep.Exchange.HandleRBlock | src/driver/port400/device/iso_dep.rs:126-155 | a wrong block number, an acknowledgement and a request to repeat lead to failure, the next frame or the end, and the same frame as long as retries last |
| IsoDep.Exchange.Transmit | src/driver/port400/device/iso_dep.rs:55-95 | the frames that go out, and why sending stops, for every sequence of R-blocks |
| IsoDep.SentFollowsAcks | src/driver/port400/device/iso_dep.rs:126-155 | whatever R-blocks come in, each frame sent is the one behind as many acknowledgements |
| IsoDep.AllFramesGoOut | src/driver/port400/device/iso_dep.rs:126-155 | of an acknowledged chain all frames go out exactly if each acknowledgement carries the number its block does not |
| IsoDep.EqualNumbersStopTheChain | src/driver/port400/device/iso_dep.rs:134-139 | a card that acknowledges with the number of the block stops every payload over one frame after the first |
| IsoDep.ChainingIsComplete | src/driver/port400/iso14443.rs:434-461 | max(1, ceil(n / max(1, max_inf))) frames carry the chunks in order, all but the last flagged as chained |
| IsoDep.ChainIsReassembled | src/driver/port400/iso14443.rs:434-513 | a receiver that parses the frames of an unchained payload gets exactly the payload |
| IsoDep.UpdatePcdIfsIsLeast | src/driver/port400/iso14443.rs:123-126 | an IFS request selects the smallest frame size that is large enough |
| IsoDep.AllFitIfFirstDoes | src/driver/port400/iso14443.rs:434-461 | all frames fit a size exactly if the first does |
| IsoDep.FramesFitTheCard | src/driver/port400/device/iso_dep.rs:283-312 | with the exchange's own chunk size no frame exceeds FSC exactly if FSD <= FSC or the payload fits one frame; with the card's chunk size none ever does |
| IsoDep.ExchangeFitsTheCard | src/driver/port400/device/iso_dep.rs:283-312 | so in an exchange from a new session, with alternating block numbers |
| IsoDep.TypeADefaultsOverrun | src/driver/port400/iso14443.rs:67-86 | under the Type A defaults all frames fit exactly up to 30 payload bytes |

## Left out

- USB and TCP transports, opening readers, RF exchange, device discovery: input and output and foreign calls.
- Transport.BufferedReader.ReadExact: wall-clock deadlines are timeouts in the transport's script, and sleeps are left out.
- Transport.BufferedReader.DrainInput: its time limit is a timeout in the script.
- Port100Reader.RunIsRead: about ACK and data frames, not Port-100 error frames in the byte stream.
- Port100Driver.Chipset.SetInitiatorRf: the FeliCa receive tuning that setting an F speed also attempts is left out; it writes other registers, and its failures are ignored.
- Session keys, authentication, MACs and secure messaging: a secure command is its decrypted payload.
- PMm timeouts and frame waiting times: floating point and durations.
- Command wrappers, response codecs and the emulator's command dispatch.
- AreaTree.EmulatedArea.AddService: keys, key versions and limit-purse settings are left out; a service is its code and the identity of its block store.
- The contents of shared block stores: linking is about which services hold the same store.
- Error message texts: a malformed packet is one refusal, and read failures fall into three kinds.
- CommandWriter.EncodeCommand: the release build, in which only a count above 255 panics; a debug build also asserts the list limits.
- CivilYear.ClosedFormCounts: the day arithmetic is on unbounded integers, not on 64 bits.
- AreaTree.EmulatedArea.AddArea: the subtree is moved as a value, so aliasing of an area after it was added is not modelled.
- Overlap.SyncOverlappingServices: trees are values, and a linked tree is a new tree; stores are named by numbers, which stand for their identity.
- Port100Driver.Chipset.ChangeMode: a reset whose closing ACK cannot be written is a lost answer of the script.
- IsoDep.Exchange.Transmit: the R-blocks of the sending side; waiting-time extensions, frame size changes within a chain, and the reception of I-blocks are not modelled.
- Applying an ATS or Type B protocol information to the ISO-DEP configuration: field by field, nothing that spans steps.
