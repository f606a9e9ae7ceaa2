# Proofs about the capture, font, startup and coverage tools

This project models the parts of the repository whose correctness rests on exact formats
and exact accounting, and proves what they promise. `dafny verify dfyconfig.toml` checks
all of it.

**RX wire format.** A CSI or Monitor batch is a 32-byte header, directory rows, 256-byte
metadata records and 4-aligned payload spans. `RxRecords`, `RxBatches` and `CsiLayouts`
hold the facts, when they are valid, a writer, and the decoder as functions; `RxDecoder`
holds the decoder with its loops and cursor over a byte array. The central result is that
decoder and writer are inverse to each other on valid batches, so the format is canonical:
every byte is a fact, is forced by a fact, or has to be zero. `RxProperties` reads off
what accepted batches satisfy, and `RxDocument` says field by field, on plain little-endian
words and numbered bits, that they say what the tables of the format's description say.

**The firmware's end of it.** `DeviceWriter` writes header and directory in place,
`DeviceRecordWriter` the metadata records behind the checks of `DeviceMetadata`,
`DeviceSource` puts the control buffer together, and the two sources of `DeviceStreams`
hand the batch out span by span. Firmware and host are written in different languages from
one description; here they are proved to agree, and `DeviceDocument` reads the same tables
off the firmware's control bytes. What the firmware sends for a batch of
frames, the host decodes to the facts of those frames (`DeviceTheorems`), and the host
accepts nothing else: every batch it accepts is what the wire encoder produces for some rows
and metadata that the encoder accepts (`DeviceLanguage`). `DeviceCapture` follows a Monitor frame
from the firmware through host and exporter to an independent reader of the capture.

**PCAPNG export.** `Radiotap`, `PcapBlocks`, `PcapExport` and `PcapEncoder` turn a decoded
Monitor batch into a capture as PCAP Next Generation (draft-ietf-opsawg-pcapng) describes:
blocks as in section 3.1, options as in section 3.5, and the section header, interface
description and enhanced packet blocks of sections 4.1, 4.2 and 4.3. `PcapReader` and the
mask-driven Radiotap reader are written independently of the exporter, and the exporter is
proved against them: everything that went in is read back, in order, forward and backward.
`PcapTheorems` and `PcapMeaning` state times, names and comments by the arguments of the caller.

**Startup bundling.** `Startup` gives meaning to a startup file: its run, line by line, with
an allowlisted `load` line running its target in place; `StartupLoads` says which lines are
such lines. `StartupBundler` is the recursive
expansion with its shared counter. The bundle is the run, bundling succeeds if and only if
the loads form a tree rooted at the entry, and, on the conditions below, a bundle run as one
file executes what the entry's run executes.

**Fonts.** `Glyphs` packs and unpacks cells, `BdfGlyphs` places BDF glyphs into them, and
`Fonts` builds EQF1 files and models the device's loader and pixel check, so that what
the device draws is proved to be what the font source holds.

**C source rewriting and coverage.** `SourceEdits`, `ParserSource`, `FunctionBodies` and
`SourceRewrite` cover the line-preserving rewriting ahead of the C parser; `Coverage` the
counters and their conservation.

**Smaller tools.** `ConfigLeaves` flattens nested structures, `ContextDigest` builds the
byte stream behind a build context's hash, `SourceReader` is the growing read buffer of the
syntax checker. `Wire` and `TextLines` hold little-endian words, flag words and Python's
line splitting.

Errors are one value, `Err` or `None`: which message is raised is not modelled, so the
order of checks that all reject is immaterial.

## Where the code differs from what is said about it

- The bundler's lines are meant to be those of the run. A file that ends with a form feed
  (or another break of `str.splitlines` that is not a newline) gets an extra line in the
  bundle, and so does an entry name with a break in it, a carriage return included.
  `StartupLines.BundleLines` and `StartupLines.TidyRuns` give the exact condition,
  `StartupLines.FormFeedSplits` and `StartupLines.CarriageReturnSplits` an input each.
- The bundler is meant to add comments only. A file name may hold the end of a comment, and
  then the rest of its comment line is code. `StartupLines.OnlyCommentsAdded` gives the exact
  condition, `StartupLines.NameEndsComment` an input.
- `parser_source` promises to preserve line coordinates. Its directive filter counts lines
  with `str.splitlines`, so a form feed in the text moves the rest of the translation unit
  down a line. `SourceRewrite.ParserKeepsLines` gives the exact condition,
  `SourceRewrite.FormFeedMovesLines` an input. The later passes keep their promise.
- `checker_read_source` reports that a source exceeds 1048576 bytes, but it refuses a source
  of exactly that size too: the buffer is full before the end of the file is seen.
  `SourceReader.ReadSource` states the exact bound.

## Model

| member | source | states |
|---|---|---|
| RxDecoder.ParseRxBatch | scripts/capture/rx.py:314-365 | the decoder over a byte array: it accepts exactly the encodings of valid batches of the asked kind, and gives back the batch that was encoded |
| RxDecoder.Frame | scripts/capture/rx.py:339-363 | one turn of the frame loop reads the row, the record and the payload spans at the cursor |
| RxDecoder.Spans | scripts/capture/rx.py:353-361 | the span loop of a frame, with its uint32 bounds, zero fill and moving cursor |
| RxDecoder.Metadata | scripts/capture/rx.py:203-311 | the checks on a 256-byte record and the facts it yields |
| RxDecoder.AddressList | scripts/capture/rx.py:214-220 | the address loop: a set mask bit gives the six bytes, a clear one demands zeros |
| RxDecoder.Layout | scripts/capture/rx.py:157-200 | the CSI layout loop; what it accepts is what the layout writer would have put there |
| RxCanonical.DecodingIsInverse | scripts/capture/rx.py:157-365 | decoding an input gives batch `b` if and only if `b` is valid and the input is the one encoding of `b` |
| RxCanonical.Canonical | scripts/capture/rx.py:157-365 | two inputs that decode to equal batches are byte-identical |
| RxCanonical.KindsExclusive | scripts/capture/rx.py:326-327 | no input is accepted both as CSI and as Monitor |
| RxCanonical.TotalsBounded | scripts/capture/rx.py:363 | the byte totals never exceed the payload, so their overflow checks cannot fire |
| RxCanonical.HeldExtends | scripts/capture/rx.py:339-363 | the loop invariant: collecting one more frame and filling one more row, record and payload are the same step |
| RxCanonical.FramesSound | scripts/capture/rx.py:336-363 | after `n` accepted frames the three regions hold exactly the encodings of the frames collected |
| RxCanonical.FramesComplete | scripts/capture/rx.py:336-363 | conversely, regions that hold the encodings of valid frames are read back as those frames |
| RxBatchProofs.HeaderRead | scripts/capture/rx.py:325-335 | the header checks pass with a count exactly for the one header of that count and total length |
| RxBatchProofs.FrameSound | scripts/capture/rx.py:340-363 | an accepted frame is valid, and its row, record and padded payload are its encodings |
| RxBatchProofs.FrameComplete | scripts/capture/rx.py:340-363 | a valid frame whose encodings stand in the three regions is read back |
| RxBatchProofs.PayloadSound | scripts/capture/rx.py:353-361 | the two spans read one after the other are the padded payload of the frame |
| RxMetadataProofs.MetadataSound | scripts/capture/rx.py:203-311 | an accepted record is the encoding of valid metadata that matches the directory row |
| RxMetadataProofs.MetadataComplete | scripts/capture/rx.py:203-311 | the encoding of valid matching metadata is accepted and gives the metadata back |
| RxPacketProofs.PacketOfSound | scripts/capture/rx.py:249-303 | packet flags, enums, header words and driver reports of an accepted record determine its packet bytes |
| RxPacketProofs.PacketOfComplete | scripts/capture/rx.py:249-303 | and are read back from the bytes of a packet |
| RxRecordProofs.RadioSound | scripts/capture/rx.py:221-246 | radio scalars and availability flags: accepted bytes are the canonical ones of the facts read |
| RxRecordProofs.RadioComplete | scripts/capture/rx.py:221-246 | and the canonical bytes of valid facts are accepted |
| RxRecordProofs.AddressesSoundAll | scripts/capture/rx.py:212-220 | the address mask and the five slots are the canonical form of the addresses read |
| CsiLayoutProofs.LayoutSound | scripts/capture/rx.py:157-200 | an accepted layout is valid and its bytes are the canonical ones |
| CsiLayoutProofs.LayoutComplete | scripts/capture/rx.py:157-200 | the canonical bytes of a valid layout are accepted and give the layout back |
| CsiLayoutProofs.SegmentSound | scripts/capture/rx.py:175-196 | an accepted 40-byte segment slot is the encoding of a valid segment |
| CsiLayoutProofs.SegmentComplete | scripts/capture/rx.py:175-196 | the encoding of a valid segment at the expected offset is accepted |
| RxProperties.PayloadTiling | scripts/capture/rx.py:336-364 | CSI bytes, zero fill, packet bytes and zero fill of each frame stand between 4-aligned starts that begin at the end of control and end at the end of input |
| RxProperties.TotalsAreSums | scripts/capture/rx.py:363-365 | reported CSI and packet byte totals are the sums of the span lengths; no offset exceeds a uint32 |
| RxProperties.PacketLengths | scripts/capture/rx.py:249-297 | captured, readable, header and reported lengths agree with the capture flags in every accepted frame |
| RxProperties.LayoutTiling | scripts/capture/rx.py:169-198 | segments tile the CSI bytes before the padding, IQ pairs add up, a known encoding fixes the byte length, a known segment names as many distinct subcarriers as it has pairs |
| RxProperties.SubcarrierCount | scripts/capture/rx.py:187-192 | disjoint inclusive ranges name as many distinct subcarriers as their lengths add up to |
| RxProperties.SegmentMeans | scripts/capture/rx.py:175-196 | a segment is valid if and only if its words fit and it is sound in terms of samples and subcarriers: the bytes per IQ pair of its encoding, ordered ranges without a common subcarrier, one subcarrier per pair where the layout is known, distinct nulls |
| RxDocument.AcceptedSays | docs/api/wifi-csi-protocol.md:12-36 | whatever is accepted says what the tables say of its bytes, read as plain little-endian words and bits: header, and for every frame its directory row and its record; payloads start after the records and advance by whole words |
| RxDocument.RecordSays | docs/api/wifi-csi-protocol.md:49-132 | the metadata table, field by field: each fact is the word, byte or bit the table names, and is unavailable exactly as the table says |
| RxDocument.SegmentSays | docs/api/wifi-csi-protocol.md:161-172 | the segment table: type, counts, offset, length, pairs, then ranges and nulls as signed words |
| RxDocument.OffsetWords | scripts/capture/rx.py:353-361 | the offset words of a row are 0 for an absent span and otherwise exactly where the bytes of the span stand |
| DeviceWriter.MakeLayout | components/esp32_mquickjs/src/modules/wifi_common/esp32_mquickjs_wifi_rx_wire.c:57-78 | the firmware preflight: a layout exactly for 1 to 128 acceptable frames whose checked offsets fit a uint32 |
| DeviceWriter.AdvanceIs | components/esp32_mquickjs/src/modules/wifi_common/esp32_mquickjs_wifi_rx_wire.c:46-55 | from an aligned cursor the checked sums are the padded lengths, and they fail exactly when the end passes a uint32 |
| DeviceWriter.WriteCsiRow | components/esp32_mquickjs/src/modules/wifi_common/esp32_mquickjs_wifi_rx_wire.c:130-140 | the fields of a CSI directory row, in place, nothing else touched |
| DeviceWriter.WriteMonitorRow | components/esp32_mquickjs/src/modules/wifi_common/esp32_mquickjs_wifi_rx_wire.c:130-148 | the fields of a Monitor directory row, in place, nothing else touched |
| DeviceWriter.WriteControl | components/esp32_mquickjs/src/modules/wifi_common/esp32_mquickjs_wifi_rx_wire.c:104-151 | all or nothing: on failure the buffer is unchanged, on success exactly the control region holds header, rows and zeroed metadata slots |
| DeviceAgreement.ValidAccepted | components/esp32_mquickjs/src/modules/wifi_common/esp32_mquickjs_wifi_rx_wire.c:20-44 | every frame the host decoder can return passes the firmware frame check |
| DeviceAgreement.DeviceWritesBatch | components/esp32_mquickjs/src/modules/wifi_common/esp32_mquickjs_wifi_rx_wire.c:104-151 | for every valid batch the firmware control bytes begin the one encoding of the batch |
| DeviceAgreement.AcceptedMeans | components/esp32_mquickjs/src/modules/wifi_common/esp32_mquickjs_wifi_rx_wire.c:20-44 | the firmware frame check accepts a row if and only if some valid capture state shows in it |
| DeviceDocument.ControlSays | components/esp32_mquickjs/src/modules/wifi_common/esp32_mquickjs_wifi_rx_wire.c:104-151 | the control bytes in the terms of the tables: header words, every word of every row, zeroed metadata slots |
| DeviceDocument.OffsetsWritten | components/esp32_mquickjs/src/modules/wifi_common/esp32_mquickjs_wifi_rx_wire.c:46-55 | the offset words the firmware writes are 0 for an absent span and otherwise the place of its bytes |
| DeviceMetadata.CheckLayout | components/esp32_mquickjs/src/modules/wifi_common/esp32_mquickjs_wifi_rx_wire_metadata.c:64-100 | the segment loop of the preflight with its running sums; it accepts exactly the layouts whose segments tile the CSI bytes and add up |
| DeviceRecordWriter.CheckMetadata | components/esp32_mquickjs/src/modules/wifi_common/esp32_mquickjs_wifi_rx_wire_metadata.c:143-155 | the preflight of a record: the envelope of its frame, signal, layout and packet checks, and what Monitor forbids |
| DeviceRecordWriter.StoreAddresses | components/esp32_mquickjs/src/modules/wifi_common/esp32_mquickjs_wifi_rx_wire_metadata.c:171-173 | the address loop, in place: an unavailable address stays zero; then the mask |
| DeviceRecordWriter.StoreRadio | components/esp32_mquickjs/src/modules/wifi_common/esp32_mquickjs_wifi_rx_wire_metadata.c:174-182 | unavailable radio scalars become their sentinels |
| DeviceRecordWriter.MakePacketFlags | components/esp32_mquickjs/src/modules/wifi_common/esp32_mquickjs_wifi_rx_wire_metadata.c:214-230 | the flag word bit by bit: capture flags change places, the frame control gives a byte of it, the rest says what is available |
| DeviceRecordWriter.StoreSegment | components/esp32_mquickjs/src/modules/wifi_common/esp32_mquickjs_wifi_rx_wire_metadata.c:196-211 | one segment slot, in place: counts, sizes, ranges and nulls, the unused entries left zero |
| DeviceRecordWriter.StoreSlots | components/esp32_mquickjs/src/modules/wifi_common/esp32_mquickjs_wifi_rx_wire_metadata.c:195-212 | the segment loop: the used slots in order, then zeros |
| DeviceRecordWriter.WriteMetadata | components/esp32_mquickjs/src/modules/wifi_common/esp32_mquickjs_wifi_rx_wire_metadata.c:157-247 | all or nothing: on failure the buffer is unchanged, on success exactly the 256 bytes of the record are, whatever stood there |
| DeviceRecords.FactsValid | components/esp32_mquickjs/src/modules/wifi_common/esp32_mquickjs_wifi_rx_wire_metadata.c:143-155 | every record the firmware accepts states facts that the host accepts, under the row the firmware writes for it |
| DeviceRecords.RecordAgrees | components/esp32_mquickjs/src/modules/wifi_common/esp32_mquickjs_wifi_rx_wire_metadata.c:157-247 | byte for byte the firmware writes the one encoding of those facts |
| DeviceRecords.RecordReadBack | scripts/capture/rx.py:203-311 | so the host reads exactly those facts from the record |
| DeviceSource.BuildControl | components/esp32_mquickjs/src/modules/wifi_csi/esp32_mquickjs_wifi_csi.c:2503-2536 | the control buffer: built exactly when every frame passes its checks and the batch fits, and then it holds header, rows and every record at its place |
| DeviceStreams.CsiSource.constructor | components/esp32_mquickjs/src/modules/wifi_csi/esp32_mquickjs_wifi_csi.c:2548-2560 | nothing has been handed out yet |
| DeviceStreams.CsiSource.Next | components/esp32_mquickjs/src/modules/wifi_csi/esp32_mquickjs_wifi_csi.c:2548-2596 | one span per call: no byte is lost, repeated or reordered, and the calls come to an end; a call fails only at a slot that is gone, without handing anything out |
| DeviceStreams.MonitorSource.constructor | components/esp32_mquickjs/src/modules/wifi_monitor/esp32_mquickjs_wifi_monitor.c:760-770 | nothing has been handed out yet |
| DeviceStreams.MonitorSource.Next | components/esp32_mquickjs/src/modules/wifi_monitor/esp32_mquickjs_wifi_monitor.c:760-788 | the same for Monitor, whose frames without a packet have no span |
| DeviceStreams.CollectCsi | components/esp32_mquickjs/src/modules/wifi_csi/esp32_mquickjs_wifi_csi.c:2548-2596 | calling until there is no span yields everything the source had left |
| DeviceTheorems.StreamDecodes | scripts/capture/rx.py:314-365 | what the firmware sends is the one encoding of a valid batch, and the host decodes it to exactly the facts of the frames |
| DeviceTheorems.PacketsAreAll | components/esp32_mquickjs/src/modules/wifi_monitor/esp32_mquickjs_wifi_monitor.c:777-786 | a Monitor batch has no CSI spans, so its packets are its whole payload |
| DeviceTheorems.SendCsi | components/esp32_mquickjs/src/modules/wifi_csi/esp32_mquickjs_wifi_csi.c:2503-2596 | from retained slots to the last span: a stream comes out exactly when the preflight accepts every frame, and the host decodes it to the facts |
| DeviceTheorems.SendMonitor | components/esp32_mquickjs/src/modules/wifi_monitor/esp32_mquickjs_wifi_monitor.c:704-788 | the same for Monitor, where a packet of another length than its row is refused too |
| DeviceConverse.AcceptedBack | components/esp32_mquickjs/src/modules/wifi_common/esp32_mquickjs_wifi_rx_wire_metadata.c:143-155 | for any facts the host accepts there is metadata that the firmware accepts |
| DeviceConverse.FactsBack | components/esp32_mquickjs/src/modules/wifi_common/esp32_mquickjs_wifi_rx_wire_metadata.c:157-247 | and it carries exactly these facts |
| DeviceLanguage.DecodedIsSent | scripts/capture/rx.py:314-365 | for whatever the host decodes there are rows and metadata from which the wire encoder produces exactly those bytes |
| DeviceLanguage.SameLanguage | scripts/capture/rx.py:314-365 | the host accepts a byte string if and only if the wire encoder produces it for some rows and metadata that it accepts |
| Radiotap.MakeRadiotap | scripts/capture/pcapng.py:45-89 | the header builder, field by field; it fails exactly for a complete capture shorter than the FCS it is reported to hold |
| Radiotap.AddRadioFields | scripts/capture/pcapng.py:59-86 | the part of the builder that depends on radio facts, in bit-number order |
| Radiotap.AddMcsField | scripts/capture/pcapng.py:67-86 | the HT MCS field is added exactly when one of its facts is known |
| Radiotap.RadiotapReadBack | scripts/capture/pcapng.py:45-89 | a reader driven by the present mask alone consumes exactly the declared length and recovers exactly the fields written |
| Radiotap.MeaningKept | scripts/capture/pcapng.py:45-89 | the recovered fields say what the record says about FCS, signal, noise, antenna and HT MCS, and nothing more; the MCS field is there exactly for an HT frame with a 20 or 40 MHz bandwidth, an index up to 76, a known short GI or LDPC, or no STBC |
| Radiotap.McsOnWire | scripts/capture/pcapng.py:67-86 | the three bytes of the MCS field, from the facts of the record: known mask, flags and index |
| Radiotap.LevelsOnWire | scripts/capture/pcapng.py:50-66 | the bytes of flags, signal and noise, from the facts of the record |
| Radiotap.FieldsReadBack | scripts/capture/pcapng.py:45-89 | any ascending list of fields is recovered from its bytes by the mask-driven reader |
| PcapBlocks.OptionsReadBack | scripts/capture/pcapng.py:28-36 | an option list is read back exactly and stops at its end marker |
| PcapBlocks.ForwardWalk | scripts/capture/pcapng.py:39-42 | reading a stream forward gives back its blocks and ends at its end |
| PcapBlocks.BackwardWalk | scripts/capture/pcapng.py:39-42 | reading it backward from the repeated lengths gives the same blocks in reverse |
| PcapBlocks.MakeBlockFrames | scripts/capture/pcapng.py:39-42 | a body that is a multiple of four is framed unchanged, or refused for its length |
| PcapEncoder.EncodeMonitorPcapng | scripts/capture/pcapng.py:92-166 | the exporter over a byte array: it produces the stream of the specified blocks, and fails exactly when they cannot be built |
| PcapEncoder.MappedTimestamps | scripts/capture/pcapng.py:129-130 | every timestamp is the clock base plus the distance to its origin, or the export fails because one does not fit 64 bits |
| PcapEncoder.SectionComments | scripts/capture/pcapng.py:138-143 | the section options: one summary, then one comment for each frame without packet bytes, in order |
| PcapEncoder.Introduce | scripts/capture/pcapng.py:149-158 | an interface is described exactly at the first packet of its (generation, radio generation) and numbered in order |
| PcapEncoder.PacketBytesOf | scripts/capture/pcapng.py:159-165 | one enhanced packet block: interface, timestamp halves, lengths, Radiotap and packet bytes, comment |
| PcapEncoder.PacketStream | scripts/capture/pcapng.py:145-165 | the packet loop with its interface dictionary |
| PcapReadback.CaptureReadBack | scripts/capture/pcapng.py:121-166 | an independent reader recovers the section options, the interfaces in order of first use, and the packets in frame order |
| PcapReadback.FrameReadBack | scripts/capture/pcapng.py:146-165 | each frame with packet bytes is recovered at its place: interface of its identity, timestamp, lengths, Radiotap fields and packet bytes |
| PcapReadback.TwoWayWalk | scripts/capture/pcapng.py:39-42 | forward and backward walks of a capture visit the same blocks; every block is at least 12 bytes and a multiple of four long |
| PcapReadback.OneInterfaceEach | scripts/capture/pcapng.py:145-158 | one interface for each distinct identity, and only for identities of frames with packets |
| PcapReadback.NameInjective | scripts/capture/pcapng.py:153 | interface names of different identities differ |
| PcapReadback.PacketPosition | scripts/capture/pcapng.py:146-148 | the packet of a frame stands at the number of packets before it |
| PcapTheorems.RelativeTimeline | scripts/capture/pcapng.py:122-130 | the relative timeline always fits, starts at zero with the earliest observation and keeps every distance |
| PcapTheorems.ArgumentsChosen | scripts/capture/pcapng.py:112-130 | which clock arguments are accepted, and what every frame is stamped with in terms of them: the UTC anchor plus the distance from the monotonic anchor, or the distance from the earliest frame |
| PcapTheorems.ExportSucceedsExactlyWhen | scripts/capture/pcapng.py:92-166 | an export succeeds if and only if boot identity, clock arguments and batch are valid, every time mapped by the two anchors fits 64 bits, comments fit and every packet can be headed |
| PcapTheorems.ExportReadBack | scripts/capture/pcapng.py:92-166 | from accepted wire bytes to capture and back: one packet per frame with bytes, with what the decoder found in that frame, stamped by the anchors of the caller |
| PcapTheorems.MetadataOnlyReported | scripts/capture/pcapng.py:137-143 | a frame without packet bytes is reported in the section header |
| PcapMeaning.NameSpells | scripts/capture/pcapng.py:153 | the interface name spells session generation and radio generation, in this order, in decimal |
| PcapMeaning.ExportDetails | scripts/capture/pcapng.py:149-165 | interface and packet as a reader finds them: link type 127, no snap length, name, microsecond resolution, comments of interface and packet with the facts put into them |
| PcapMeaning.SectionSays | scripts/capture/pcapng.py:137-143 | the section header counts observations and packets, and has a comment for every frame without a packet |
| PcapMeaning.BootIdentityIs | scripts/capture/pcapng.py:102-109 | a boot identity is accepted if and only if it spells a text of 1 to 256 UTF-8 bytes without control characters |
| DeviceCapture.FrameInCapture | scripts/capture/pcapng.py:92-166 | from radio to file: a reader of the exported capture of what the firmware sent finds every frame that has a packet, in order, with its bytes, its time under the anchors of the caller, session, length on air and levels |
| StartupBundler.Bundler.constructor | scripts/codegen/startup.py:86-87 | no load has been counted yet |
| StartupBundler.Bundler.Expand | scripts/codegen/startup.py:89-107 | the expansion succeeds exactly when the run of the file ends, returns the rendered run, and moves the counters by exactly the loads of the run |
| StartupBundler.Bundler.Bundle | scripts/codegen/startup.py:86-114 | bundling succeeds exactly when the run of the entry ends and loads each allowlisted file once; the bundle is the rendered run |
| StartupLoads.LoadLineIs | scripts/codegen/startup.py:19-21 | a line loads a path if and only if it is blanks, a call of `load` with the path in quotes of one of both kinds, blanks and an end of line |
| Startup.RunsUnique | scripts/codegen/startup.py:94-104 | a file has at most one run |
| Startup.CycleNeverEnds | scripts/codegen/startup.py:90-91 | a file that waits for itself never ends, so the recursion error loses no bundle |
| StartupTree.RunReaches | scripts/codegen/startup.py:96-104 | everything a run does comes from a line of a file that loads reach |
| StartupTree.RunCovers | scripts/codegen/startup.py:96-104 | conversely a run performs every line of every file it reaches |
| StartupTree.TreeEnds | scripts/codegen/startup.py:89-107 | in a tree of loads nothing runs forever |
| StartupTree.LoadedOnce | scripts/codegen/startup.py:100-112 | in a tree no run loads a file twice |
| StartupTree.BundlesExactlyTrees | scripts/codegen/startup.py:86-114 | bundling succeeds if and only if the allowlisted loads form a tree rooted at an entry that nothing loads |
| StartupLines.BundleLines | scripts/codegen/startup.py:92-107 | the lines of a bundle are the comments and the lines of the run, one per event, if and only if no comment and no completed line breaks inside |
| StartupLines.TidyRuns | scripts/codegen/startup.py:92-107 | that condition, as a check on the entry name and the file texts alone |
| StartupLines.FormFeedSplits | scripts/codegen/startup.py:105-106 | a file that ends with a form feed does make the lines differ |
| StartupLines.CarriageReturnSplits | scripts/codegen/startup.py:94 | so does an entry name with a carriage return, whatever the files hold |
| StartupLines.BannerIsComment | scripts/codegen/startup.py:94 | the comment line of a file is one closed comment if and only if the name of the file holds no end of a comment |
| StartupLines.OnlyCommentsAdded | scripts/codegen/startup.py:94-104 | without its closed comments the bundle is what the run executes, if and only if no name of a bundled file ends a comment |
| StartupLines.NameEndsComment | scripts/codegen/startup.py:94 | an accepted name that does end its comment |
| StartupLines.BundlePreservesMeaning | scripts/codegen/startup.py:86-114 | where names and texts pass both checks, a bundle run as one file executes, closed comments aside, exactly the lines that the run of the entry executes, in order |
| TextLines.LinesShape | scripts/codegen/startup.py:93 | lines of a text have no break inside, and only the last may lack one at its end |
| Glyphs.EncodeGlyph | scripts/codegen/font.py:472-483 | column-major packing of a cell, top pixel of a byte lowest |
| Glyphs.ColumnsToPixels | scripts/codegen/font.py:233-246 | unpacking succeeds exactly for the expected number of columns, and a cell pixel is its bit |
| Glyphs.PackRoundTrip | scripts/codegen/font.py:472-483 | unpacking undoes packing for every width and height, and the packed form determines the pixels |
| Glyphs.RepackedBit | scripts/codegen/font.py:233-246 | packing again what columns unpack to keeps exactly the bits above the last row |
| Glyphs.RepackRoundTrip | scripts/codegen/font.py:233-246 | it changes nothing if and only if the columns are bytes without bits below the last row |
| BdfGlyphs.ParseBitmapRow | scripts/codegen/font.py:86-92 | pixel `x` is the bit that `0x80 >> (x & 7)` masks in byte `x // 8`; missing bytes read as zero |
| BdfGlyphs.ConvertBdfGlyph | scripts/codegen/font.py:95-131 | a cell is set if and only if the point it covers, in BDF coordinates, is inked by the glyph; the error cases |
| Fonts.BuildEqf | scripts/codegen/font.py:504-518 | header and packed glyphs; it fails exactly for a code point without a glyph or a header field that is not a byte |
| Fonts.BuildsExactly | scripts/codegen/font.py:504-518 | that condition on the glyph table and the metrics themselves |
| Fonts.ChooseMissing | scripts/codegen/font.py:460-469 | a missing glyph is refused exactly in error mode; otherwise it is the question mark when asked for and there, and else a blank cell of the font |
| Fonts.GlyphSlice | scripts/codegen/font.py:504-510 | the slice of a code point is its own packed glyph, and for one without a glyph the question mark or a blank cell |
| Fonts.DeviceLoads | components/esp32_mquickjs/src/modules/bitmap/esp32_mquickjs_bitmap_font.c:113-174 | the device loader accepts a built font exactly when its metrics can be drawn, and reads the fields and glyphs back |
| Fonts.DeviceDrawsSource | components/esp32_mquickjs/src/modules/bitmap/esp32_mquickjs_bitmap_text.c:154-165 | for every character of the range that has a glyph the device draws exactly the pixels of that glyph; otherwise those of the question mark, a blank cell or the first character, as stated |
| Fonts.GlyphOffset | components/esp32_mquickjs/src/modules/bitmap/esp32_mquickjs_font.c:5-19 | the glyph of a character, or of its stand-in, lies inside the font data |
| SourceEdits.ApplyInReverse | scripts/codegen/idf_wifi_api_map.py:66-67 | applying the edits last to first in place equals replacing all spans at once |
| SourceEdits.KeptStays | scripts/codegen/idf_wifi_api_map.py:66-67 | a character outside the edits comes out unchanged and on its own line |
| SourceEdits.KeptInOrder | scripts/codegen/idf_wifi_api_map.py:66-67 | characters outside the edits keep their order |
| SourceEdits.LinesKept | scripts/codegen/idf_wifi_api_map.py:30-31 | blanking keeps the number of lines |
| ParserSource.FindAnnotations | scripts/codegen/idf_wifi_api_map.py:43-65 | the annotation scan succeeds exactly if every annotation word has its balanced parentheses, and finds exactly the annotations, in order |
| ParserSource.AnnotationWords | scripts/codegen/idf_wifi_api_map.py:48-51 | which words start an annotation and which may qualify one |
| ParserSource.AnnotationsUnique | scripts/codegen/idf_wifi_api_map.py:43-65 | a text has at most one reading as a sequence of annotations |
| ParserSource.Stuck | scripts/codegen/idf_wifi_api_map.py:52-61 | a word without balanced parentheses leaves the text without any reading |
| FunctionBodies.FindBodies | scripts/codegen/idf_wifi_api_map.py:74-87 | the body scan finds exactly the top-level bodies after a closing parenthesis, balanced input or not |
| SourceRewrite.Rewrite | scripts/codegen/idf_wifi_api_map.py:43-94 | the rewriting in six sweeps and the prelude; it fails exactly when the annotations have no reading |
| SourceRewrite.CharacterStays | scripts/codegen/idf_wifi_api_map.py:66-89 | a character that no sweep replaces comes out unchanged on its own line |
| SourceRewrite.AllLinesStay | scripts/codegen/idf_wifi_api_map.py:66-89 | no sweep adds or loses a line |
| SourceRewrite.RewriteKeepsLines | scripts/codegen/idf_wifi_api_map.py:34-94 | whatever is not replaced is moved down only by the one or two lines of the prelude |
| SourceRewrite.ParseSource | scripts/codegen/idf_wifi_api_map.py:34-94 | the whole of it: directive filter, six sweeps and prelude; it fails exactly when the annotations of the filtered text have no reading |
| SourceRewrite.FilterKeepsText | scripts/codegen/idf_wifi_api_map.py:41-42 | the directive filter keeps the text of a line if and only if the line does not begin with `#` or marks a file |
| SourceRewrite.WordsReplaced | scripts/codegen/idf_wifi_api_map.py:68-73 | the words replaced between the two scans, in their order, and by what |
| SourceRewrite.PreludeSays | scripts/codegen/idf_wifi_api_map.py:90-94 | the lines put in front |
| SourceRewrite.ParserKeepsLines | scripts/codegen/idf_wifi_api_map.py:34-94 | from source to result: whatever neither filter nor sweep replaces stands on its own line plus the lines of the prelude, if and only if no break other than a newline stands before it |
| SourceRewrite.FilterStays | scripts/codegen/idf_wifi_api_map.py:41-42 | the directive filter puts a character on the line that `splitlines` counts it on |
| SourceRewrite.FilterKeepsLine | scripts/codegen/idf_wifi_api_map.py:41-42 | it moves a character down by exactly the breaks other than newlines that stand before it, so the line number is kept if and only if there are none |
| SourceRewrite.FormFeedMovesLines | scripts/codegen/idf_wifi_api_map.py:41-42 | one form feed before a character moves it down a line, although line coordinates are to be kept |
| Coverage.Counts | scripts/codegen/idf_wifi_api_map.py:291-304 | the counters of a row; they fail exactly for an unclassified symbol or a counter beyond 32 bits |
| Coverage.CountsWhereItBelongs | scripts/codegen/idf_wifi_api_map.py:291-304 | a symbol counts in exactly the columns that its own record, or where that is silent the record of its task, puts it in |
| Coverage.RowCountsColumns | scripts/codegen/idf_wifi_api_map.py:291-304 | every field of a row is the number of symbols that belong into its column |
| Coverage.RowConserves | scripts/codegen/idf_wifi_api_map.py:291-304 | dispositions, implementation states and contract states each sum to the symbol count |
| Coverage.GroupsConserve | scripts/codegen/idf_wifi_api_map.py:317-328 | grouped rows add up to the total row, field by field, if and only if the group of every key has a row |
| Coverage.TaskRowsConserve | scripts/codegen/idf_wifi_api_map.py:320-321 | the task rows always do |
| Coverage.ValidatedCounts | scripts/codegen/idf_wifi_api_map.py:210-226 | a mapping passes the classification checks exactly when it names the symbols of the inventory and every row over them can be counted |
| ConfigLeaves.Leaves | scripts/codegen/wifi_config_schema.py:32-61 | it succeeds exactly when every structure reached is sound, none is reached from itself and no dotted name comes twice; it then returns every leaf once, under its dotted name, with its declaration |
| ConfigLeaves.LeafPathSteps | scripts/codegen/wifi_config_schema.py:32-61 | on the way to a leaf every field is of the structure the next one is taken from, and the leaf itself is of none that has fields |
| ConfigLeaves.EmptyStructureIsLeaf | scripts/codegen/wifi_config_schema.py:46-60 | a field of a structure without fields is a leaf |
| ConfigLeaves.NamesDetermineLeaves | scripts/codegen/wifi_config_schema.py:46-60 | where structures have distinct field names, as in C, a dotted name determines its leaf |
| ContextDigest.SortByPath | scripts/hardware_lab_evidence.py:23-26 | the entries in code point order of their paths |
| ContextDigest.BuildContextStream | scripts/hardware_lab_evidence.py:17-37 | what is fed to the hash; refused exactly for a symlink or a length that does not fit its field |
| ContextDigest.BigReads | scripts/hardware_lab_evidence.py:32-37 | lengths are written most significant byte first |
| ContextDigest.Utf8Reads | scripts/hardware_lab_evidence.py:32-37 | path characters are written as their UTF-8 forms |
| ContextDigest.DomainSpells | scripts/hardware_lab_evidence.py:22 | what goes before the records |
| ContextDigest.RecordsOnce | scripts/hardware_lab_evidence.py:32-37 | the records of a stream can be told apart in one way |
| ContextDigest.StreamsAgree | scripts/hardware_lab_evidence.py:17-38 | two listings, in whatever order, give equal streams if and only if their regular files are equal |
| SourceReader.InputFile.Read | scripts/codegen/mquickjs_syntax_check.c:91 | a stream read is short only at the end or at an error |
| SourceReader.Enlarge | scripts/codegen/mquickjs_syntax_check.c:82-89 | the larger buffer keeps what was read |
| SourceReader.ReadSource | scripts/codegen/mquickjs_syntax_check.c:55-102 | it succeeds exactly for a source shorter than the limit that can be read and gets its memory, and returns all of it, NUL terminated |
| SourceReader.AllocationsAre | scripts/codegen/mquickjs_syntax_check.c:57-89 | which buffers are asked for: 4096 bytes, doubled each time the source fills the last one, up to the limit, each with a byte for the NUL |
| SourceReader.EnoughMemory | scripts/codegen/mquickjs_syntax_check.c:68-89 | with memory for every buffer up to the limit only the size decides |

## Left out

- RX decoder: the wording and order of errors; the check that the kind string is known and that the argument is a contiguous buffer; borrowing of the payload views (contents are modelled as values). MAC addresses are six bytes, not formatted text.
- Firmware RX writer: C enums, masks and availability flags are numbers, sequences of bits and options. `DeviceRecordWriter` stores in address order, where the source makes a few stores to its local buffer out of order.
- DeviceWriter.WriteControl: does not model null pointers and the refusal of overlapping input and output, which are distinct in the model.
- DeviceSource.BuildControl: does not model failing allocations and unresolved slots; it takes a row and a metadata snapshot per frame, whose own lengths are those of the slots, as both adapters establish.
- DeviceStreams.CsiSource.Next: does not model a source that has been closed.
- DeviceStreams.MonitorSource.Next: does not model a source that has been closed.
- DeviceTheorems.SendCsi: does not model failing allocations and slots that are gone before the last span; the steps it calls say what happens then.
- DeviceTheorems.SendMonitor: as `DeviceTheorems.SendCsi`, and the retention of sessions and packets.
- DeviceLanguage.SameLanguage: is about the wire encoder; how the adapters fill in metadata from driver state is left out, and they accept less (the CSI adapter, for one, refuses empty CSI).
- Firmware RX sources: retaining and releasing slots, and the script engine that asks for the spans.
- PCAPNG export: the JSON text of comments is an arbitrary function of the values put into it; `boot_id` is a sequence of code points; type errors of arguments.
- Startup: `load_manifest`, path resolution and symbolic links (files are a finite table of texts by name; a missing name is an error), invalid UTF-8, the compile step. File texts hold no carriage return, as `read_text` translates them; names may.
- StartupLines.BundlePreservesMeaning: a run executes lines; a file that leaves a comment or a template literal open across a load line is outside that view.
- Fonts: the BDF and JSON text parsers, row strings, manifest fonts and TrueType rendering; the check of metrics at parse time (`Fonts.Drawable` is stated where the device needs it). On the device: memory allocation, character decoding of strings, and clipping a set pixel to its bitmap.
- Fonts.BuildEqf: requires that every glyph fills the cell of its font, which the glyph constructors of the converter establish.
- BdfGlyphs.ParseBitmapRow: takes the bytes of a row; the hexadecimal text in between is left out.
- C source rewriting: the token and word patterns are given by functions that return matches in order; what pycparser does with the result.
- SourceRewrite.Rewrite: starts after the directive filter; `SourceRewrite.ParseSource` is the whole.
- Coverage: the checks of `validate` other than task, disposition, implementation and contract; reading and formatting the tables; conflicting symbol kinds between variants.
- ConfigLeaves.Leaves: the declaration pattern is given as a match; the result is a list in order of insertion instead of a dictionary.
- ContextDigest.BuildContextStream: SHA-256 itself, directory walking and the check that the directory exists; path names that UTF-8 cannot encode.
- SourceReader.ReadSource: memory that is freed on failure; a read error is permanent once it occurs.
- Runtime modules of the firmware, type declarations, build and flashing scripts, profile merging and the SDK patch registry.
