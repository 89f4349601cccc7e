# Hydranode core, modelled in Dafny

Hydranode is a peer-to-peer engine written in C++. It speaks the eDonkey2000 (ed2k) and BitTorrent protocols, and a user interface or shell talks to it over a small framed core/GUI protocol. This project models the data-handling layer under its networking in Dafny and proves properties of that model. That layer covers:

- **Range algebra** (`hnbase/range.h`, `hnbase/rangelist.h`).
  - `RangeList` keeps inclusive ranges in a multiset ordered by midpoint.
  - Operations: push, remove, merge, erase, the containment queries, the first free gap, and the stream format.
  - Modules `Ranges` and `RangeLists`.
- **Wire encoders and decoders.**
  - Little- and big-endian `getVal`/`putVal` with length-prefixed strings (`Streams`).
  - Hex, Base64, URL encoding and `secondsToString` (`Utils`).
  - ed2k part maps, `ReqChunks`, `DataChunk` and the packet header (`Packets`).
  - Core/GUI frames and the shared-files id change (`CGComm`).
  - BitTorrent bitfields and length-prefixed messages (`BtTorrent`, `BtClient`).
  - The credits.met record with its 64-bit counters split into 32-bit words (`CreditsDb`).
- **State machines and rules.**
  - Download pause/stop/resume and per-chunk source availability (`PartData`).
  - Upload request capping and buffer draining (`ClientExt`).
  - The client feature and version words (`Clients`).
  - File-name reference counts (`MetaData`).
  - Scheduler bandwidth and connection gating (`SchedBase`).
  - Configuration keys with a veto signal (`Config`).
  - The bounded log history and colour stripping (`Log`).
  - Source-exchange timing and ed2k links (`DownloadList`).
  - Shell command dispatch, object selection, argument binding and history (`ShellCommands`), and the shell's quoting tokenizer (`ShellClient`).

**How the code is modelled.** Each C++ source file maps to one Dafny module.

- Code that mutates objects becomes a Dafny class whose methods update fields. Loops stay loops.
- Each such method is specified by pure functions of the old state. The properties the code relies on are proved about those functions as lemmas.
- C++ unsigned arithmetic (`uint32_t`, `uint64_t`, `size_type`) is written out modulo 2^n wherever the code depends on it.
- Exceptions become the `Err` case of a `Result`. `CHECK_THROW` failures carry the failed condition's text.
- Where the code as written differs from what it evidently intends, both versions are modelled; see "Findings". The rest of the model uses the intended version, except the `PartData.PartData` class, which counts sources as `checkAddChunkMap` does as written.

Inputs from outside the core are parameters:

- the clock;
- the answers of signal slots;
- the contents of files;
- the torrent or file a client is attached to;
- FD_SETSIZE.

Wrappers (`wrappers.dfy`) defines `Option` and `Result`.

## Model

| member | source | states |
|---|---|---|
| Ranges.MakeRange | hnbase/range.h:55-58 | the constructor succeeds exactly when begin <= end and keeps both bounds; otherwise CHECK_THROW fails |
| Ranges.Mid | hnbase/range.h:85-89 | the midpoint operator< compares lies inside the range |
| Ranges.CoversFullPoints | hnbase/range.h:227-233 | containsFull(x) holds exactly when every value of x is a value of the range |
| Ranges.Overlaps | hnbase/range.h:198-208 | the three tests of contains(x) (x's begin inside, x's end inside, x covering the range) are true exactly when the two intervals intersect |
| Ranges.OverlapsPoints | hnbase/range.h:189-208 | contains(x) holds exactly when the two ranges share a value (partial overlap counts) |
| Ranges.ApartOf | hnbase/range.h:244-253 | two ranges with a value between them are exactly those that neither overlap nor border (borders: one starts right after the other ends) |
| Ranges.Merge | hnbase/range.h:140-153 | the four adjustments give the hull of both ranges; when they overlap or border, the result holds exactly the values of either |
| Ranges.Erase | hnbase/range.h:167-186 | the tribool outcome: every piece left misses x; a split leaves two apart halves in order; when the range overlaps x the pieces lie inside it and hold exactly its values outside x |
| RangeLists.LowerBound | hnbase/rangelist.h:296-297 | multiset::lower_bound: every range before the result has a smaller midpoint, the one at it does not |
| RangeLists.UpperBound | hnbase/rangelist.h:145 | the position multiset::insert uses: midpoints before it are not larger, the one at it is larger |
| RangeLists.InsertSorted | hnbase/rangelist.h:145 | inserting keeps the ranges in midpoint order |
| RangeLists.InsertMultiset | hnbase/rangelist.h:145 | insert adds exactly one copy of the range and nothing else |
| RangeLists.InsertCovered | hnbase/rangelist.h:145 | after insert the covered values are the old ones plus the range's values |
| RangeLists.InsertNormal | hnbase/rangelist.h:187 | inserting a range apart from every stored one keeps a merged list strictly separated |
| RangeLists.RemoveAtSorted | hnbase/rangelist.h:159 | erasing one element keeps midpoint order |
| RangeLists.RemoveAtNormal | hnbase/rangelist.h:159 | erasing one element keeps a merged list strictly separated |
| RangeLists.RemoveAtMultiset | hnbase/rangelist.h:159 | erasing an element removes exactly that one copy |
| RangeLists.RemoveAtCovered | hnbase/rangelist.h:159 | the covered values before an erase are those after it plus the erased range's |
| RangeLists.FindExact | hnbase/rangelist.h:141-142 | with distinct midpoints multiset::find lands on the stored range equal to r |
| RangeLists.LowerBoundOverlap | hnbase/rangelist.h:296-305 | on a merged list some range overlaps r exactly when the range at the lower bound or the one before it does |
| RangeLists.FirstOverlap | hnbase/rangelist.h:299-300 | stepping back stops at the first range that misses r: no earlier range overlaps r |
| RangeLists.LowerBoundBorder | hnbase/rangelist.h:313-327 | on a merged list none of whose ranges overlaps r, a bordering range if any sits at the lower bound or just before it |
| RangeLists.CoverIsOnlyOverlap | hnbase/rangelist.h:276-284 | on a merged list a range that covers r is the only one overlapping r |
| RangeLists.FirstFreeGap | hnbase/rangelist.h:228-251 | the search as written returns the first free gap (starting at the lowest uncovered value, overlapping nothing); it is at most limit long except when the list starts at 0 and has a second range |
| RangeLists.FirstFreeExceedsLimit | hnbase/rangelist.h:243-245 | as written, {[0,9],[30,40]} with limit 10 gives [10,29], twenty values |
| RangeLists.ClipEnd | hnbase/rangelist.h:237-249 | the corrected curPos + limit - 1: it stays below the size_type bound, equals the sum when the sum fits, and for a limit of at least 1 lies from curPos to curPos + limit - 1 |
| RangeLists.FirstFreeClipped | hnbase/rangelist.h:228-251 | the corrected search: on a list of size_type ranges a found gap is never longer than limit, whichever branch produced it |
| RangeLists.FirstFreeClippedGap | hnbase/rangelist.h:228-251 | the corrected search returns the first free gap and never more than limit values, for every limit size_type holds, the default included |
| RangeLists.FirstFreeDefaultThrows | hnbase/rangelist.h:228-241 | as written, with the default limit and the single range [0,9], curPos + limit - 1 wraps below curPos and the Range check throws; the corrected search returns [10, max] |
| RangeLists.EncodeRangesLength | hnbase/rangelist.h:127 | the u16 length counts 2*sizeof(size_type)+3 bytes per range record |
| RangeLists.RangeRoundTrip | hnbase/range.h:68-72 | a range written by operator<< (OP_RANGE, u16 2*sizeof, begin, end) reads back unchanged with the rest of the stream untouched |
| RangeLists.RangesRoundTrip | hnbase/rangelist.h:117-121 | cnt written ranges read back in the same order |
| RangeLists.BuildOfSorted | hnbase/rangelist.h:120 | inserting ranges that arrive in midpoint order rebuilds the same sequence |
| RangeLists.ListRoundTrip | hnbase/rangelist.h:114-131 | writing a list and reading it back (count, then ranges) gives the same ranges, and loading rebuilds the same multiset |
| RangeLists.RangeList.constructor | hnbase/rangelist.h:108 | a new list is empty |
| RangeLists.RangeList.Push | hnbase/rangelist.h:140-147 | returns false and changes nothing when find() hits an equal range; else inserts r and returns true; with distinct midpoints, true exactly when r was absent |
| RangeLists.RangeList.Remove | hnbase/rangelist.h:156-163 | erases one copy of r and returns true only when find() hits an equal range; otherwise changes nothing; a merged list stays merged |
| RangeLists.RangeList.GetContains | hnbase/rangelist.h:296-305 | the result, if not end, overlaps r; on a merged list it is not end exactly when some range overlaps r |
| RangeLists.RangeList.Contains | hnbase/rangelist.h:266-268 | true only if some stored range overlaps r; on a merged list exactly when r shares a value with the list |
| RangeLists.RangeList.ContainsFull | hnbase/rangelist.h:276-284 | true only if some stored range covers r; on a merged list exactly then |
| RangeLists.RangeList.GetBorders | hnbase/rangelist.h:313-327 | the result, if not end, borders r; exact on a merged list none of whose ranges overlaps r |
| RangeLists.RangeList.GetFirstFree | hnbase/rangelist.h:228-251 | on a merged list with a free value and any limit from 1 to the largest size_type value, the first free gap, at most limit values long |
| RangeLists.RangeList.Merge | hnbase/rangelist.h:174-188 | a merged list stays merged (no two ranges overlap or border) and its values become the old ones plus r's |
| RangeLists.RangeList.AbsorbOverlapping | hnbase/rangelist.h:175-180 | the first loop leaves no range overlapping the grown r and loses no value |
| RangeLists.RangeList.AbsorbBordering | hnbase/rangelist.h:181-186 | the second loop leaves every range apart from the grown r and loses no value |
| RangeLists.RangeList.Erase | hnbase/rangelist.h:195-209 | a merged list stays merged, loses exactly the values of r, and no range overlaps r afterwards, so contains(r) is false |
| RangeLists.RangeList.Write | hnbase/rangelist.h:125-131 | the bytes written are OP_RANGELIST, the u16 length, the u32 count and each range's record in order |
| RangeLists.RangeList.Load | hnbase/rangelist.h:114-122 | succeeds exactly when the stream holds a count and that many well-formed ranges; the list is the multiset built from them and the stream is left after them |
| RangeLists.LoadRanges | hnbase/rangelist.h:117-121 | collects the ranges read in turn, inserted in midpoint order; fails exactly when a read fails |
| RangeLists.ReadRange | hnbase/rangelist.h:118-120 | checks the OP_RANGE byte and the u16 length, then reads a range as the stream-format reader defines it |
| Streams.ReadUint | hnbase/utils.h:296-304 | getVal<T> succeeds exactly when sizeof(T) bytes are left, gives a value that fits in T and leaves the bytes after them; otherwise ReadError |
| Streams.ReadFixed | hnbase/utils.h:334-343 | getVal<std::string>(i, len) succeeds exactly when len bytes are left and splits the stream there |
| Streams.ReadString | hnbase/utils.h:322-332 | getVal<std::string> succeeds exactly when a u16 length and that many bytes follow; the string is those bytes |
| Streams.PutStringBytes | hnbase/utils.h:370-374 | putVal<std::string> writes a two-byte length and then every byte of the string |
| Streams.Skip | hncore/ed2k/creditsdb.cpp:71 | seekg(n, cur) drops exactly n bytes, or everything when fewer are left |
| Streams.LERoundTrip | hnbase/utils.h:296-304 | reading n little-endian bytes gives back the value they were made from |
| Streams.LEOfFromLE | hnbase/utils.h:296-304 | every byte string is the little-endian form of the value it reads as |
| Streams.BERoundTrip | hnbase/utils.h:97-157 | with the byte swap of a big-endian stream the value also survives the trip |
| Streams.BEOfFromBE | hnbase/utils.h:97-157 | every byte string is the big-endian form of the value it reads as |
| Streams.EncodeRoundTrip | hnbase/utils.h:355-359 | putVal<T> then getVal<T> gives the value back, on either byte order |
| Streams.ReadPutLE | hnbase/utils.h:296-304 | getVal<T> reads what putVal<T> wrote and leaves the rest of the stream |
| Streams.StringRoundTrip | hnbase/utils.h:322-332 | a string under 64 KiB written by putVal reads back unchanged |
| Streams.StringLengthWraps | hnbase/utils.h:372 | a 64 KiB string's u16 length wraps to 0, so it reads back empty and its bytes stay unread |
| Streams.InStream.constructor | hnbase/utils.h:296-304 | a new stream has all its bytes unread |
| Streams.InStream.GetVal | hnbase/utils.h:296-304 | takes the value ReadUint gives and advances past it; a short read throws ReadError and leaves nothing |
| Streams.InStream.GetFixed | hnbase/utils.h:334-343 | takes len bytes and advances, or throws ReadError |
| Streams.InStream.GetString | hnbase/utils.h:322-332 | takes a u16-prefixed string and advances, or throws ReadError |
| Streams.InStream.SeekForward | hncore/ed2k/creditsdb.cpp:71 | the unread bytes become Skip of the old ones |
| Streams.OutStream.constructor | hnbase/utils.h:355-359 | a new output stream holds no bytes |
| Streams.OutStream.PutVal | hnbase/utils.h:355-359 | appends the value converted to T in the stream's byte order |
| Streams.OutStream.PutFixed | hnbase/utils.h:376-379 | appends the first len bytes of the string |
| Streams.OutStream.PutString | hnbase/utils.h:370-374 | appends the length-prefixed string |
| Streams.FirstFalse | hnbase/utils.h:580-583 | how many answers were yes before the first no: the ones before are yes and the one at it is no |
| Streams.BoolCheck | hnbase/utils.h:577-586 | true exactly when every answer is yes (also for no answers); stops after the first no, so the slots run are counted |
| Streams.Ones | hncore/bt/torrent.cpp:336 | n flags, every one set: the chunk status of a seed and the mask of a full source |
| Utils.Decimal | hnbase/utils.cpp:321 | `%d` and `std::dec` output: at least one character, all decimal digits |
| Utils.DecimalValue | hnbase/utils.cpp:321 | the decimal text reads back as the number it was printed from |
| Utils.DecimalInjective | hnbase/utils.cpp:321 | different numbers print differently |
| Utils.HexNumber | hnbase/utils.cpp:137 | `std::hex` output: at least one character, all lowercase hex digits |
| Utils.HexNumberValue | hnbase/utils.cpp:137 | the hex text reads back as the number it was printed from |
| Utils.Hex2Dec | hnbase/utils.cpp:117-128 | hex2dec accepts exactly the digits, 'A'-'F', 'a'-'f' and the control codes below 16 ('G' and 'g' become 16 and are rejected), gives a value of at most 15, and otherwise throws |
| Utils.Hex2DecOfDigit | hnbase/utils.cpp:117-120 | every digit decode writes, and every upper-case digit, reads back as its value |
| Utils.PaddedHex | hnbase/utils.cpp:133-137 | the "0" written before a byte below 16 makes every byte print as exactly two digits |
| Utils.HexOfAt | hnbase/utils.cpp:131-142 | byte i of the input is digits 2i and 2i+1 of the output |
| Utils.Decode | hnbase/utils.cpp:131-142 | decode's loop returns each byte as two lowercase hex digits in order, so the size check length*2 holds |
| Utils.Unhex | hnbase/utils.cpp:145-153 | encode succeeds only on an even number of digits and gives half as many bytes |
| Utils.UnhexAt | hnbase/utils.cpp:147-150 | byte i of the result is 16 times digit 2i plus digit 2i+1, both of which hex2dec accepts |
| Utils.UnhexOfHex | hnbase/utils.cpp:131-153 | encode(decode(x)) == x |
| Utils.Encode | hnbase/utils.cpp:145-153 | encode's loop gives the bytes Unhex describes: the first bad digit throws, and an odd length fails the final size check |
| Utils.Sextet | hnbase/utils.cpp:262-265 | the value tab[c] of decode64 is below 64 and is the position of c in Base64Table |
| Utils.BuildTable | hnbase/utils.cpp:262-265 | after the loop tab maps each table character to its position and every other character to 0 |
| Utils.EncodeGroup | hnbase/utils.cpp:239-245 | one round of encode64's loop appends the four characters for bytes i..i+2 and a line break after every 19th group |
| Utils.Encode64 | hnbase/utils.cpp:233-256 | the corrected encode64 returns the Base64 text, padded with '=' inside the last group |
| Utils.Encode64AsWrittenHighByte | hnbase/utils.cpp:239-243 | as written a byte of 0x80 or more is a negative char and indexes before Base64Table; the corrected encoder gives "gA==" for it |
| Utils.Encode64AsWrittenLosesLineBreak | hnbase/utils.cpp:243-253 | as written, for 57k+55 or 57k+56 bytes the final '=' lands on the line break that follows the last group, which the corrected encoder keeps |
| Utils.AsWrittenPadsEnd | hnbase/utils.cpp:249-250 | as written the last character is '=' whenever one or two bytes are left over |
| Utils.DecodeGroup | hnbase/utils.cpp:271-273 | one round of decode64's loop appends the three bytes of the next four characters |
| Utils.Decode64 | hnbase/utils.cpp:258-281 | decode64's loops compute Base64Decode: strip CR and LF, decode the groups, drop one byte per '=' |
| Utils.Base64RoundTrip | hnbase/utils.cpp:233-281 | decode64(encode64(x)) == x for the corrected encoder |
| Utils.Decode64IgnoresLineBreak | hnbase/utils.cpp:267-268 | a CR or LF anywhere in the input does not change the result |
| Utils.DecodeOfStripped | hnbase/utils.cpp:267-278 | the input only matters through its text without CR and LF and its number of '=' |
| Utils.Decode64Length | hnbase/utils.cpp:270-278 | three bytes per started group, minus one per '=' (when fewer than 256 and not more than the bytes) |
| Utils.UrlByte | hnbase/utils.cpp:286-311 | letters and digits, and the ten delimiters unless encodeDelims is set, pass through; any other byte becomes '%' and its two lowercase hex digits |
| Utils.UrlEncode | hnbase/utils.cpp:283-313 | the loop returns every input byte encoded by UrlByte, in order |
| Utils.UrlRoundTrip | hnbase/utils.cpp:283-313 | decoding the escapes of urlEncode's output gives the input back, with or without encodeDelims |
| Utils.UrlAlnumUnchanged | hnbase/utils.cpp:286-291 | alphanumeric text is returned as it is |
| Utils.TimePartsCount | hnbase/utils.cpp:315-352 | at most trunc groups are printed |
| Utils.TimePartsOrdered | hnbase/utils.cpp:318-350 | the groups come in strictly decreasing unit order: years, months, days, hours, minutes, seconds |
| Utils.TimePartsBounded | hnbase/utils.cpp:318-350 | each printed count is at least one and below the next larger unit |
| Utils.TimePartsEmpty | hnbase/utils.cpp:318-350 | the text is empty exactly when trunc is zero or sec is zero |
| Utils.TimePartsValue | hnbase/utils.cpp:318-350 | the groups never add up to more than sec, and with trunc of six or more they add up to it exactly |
| Utils.RenderSpaces | hnbase/utils.cpp:321-349 | the text has one space per group |
| Utils.EmitGroup | hnbase/utils.cpp:318-347 | one dividing block appends its group, if any, and leaves the correct remainder and trunc for the rest |
| Utils.SecondsGroup | hnbase/utils.cpp:348-350 | the last block prints the seconds left, if any and if trunc allows |
| Utils.SecondsToString | hnbase/utils.cpp:315-352 | the corrected secondsToString returns the rendering of the groups TimeParts describes |
| Utils.TimePartsAsWrittenAgrees | hnbase/utils.cpp:317-347 | below 2^32 seconds the 32-bit counters as written print the same groups as the corrected version |
| Utils.SecondsYearWraps | hnbase/utils.cpp:317-322 | as written, 4354560000 seconds with trunc 2 prints "140y 1657mo " because year * 31104000 wraps in 32 bits; the intended text is "140y " |
| Packets.PackByte | hncore/ed2k/packets.cpp:90-97 | or-ing each flag shifted by its index, over up to eight flags, gives a byte below 2^n |
| Packets.PackByteBits | hncore/ed2k/packets.cpp:90-97 | bit i of the packed byte is flag i |
| Packets.PackByteHigh | hncore/ed2k/packets.cpp:90-97 | the bits past the last flag are zero |
| Packets.UnpackPack | hncore/ed2k/packets.cpp:109-112 | std::bitset's tmp[i] for i below n reads back the n flags packed into the byte |
| Packets.PartMapBodyLength | hncore/ed2k/packets.cpp:87-101 | one byte per started group of eight flags |
| Packets.PartMapLayout | hncore/ed2k/packets.cpp:87-101 | bit i of body byte k is flag 8k+i; bits past the last flag are zero |
| Packets.WritePartMap | hncore/ed2k/packets.cpp:87-101 | the corrected writePartMap appends the u16 count and then each group's byte exactly once |
| Packets.PackGroup | hncore/ed2k/packets.cpp:90-97 | the inner loop packs min(8, remaining) flags from index i into one byte |
| Packets.ReadGroups | hncore/ed2k/packets.cpp:107-113 | on success exactly cnt flags are read, min(cnt, 8) from each byte |
| Packets.ParsePartMap | hncore/ed2k/packets.cpp:105-114 | on success the flags read are as many as the u16 count says |
| Packets.ReadPartMap | hncore/ed2k/packets.cpp:105-114 | readPartMap's loop gives the flags ParsePartMap describes and advances past them; a short stream throws ReadError |
| Packets.PartMapRoundTrip | hncore/ed2k/packets.cpp:87-114 | readPartMap reads back what the corrected writePartMap writes and leaves what follows unread |
| Packets.BodyAsWrittenExtra | hncore/ed2k/packets.cpp:92-98 | as written, when the count is not a multiple of eight the last byte is written twice |
| Packets.PartMapAsWrittenLeavesByte | hncore/ed2k/packets.cpp:87-114 | as written, readPartMap still reads the flags but leaves the repeated byte in front of the next field |
| Packets.PartMapAsWrittenShiftsNextField | hncore/ed2k/packets.cpp:87-114 | as written, a one-flag map followed by the u16 5 makes the next read give 1281 instead of 5 |
| Packets.MakePacket | hncore/ed2k/packets.cpp:140-185 | an uncompressed frame: the protocol byte, the u32 size, then the payload unchanged |
| Packets.PacketRoundTrip | hncore/ed2k/packets.cpp:166-168 | reading a frame's size field and payload gives back the protocol, the payload and what follows |
| Packets.NewReqChunks | hncore/ed2k/packets.cpp:1061-1068 | the constructor succeeds exactly when the hash is set and one to three ranges are given, and keeps them |
| Packets.ReqChunksPayload | hncore/ed2k/packets.cpp:1093-1118 | CHECK_THROW(m_reqChunks.size()) fails exactly for an empty request; otherwise opcode, 16-byte hash and six u32 fields, 41 bytes |
| Packets.Slot | hncore/ed2k/packets.cpp:1079-1090 | a zero end is an unused slot; otherwise the inclusive range [begin, end-1], whose constructor throws when begin > end-1 |
| Packets.ParseReqChunks | hncore/ed2k/packets.cpp:1069-1091 | on success a 16-byte hash and at most three ranges |
| Packets.UsedSlot | hncore/ed2k/packets.cpp:1079-1118 | a used slot's end plus one reads back as exactly that range |
| Packets.ReqChunksRoundTrip | hncore/ed2k/packets.cpp:1069-1118 | a request of one to three ranges whose exclusive ends fit 32 bits reads back unchanged |
| Packets.ReqChunksEndWraps | hncore/ed2k/packets.cpp:1105 | a range ending at 2^32-1 has its exclusive end wrap to zero and is read back as no range |
| Packets.NewDataChunk | hncore/ed2k/packets.cpp:1124-1132 | the constructor succeeds exactly when end > begin, the data is end-begin bytes and the hash is set |
| Packets.ParseDataChunk | hncore/ed2k/packets.cpp:1133-1138 | on success the data read is m_end - m_begin bytes, computed in 32 bits |
| Packets.DataChunkRoundTrip | hncore/ed2k/packets.cpp:1124-1147 | a chunk the constructor accepts reads back unchanged |
| Packets.DataChunkReversedFails | hncore/ed2k/packets.cpp:1133-1138 | a header with end below begin asks for 2^32-(begin-end) bytes and fails on a shorter packet |
| CGComm.FramesRest | hncgcomm/cgcomm.cpp:64-99 | what parse keeps is a suffix of the buffer that holds no complete frame |
| CGComm.FramesKnown | hncgcomm/cgcomm.cpp:73-97 | only frames for a registered subsystem are handed on; the others are dropped |
| CGComm.FramesSplit | hncgcomm/cgcomm.cpp:64-65 | parsing a + b hands on a's frames and then those of a's leftover followed by b |
| CGComm.Main.constructor | hncgcomm/cgcomm.cpp:57-58 | a new dispatcher has an empty buffer, no subsystems and nothing dispatched |
| CGComm.Main.AddSubSys | hncgcomm/cgcomm.cpp:101-103 | registers the subsystem under its code unless that subsystem is registered already (the unique identity index); the registered codes gain exactly its code; nothing else changes |
| CGComm.Main.DelSubSys | hncgcomm/cgcomm.cpp:105-107 | erases that one subsystem; others registered under the same code stay; nothing else changes |
| CGComm.ValuesOfAdded | hncgcomm/cgcomm.cpp:38-46 | registering a new subsystem adds exactly its code to the codes that parse dispatches |
| CGComm.DelKeepsSharedCode | hncgcomm/cgcomm.cpp:105-107 | with two subsystems under one code, deleting one keeps the code registered, so its frames still reach the other |
| CGComm.Main.Parse | hncgcomm/cgcomm.cpp:64-99 | the corrected parse appends the data, hands on, in order, every complete frame whose code some registered subsystem has and keeps the incomplete tail |
| CGComm.SendPacket | hncgcomm/cgcomm.cpp:131-137 | the frame is the five header bytes plus the data |
| CGComm.ParseSendPacket | hncgcomm/cgcomm.cpp:64-137 | a frame built by sendPacket is complete, is handed on exactly when its subsystem is registered, and what follows it is parsed as before |
| CGComm.ForKnown | hncgcomm/cgcomm.cpp:73-74 | the frames for registered subsystems, in order |
| CGComm.ParseSent | hncgcomm/cgcomm.cpp:64-137 | frames sent one after another are all handed on, in order, to the registered subsystems, and nothing is kept |
| CGComm.ParseAnyCut | hncgcomm/cgcomm.cpp:64-99 | however the sent bytes are cut into two chunks, feeding them in turn hands on the same frames |
| CGComm.HeaderOnlyFrameWaits | hncgcomm/cgcomm.cpp:66 | as written the loop needs six bytes, so a five-byte frame with an empty payload is not handed on; the corrected parse hands it on |
| CGComm.WrappedSizeSpins | hncgcomm/cgcomm.cpp:69-97 | as written a size of 2^32-5 makes size + 5 wrap to 0: nothing is erased and the loop never ends; the corrected parse waits for the payload |
| CGComm.SharedFilesList.constructor | hncgcomm/cgcomm.cpp:641-642 | a new list is empty |
| CGComm.SharedFilesList.Remove | hncgcomm/cgcomm.cpp:659-667 | OC_REMOVE drops exactly the entry with that id, if any, and keeps every entry under its own id |
| CGComm.SharedFilesList.ChangeId | hncgcomm/cgcomm.cpp:668-678 | OC_CHANGEID moves an existing entry from oldId to newId with its id changed, does nothing otherwise, and keeps every entry under its own id |
| CGComm.SharedFilesList.HandleIds | hncgcomm/cgcomm.cpp:657-678 | the ids are read as u32 values; a packet too short throws and leaves the list alone; otherwise the list is updated as OC_REMOVE or OC_CHANGEID says |
| CGComm.ChangedIdEffect | hncgcomm/cgcomm.cpp:668-678 | after OC_CHANGEID the entry is filed under newId with its name, oldId is gone, and every other id is untouched |
| CGComm.ChangedIdValid | hncgcomm/cgcomm.cpp:668-678 | rekeying keeps every entry filed under its own id |
| ShellClient.Lex | hncore/hnsh/shellclient.cpp:62-86 | the reading loop consumes at most what is left, and at least one character when any is left |
| ShellClient.Spaces | hncore/hnsh/shellclient.cpp:58-60 | the leading spaces skipped: all spaces, and the character after them is not one |
| ShellClient.TokenAt | hncore/hnsh/shellclient.cpp:46-89 | one call consumes at least one character and never runs past the end |
| ShellClient.NextToken | hncore/hnsh/shellclient.cpp:46-89 | command_tokenizer returns false with an empty token exactly at the end of input; otherwise it skips the spaces and reads the token TokenAt describes |
| ShellClient.ReadToken | hncore/hnsh/shellclient.cpp:62-86 | the loop with m_unescapeChar computes Lex, token and end position |
| ShellClient.LexUnfold | hncore/hnsh/shellclient.cpp:63-86 | one step of the loop: a backslash copies the next character (or ends the input), the closing character ends the token, a quote outside quotes opens a quoted part, anything else is copied |
| ShellClient.NoTokenAtEnd | hncore/hnsh/shellclient.cpp:53-55 | at the end of input no token is read |
| ShellClient.LexPlain | hncore/hnsh/shellclient.cpp:62-86 | a word of plain characters is read as it is, and the space after it ends it and is consumed |
| ShellClient.LexInQuotes | hncore/hnsh/shellclient.cpp:74-76 | inside quotes, spaces and the other quote are kept and only the same quote ends the token |
| ShellClient.LexQuoted | hncore/hnsh/shellclient.cpp:77-81 | a quoted word is read without its quotes |
| ShellClient.LexEscaped | hncore/hnsh/shellclient.cpp:63-72 | a word with every character escaped reads back as the word, whatever its characters |
| ShellClient.TokensOfSpaced | hncore/hnsh/shellclient.cpp:46-89 | plain words each followed by one space tokenize to exactly those words |
| ShellClient.TrailingSpacesToken | hncore/hnsh/shellclient.cpp:58-89 | "a  " gives "a" and then an empty token, since the skipped space is not the end of input |
| ShellCommands.Matches | hncore/hnsh/shellcommands.cpp:160-167 | the names that start with the word, and only those |
| ShellCommands.MatchesAt | hncore/hnsh/shellcommands.cpp:160-167 | the matches of a list split around any position |
| ShellCommands.ResolveExact | hncore/hnsh/shellcommands.cpp:169-172 | the scan stops at the exact name when at most one abbreviation came before it |
| ShellCommands.ResolveSecond | hncore/hnsh/shellcommands.cpp:173-179 | a second abbreviation before the exact name makes the word ambiguous, naming the first two |
| ShellCommands.FindCommand | hncore/hnsh/shellcommands.cpp:158-186 | the lookup loop gives the outcome Resolve defines on the matches in order |
| ShellCommands.ExactFirst | hncore/hnsh/shellcommands.cpp:158-172 | in the sorted command map an exact name comes before every longer name it abbreviates |
| ShellCommands.CommandLookup | hncore/hnsh/shellcommands.cpp:158-186 | over the sorted command map an exact name always wins; else one match is taken, two or more are "Ambigious command", none is "command not found" |
| ShellCommands.OperationOrderMatters | hncore/hnsh/shellcommands.cpp:1999-2021 | over an object's unsorted operations two abbreviations listed before the exact name hide it; listed after, the exact name wins |
| ShellCommands.LookupError | hncore/hnsh/shellcommands.cpp:175-186 | the error text for an ambiguous word names the two candidates; for no match it is the word and ": command not found" |
| ShellCommands.ExpandCommand | hncore/hnsh/shellcommands.cpp:199-204 | the rebuilt line is the full command name and every argument, each followed by a space |
| ShellCommands.ExpandedPlain | hncore/hnsh/shellcommands.cpp:199-204 | with plain words the rebuilt line tokenizes back to the full name and the arguments |
| ShellCommands.ExpandSplitsQuoted | hncore/hnsh/shellcommands.cpp:199-204 | as written a quoted argument with a space is one token before the rebuild and two after it |
| ShellCommands.QuotedArgument | hncore/hnsh/shellclient.cpp:74-81 | a name, a space and a double-quoted argument are two tokens |
| ShellCommands.TokensOfEscaped | hncore/hnsh/shellcommands.cpp:199-204 | rebuilding with every argument character escaped gives back exactly the tokens |
| ShellCommands.ExpandEscaped | hncore/hnsh/shellcommands.cpp:199-204 | the corrected rebuild: the line tokenizes back to the full name and the original arguments, spaces included |
| ShellCommands.Find | hncore/hnsh/shellcommands.cpp:2050 | std::string::find: the first index of c, or the length for npos |
| ShellCommands.NamedArgRoundTrip | hncore/hnsh/shellcommands.cpp:2050-2060 | the corrected reading: "--n=v" binds name n to value v, and "--n" binds n to "1" |
| ShellCommands.Binding | hncore/hnsh/shellcommands.cpp:2045-2071 | an extra positional argument throws "invalid argument" |
| ShellCommands.BindArgs | hncore/hnsh/shellcommands.cpp:2045-2081 | the binding loops give the arguments Bound describes, or the error it names |
| ShellCommands.JoinNames | hncore/hnsh/shellcommands.cpp:2072-2076 | the missing names, each followed by a space |
| ShellCommands.PositionalBinding | hncore/hnsh/shellcommands.cpp:2062-2068 | plain values bind to the required names in order; one value too many throws "invalid argument" |
| ShellCommands.PositionalBound | hncore/hnsh/shellcommands.cpp:2062-2081 | too many values is "invalid argument", too few is "Missing required argument(s): " and the names left, exactly enough binds each in order |
| ShellCommands.NamedDoesNotFill | hncore/hnsh/shellcommands.cpp:2053-2081 | a named argument does not fill a required one of the same name, which is then reported missing |
| ShellCommands.NamedArgAsWrittenShiftsAll | hncore/hnsh/shellcommands.cpp:2053-2060 | as written "--n=v" binds the name n + "=" + v's first character to the rest of v |
| ShellCommands.NamedArgAsWrittenShifts | hncore/hnsh/shellcommands.cpp:2053-2060 | as written "--name=value" binds "name=v" to "alue", where name "name" and value "value" were meant |
| ShellCommands.NamedArgAsWrittenThrows | hncore/hnsh/shellcommands.cpp:2059 | as written "--a=" throws out_of_range from substr(pos+2) |
| ShellCommands.SplitOn | hncore/hnsh/shellcommands.cpp:2104 | boost::split gives at least one piece |
| ShellCommands.ParseNumber | hncore/hnsh/shellcommands.cpp:2121 | lexical_cast<uint32_t> accepts only decimal digits with a value below 2^32 |
| ShellCommands.Interval | hncore/hnsh/shellcommands.cpp:2115-2118 | every integer from lo to hi, ascending |
| ShellCommands.PushInterval | hncore/hnsh/shellcommands.cpp:2115-2118 | the `while (first++ != last)` loop pushes first..last |
| ShellCommands.SelectPiece | hncore/hnsh/shellcommands.cpp:2110-2126 | one round of the loop appends the piece's objects, or fails for a piece that is neither a range nor a number |
| ShellCommands.SelectObjects | hncore/hnsh/shellcommands.cpp:2097-2130 | selectObjects returns the objects of the comma-separated pieces in order, or throws "Invalid object selection sequence." |
| ShellCommands.SelectedErrPersists | hncore/hnsh/shellcommands.cpp:2125 | once one piece fails the whole selection fails |
| ShellCommands.SelectionFails | hncore/hnsh/shellcommands.cpp:2110-2126 | the selection fails exactly when some piece is neither a number nor a range, with that message |
| ShellCommands.RangeOfDecimals | hncore/hnsh/shellcommands.cpp:2106-2108 | "a-b" written in decimal parses as the range a, b |
| ShellCommands.PieceOfRange | hncore/hnsh/shellcommands.cpp:2111-2118 | a range piece selects the interval between its ends, swapped when reversed |
| ShellCommands.RangeSelection | hncore/hnsh/shellcommands.cpp:2111-2119 | "a-b" selects every integer between a and b inclusive, ascending, in either order |
| ShellCommands.NumberSelection | hncore/hnsh/shellcommands.cpp:2120-2122 | a single number selects just that object |
| ShellCommands.Choose | hncore/hnsh/shellcommands.cpp:683-692 | the chosen downloads exist and are exactly the ones the indices name; otherwise the first index without a download |
| ShellCommands.ToCancel | hncore/hnsh/shellcommands.cpp:683-694 | the collecting loop gives the choice Choose defines, stopping at the first missing download |
| ShellCommands.CancelNeedsConfirmation | hncore/hnsh/shellcommands.cpp:695-708 | downloads are cancelled only when the same set was asked to confirm by the previous cancel; asking to confirm and re-entering the same selection cancels |
| ShellCommands.Shell.constructor | hncore/hnsh/shellcommands.cpp:59-61 | a new shell has no pending cancel, no history, and its cursor at the end |
| ShellCommands.Shell.Dispatch | hncore/hnsh/shellcommands.cpp:147-186 | the current object's operations are tried first, then the command map; the history cursor is reset to the end |
| ShellCommands.Shell.CommandDone | hncore/hnsh/shellcommands.cpp:206-212 | after a handler succeeds every command but cancel forgets the pending cancel |
| ShellCommands.Shell.CancelDownload | hncore/hnsh/shellcommands.cpp:669-713 | no argument prints the syntax and forgets the pending cancel; otherwise the step CancelStep describes, cancelling only on confirmation |
| ShellCommands.Shell.CancelSelected | hncore/hnsh/shellcommands.cpp:676-708 | with the selection read, a missing download is reported, a new set of downloads is remembered and asked to confirm, and the same set entered again is cancelled and forgotten |
| ShellCommands.Shell.OnDestroy | hncore/hnsh/shellcommands.cpp:2086-2095 | a destroyed download is removed from every listing slot and the pending cancel is dropped |
| ShellCommands.Shell.AddCommand | hncore/hnsh/shellcommands.h:96-98 | the command is appended to the history |
| ShellCommands.Shell.GetPrevCommand | hncore/hnsh/shellcommands.cpp:225-233 | an empty history gives ""; otherwise one step back, staying on the first entry |
| ShellCommands.Shell.GetNextCommand | hncore/hnsh/shellcommands.cpp:235-246 | an empty history or a cursor at the end gives ""; otherwise one step forward, and "" once past the last entry |
| PartData.ChunkCount | hncore/partdata.cpp:797-799 | no chunks exactly for an empty file |
| PartData.ChunkCountBounds | hncore/partdata.cpp:797-799 | the chunks cover the file and the last one starts inside it |
| PartData.ChunkCountUnique | hncore/partdata.cpp:797-799 | the count is the only n with (n-1)*cs < size <= n*cs, that is ceil(size/cs) |
| PartData.ExpectedMask | hncore/partdata.cpp:601-605 | the mask length addSourceMask accepts: the chunk count, plus one for an ed2k file that is a whole number of parts |
| PartData.Added | hncore/partdata.cpp:616-621 | one count per chunk |
| PartData.Underflow | hncore/partdata.cpp:660-665 | the first chunk the mask marks whose count is already zero; none before it |
| PartData.AddMask | hncore/partdata.cpp:616-621 | every chunk's availability goes up by one exactly where the mask is set |
| PartData.ReleaseMask | hncore/partdata.cpp:657-667 | the loop lowers the marked counts and succeeds exactly when no marked count is zero |
| PartData.AddThenRelease | hncore/partdata.cpp:590-669 | removing a mask just added never underflows and restores the counts |
| PartData.ReleaseStopsAtUnderflow | hncore/partdata.cpp:660-665 | the CHECK_THROW fires at the first marked zero count; the counts from there on are untouched |
| PartData.Pause | hncore/partdata.cpp:1560-1566 | pause sets paused and clears stopped, does nothing when already paused |
| PartData.Stop | hncore/partdata.cpp:1568-1574 | stop sets stopped and clears paused, does nothing when already stopped |
| PartData.Resume | hncore/partdata.cpp:1576-1583 | resume clears paused, stopped and autoPaused, does nothing when running |
| PartData.NoticeIffChange | hncore/partdata.cpp:1560-1583 | each operation changes the state exactly when it emits its event |
| PartData.RunIdempotent | hncore/partdata.cpp:1560-1583 | pause, stop and resume are idempotent |
| PartData.AutoPause | hncore/partdata.h:609 | autoPause leaves the file paused and marked auto-paused |
| PartData.AutoPauseResume | hncore/partdata.cpp:1596-1600 | resume after an auto-pause leaves the file running with no flag set |
| PartData.Cleaned | hncore/partdata.cpp:1648-1663 | the cleaned name has none of the nine forbidden characters and is no longer |
| PartData.CleanedKeeps | hncore/partdata.cpp:1648-1663 | a name is unchanged exactly when it has no forbidden character |
| PartData.CleanedAppend | hncore/partdata.cpp:1648-1663 | cleaning works character by character, so the other characters keep their order |
| PartData.CleanName | hncore/partdata.cpp:1649-1661 | the erase loop with its `--i` step gives Cleaned of the name |
| PartData.TotalAppend | hncore/partdata.cpp:1639-1646 | the buffered amount of two parts of the buffer is their sum |
| PartData.PartData.constructor | hncore/partdata.cpp:362-372 | a new download has no sources, no chunk counts, is running and has nothing complete |
| PartData.PartData.GetChunkCount | hncore/partdata.cpp:797-799 | the count of chunks of that size; zero exactly for an empty file |
| PartData.PartData.Avail | hncore/partdata.cpp:614 | the per-chunk counts for one chunk size, one per chunk (zeros before checkAddChunkMap) |
| PartData.PartData.AddSourceMask | hncore/partdata.cpp:590-622 | the source count always goes up; an empty mask adds a full source; a mask of the wrong length throws with both numbers and changes no count; otherwise the counts become CountedAsWritten of the mask |
| PartData.PartData.AddFullSource | hncore/partdata.cpp:624-634 | the full-source count goes up, and the counts become CountedAsWritten of the all-set mask |
| PartData.PartData.SetAvail | hncore/partdata.cpp:801-817 | checkAddChunkMap followed by the counting loop over equal_range(cs): the counts become CountedAsWritten of the mask |
| PartData.CountedFixed | hncore/partdata.cpp:809-810 | checkAddChunkMap with the emptiness test: the chunks of size cs always exist afterwards, no chunk size already present is lost, and each size keeps one count per chunk |
| PartData.CountedAsWritten | hncore/partdata.cpp:801-817 | chunks of size cs are created only when no chunks of size cs or larger exist; when larger ones exist and none of size cs, no count changes; otherwise the chunks of size cs gain the mask and every other size is untouched |
| PartData.FixedCountsEverySource | hncore/partdata.cpp:801-817 | with the emptiness test on the equal_range, every chunk of size cs gains exactly its mask bit and no other size changes |
| PartData.AsWrittenAgreesWithFixed | hncore/partdata.cpp:809-810 | the code as written and the corrected test give the same counts exactly when chunks of size cs exist or none larger do |
| PartData.SkippedCountAsWritten | hncore/partdata.cpp:809-810 | a 20,000,000-byte file with its eD2k parts known: a full 262144-byte mask is counted nowhere as written, and in all 77 pieces when corrected |
| PartData.PartData.DelSourceMask | hncore/partdata.cpp:635-669 | a zero source count throws; otherwise it goes down, an empty mask removes a full source, a wrong length throws, and marked counts go down, throwing at a zero one |
| PartData.PartData.DelFullSource | hncore/partdata.cpp:671-682 | a zero full-source count throws; otherwise it goes down and every chunk's count goes down, throwing at a zero one |
| PartData.PartData.Release | hncore/partdata.cpp:660-667 | the marked counts are lowered up to the first zero one, where the CHECK_THROW fires |
| PartData.PartData.DoPause | hncore/partdata.cpp:1560-1566 | the state becomes Pause of the old one and onPaused is emitted only on a change |
| PartData.PartData.DoStop | hncore/partdata.cpp:1568-1574 | the state becomes Stop of the old one and onStopped is emitted only on a change |
| PartData.PartData.DoResume | hncore/partdata.cpp:1576-1583 | the state becomes Resume of the old one and onResumed is emitted only on a change |
| PartData.PartData.DoAutoPause | hncore/partdata.h:609 | the state becomes AutoPause of the old one |
| PartData.PartData.AmountBuffered | hncore/partdata.cpp:1639-1646 | the total size of the buffered data, summed in a uint32_t |
| PartData.PartData.CleanupName | hncore/partdata.cpp:1648-1663 | the leaf name becomes Cleaned of the old one, the directory is kept |
| PartData.PartData.SetComplete | hncore/partdata.cpp:971-975 | the complete values gain the range and the not-to-download values lose it |
| PartData.PartData.SetCorrupt | hncore/partdata.cpp:977-983 | the range leaves the complete and verified values and joins the corrupt ones; onCorruption is emitted |
| PartData.PartData.SetVerified | hncore/partdata.cpp:985-990 | the range joins the verified and complete values and leaves the corrupt ones |
| ClientExt.Length32 | hnbase/range.h:117 | Range32::length() computed in 32 bits stays below 2^32 |
| ClientExt.Requested32Wraps | hncore/ed2k/clientext.cpp:200-206 | the 32-bit `requested` total equals the exact total modulo 2^32 |
| ClientExt.Admit | hncore/ed2k/clientext.cpp:197-215 | the intended addReqChunk: a range that is already queued is ignored; otherwise the queue gains at most that range |
| ClientExt.AdmitCapped | hncore/ed2k/clientext.cpp:208-214 | a range is queued only if sent plus the whole queue stays within 53 * ED2K_CHUNKSIZE; a queue within the cap stays within it; a new range that would go past the cap is refused |
| ClientExt.AdmitAsWritten | hncore/ed2k/clientext.cpp:197-215 | addReqChunk as written, with its sums in 32 bits, also adds at most the new range |
| ClientExt.AdmitAsWrittenAgrees | hncore/ed2k/clientext.cpp:197-215 | while no sum wraps, the code as written decides as intended |
| ClientExt.CapBypassedAsWritten | hncore/ed2k/clientext.cpp:200-214 | as written, a request of 2^32-1 bytes behind a one-byte request wraps the sum to 0 and is queued past the cap; the intended check refuses it |
| ClientExt.UploadInfo.constructor | hncore/ed2k/clientext.cpp:90-92 | a new upload session has nothing queued, buffered or sent, and is not compressed |
| ClientExt.UploadInfo.AddReqChunk | hncore/ed2k/clientext.cpp:197-215 | the loop looks for r while it sums the lengths; the queue becomes Admit of the old queue and nothing else changes |
| ClientExt.UploadInfo.GetNext | hncore/ed2k/clientext.cpp:164-188 | returns min(amount, buffer size) bytes from the front of the buffer, with the old position and the end position (the request length when compressed); position and sent advance by that amount in 32 bits; the front request is popped exactly when the buffer runs empty |
| BtTorrent.MsbByteFlags | hncore/bt/torrent.cpp:339-349 | the byte packed from up to eight flags has bit 7-j set exactly when flag j is present and true |
| BtTorrent.BitfieldLength | hncore/bt/torrent.cpp:338-353 | the bitfield has one byte per eight chunks, rounded up |
| BtTorrent.BitfieldLayout | hncore/bt/torrent.cpp:338-353 | bit 7-j of byte k is set exactly when chunk 8k+j exists and is complete; the padding bits of the last byte are clear |
| BtTorrent.BitfieldDecodes | hncore/bt/torrent.cpp:356-374 | reading the bitfield back most significant bit first gives the chunk flags again, which is what the self-check tests |
| BtTorrent.PackNext | hncore/bt/torrent.cpp:339-353 | one pass of the inner loop consumes up to eight chunks and gives the byte that holds them |
| BtTorrent.SetBitBits | hncore/bt/torrent.cpp:388 | or-ing in 1 << k sets bit k and leaves every other bit as it was |
| BtTorrent.ChunkVerifiedFlags | hncore/bt/torrent.cpp:387-399 | setting bit 7 - chunk % 8 of byte chunk / 8 marks exactly that chunk as complete in the decoded flags |
| BtTorrent.Torrent.constructor | hncore/bt/torrent.cpp:48-50 | a torrent starts with its chunk size and count and an empty bitfield |
| BtTorrent.PackBitfield | hncore/bt/torrent.cpp:338-353 | the packing loop gives exactly Bitfield of the chunk flags, whose layout BitfieldLayout states |
| BtTorrent.Torrent.InitBitfield | hncore/bt/torrent.cpp:330-353 | the loops rebuild the bitfield as the packing of the part status, or of all chunks for a complete file |
| BtTorrent.Torrent.OnChunkVerified | hncore/bt/torrent.cpp:379-388 | another file or another chunk size leaves the bitfield as it is; a chunk beyond the bitfield makes at() throw; otherwise only bit 7 - chunk % 8 of byte chunk / 8 is set |
| BtClient.MessagesRest | hncore/bt/client.cpp:492-514 | the framing loop stops only when no whole message is left, and what is left is an unread tail of the buffer |
| BtClient.HeadExtends | hncore/bt/client.cpp:492-501 | a message that is complete in the buffer is read the same whatever bytes arrive after it |
| BtClient.MessagesSplit | hncore/bt/client.cpp:492-514 | parsing two pieces of input one after the other gives the same messages as parsing them together, so the way the socket splits the data does not matter |
| BtClient.Framed | hncore/bt/client.cpp:376-396 | a message is its 4-byte big-endian length followed by the payload |
| BtClient.FramedParses | hncore/bt/client.cpp:492-514 | a framed payload is read back as itself (a keep-alive for an empty one), and the rest of the input is parsed as before |
| BtClient.StreamParses | hncore/bt/client.cpp:492-514 | a stream of framed messages parses to exactly those messages with nothing left over |
| BtClient.Control | hncore/bt/client.cpp:274-277 | a control message is the length 1 followed by its id |
| BtClient.ControlParses | hncore/bt/client.cpp:492-514 | a choke, unchoke, interested or uninterested message is read back as that id |
| BtClient.ParseStepAgrees | hncore/bt/client.cpp:492-514 | while len + 4 fits in 32 bits, one pass of the loop as written reads the same message as the intended reader, or stops as it does |
| BtClient.WrappedLengthSpins | hncore/bt/client.cpp:498-513 | as written, the length 0xFFFFFFFC wraps len + 4 to 0: one byte is handed on as a message and nothing is erased, so the next pass sees the same bytes (the loop repeats for ids 0-3 and 9-255; ids 4-8 make parsePacket throw and the connection is dropped); the intended reader waits for the payload |
| BtClient.ReadCount | hncore/bt/client.cpp:665-678 | the decode loop stops at the chunk count or when the bytes run out, whichever comes first |
| BtClient.CountTrueAll | hncore/bt/client.cpp:687-692 | the count of set bits equals the number of flags exactly when every flag is set |
| BtClient.MaskSeed | hncore/bt/client.cpp:687-692 | a peer that has every chunk is kept as the empty mask that stands for a seed; otherwise the flags are kept |
| BtClient.DecodeOwnBitfield | hncore/bt/torrent.cpp:338-353 | our own bitfield, sent to a peer, decodes to exactly our chunk flags, and to the full chunk count |
| BtClient.ReadFlags | hncore/bt/client.cpp:665-677 | one pass of the inner loop takes the bits of one byte from the most significant down, stopping at the chunk count, and keeps the count of set bits |
| BtClient.DecodeBitfield | hncore/bt/client.cpp:661-678 | the loops decode the flags the bitfield holds, up to the chunk count, with trueBits their number of set flags |
| BtClient.Client.constructor | hncore/bt/client.cpp:78-81 | a new connection is choked and not interested in both directions, with nothing buffered, queued or requested |
| BtClient.Client.ParseBuffer | hncore/bt/client.cpp:492-514 | the messages handed on are exactly the complete messages at the front of the buffer, and the buffer keeps the unread tail; the protocol flags are unchanged |
| BtClient.Client.SendChoke | hncore/bt/client.cpp:255-286 | a choked peer is left alone; if the torrent keeps the peer unchoked, a retry is scheduled and nothing is sent; else the CHOKE message goes out, the peer is choked and its requests are dropped |
| BtClient.Client.SendUnchoke | hncore/bt/client.cpp:288-307 | only a choked peer is sent UNCHOKE and a later choke is scheduled; afterwards the peer is not choked |
| BtClient.Client.SendInterested | hncore/bt/client.cpp:309-324 | INTERESTED is sent only when we were not interested; afterwards we are |
| BtClient.Client.SendUninterested | hncore/bt/client.cpp:326-341 | UNINTERESTED is sent only when we were interested; afterwards we are not |
| BtClient.Client.OnCancel | hncore/bt/client.cpp:774-795 | the queue loses every request equal to the cancelled one, and keeps every other request in order |
| BtClient.Client.OnRequest | hncore/bt/client.cpp:711-734 | without a torrent the check throws; a peer we choke is ignored; otherwise the request is queued at the end, and when the socket is writable and it is the only one queued it is answered at once with a PIECE and leaves the queue |
| BtClient.Client.SendNextChunk | hncore/bt/client.cpp:797-835 | with a request queued and its data read, the PIECE for the front request is sent and the request leaves the queue; otherwise nothing is sent and the queue is kept |
| BtClient.Client.SendRequests | hncore/bt/client.cpp:935-983 | the outgoing queue becomes Fill of what is handed out, a REQUEST is sent for each request added, in order, and NOT INTERESTED follows when it throws with nothing outstanding |
| BtClient.Fill | hncore/bt/client.cpp:940-975 | the queue keeps its old requests in front, gains the requests handed out in order, stops at five, and throws exactly when it ends below five |
| BtClient.FillPicksFresh | hncore/bt/client.cpp:948-952 | a request picked by the torrent is never queued twice |
| BtClient.FillQueue | hncore/bt/client.cpp:940-975 | the loop leaves the queue Fill gives and sends the REQUEST messages of the added requests |
| BtClient.IsQueued | hncore/bt/client.cpp:948-952 | the search finds the request exactly when it is queued |
| BtClient.RequestParses | hncore/bt/client.cpp:376-395 | a REQUEST message reads back as one message with id 6 and the request's index, offset and length |
| BtClient.PieceParses | hncore/bt/client.cpp:397-412 | a PIECE message reads back as one message holding id 7, then index, offset and the data |
| BtClient.Client.OnChoke | hncore/bt/client.cpp:592-600 | a CHOKE from the peer marks us choked and drops our outstanding requests |
| BtClient.Client.OnUnchoke | hncore/bt/client.cpp:602-611 | an UNCHOKE marks us unchoked; when we are interested and have a download, sendRequests fills the outgoing queue and sends the requests; otherwise nothing is sent |
| BtClient.Client.OnInterest | hncore/bt/client.cpp:613-625 | INTERESTED and UNINTERESTED set the peer's interest flag |
| BtClient.Client.OnBitfield | hncore/bt/client.cpp:661-709 | without a torrent the check throws; a bitfield shorter than the chunk count throws with the flags read so far; otherwise the flags are kept, or the empty seed mask when all are set, and when the download needs parts from the peer INTERESTED is sent unless we already were interested |
| BtClient.Without | hncore/bt/client.cpp:780-793 | the cancelled request is absent afterwards, and every other request is kept |
| BtClient.WithoutRemove | hncore/bt/client.cpp:780-788 | erasing one matching request and restarting the scan leads to the same final queue |
| Clients.DecodeFeatures | hncore/ed2k/clients.h:170-181 | the feature accessors read every version within its 4-bit (3-bit for AICH) field |
| Clients.FeaturesRoundTrip | hncore/ed2k/clients.h:170-181 | the accessors read back exactly the flags and versions a features word was built from |
| Clients.FeaturesCover | hncore/ed2k/clients.h:170-181 | the fields cover the whole 32-bit word: rebuilding it from what the accessors read gives the same word |
| Clients.ViewSharedAsWrittenWrong | hncore/ed2k/clients.h:172 | as written, supportsViewShared() is false for a client that announces only view-shared support (0x04) and true for one that announces only preview (0x01) |
| Clients.ViewSharedAsWrittenMeans | hncore/ed2k/clients.h:172 | as written, the answer is yes exactly when some bit other than bit 2 is set |
| Clients.LowHighIds | hncore/ed2k/clients.h:182-183 | no ID is both low and high, and only 0x00ffffff is neither |
| Clients.DecodeSoft | hncore/ed2k/clients.h:184-188 | the software code and version accessors read values within their 8, 7, 7, 3 and 7-bit fields |
| Clients.SoftRoundTrip | hncore/ed2k/clients.h:184-188 | the accessors read back the software code and version a software word was built from |
| Clients.SoftCover | hncore/ed2k/clients.h:184-188 | the fields cover the whole software word |
| Clients.HexDumpByte | hnbase/utils.h:426-434 | hexDump of a byte is "0x" followed by exactly two hex digits |
| Clients.KnownSoft | hncore/ed2k/clients.cpp:660-675 | the name of every known software code is non-empty and does not start with 'U' |
| Clients.HexPairInjective | hnbase/utils.h:426-434 | two bytes have the same two-digit hex form exactly when they are equal |
| Clients.UnknownSoftDistinct | hncore/ed2k/clients.cpp:676-680 | unknown codes are named "Unknown 0x" with two hex digits, and two unknown codes get the same name exactly when they are equal |
| Clients.KnownSoftNamed | hncore/ed2k/clients.cpp:659-681 | getSoft names a known code by its name, which can never be mistaken for an unknown one |
| MetaData.Bumped | hncore/metadata.cpp:965 | `m_fileNames[name]++` raises that name's count by one, creating it at 1, and leaves every other count as it was |
| MetaData.Dropped | hncore/metadata.cpp:987-999 | an unknown name changes nothing; other counts are untouched; a count above 1 drops by one; at zero the entry is erased unless it is the current name, which is kept |
| MetaData.DropUndoesBump | hncore/metadata.cpp:960-999 | delFileName undoes an addition of the same name, unless that left the current name at count 1 |
| MetaData.CurrentNameKept | hncore/metadata.cpp:991-995 | deleting the only reference to the current name keeps it at count 1 |
| MetaData.DroppedPositive | hncore/metadata.cpp:987-999 | after delFileName every stored count is still positive |
| MetaData.ExpectedChunks | hncore/metadata.cpp:845-851 | the expected chunk-hash count is computed in 32 bits |
| MetaData.ExpectedIsChunkCount | hncore/metadata.cpp:845-851 | while it fits in 32 bits, the expected count is the number of chunks of the file, plus the extra dummy hash ed2k keeps when the size is a multiple of the chunk size |
| MetaData.Checked | hncore/metadata.cpp:840-855 | the check keeps the hash type and chunk size and either keeps the chunk hashes or clears them |
| MetaData.CheckedConsistent | hncore/metadata.cpp:840-855 | after the check a hashset with chunk hashes has exactly the expected number, and checking again changes nothing |
| MetaData.MetaData.constructor | hncore/metadata.cpp:719-722 | a new MetaData has the given size and no name, names, hashsets, comments or custom data |
| MetaData.MetaData.SetSize | hncore/metadata.cpp:951-958 | a second setSize throws and changes nothing; otherwise the size is set, the hashsets are cleared, and the size event is posted only for a non-zero size |
| MetaData.MetaData.SetName | hncore/metadata.cpp:960-971 | the same name is a no-op; otherwise the name is set, its count bumped, the name event posted, and the added-name event posted when the name is new |
| MetaData.MetaData.AddFileName | hncore/metadata.cpp:973-985 | with no current name the name becomes current and is counted twice, once by setName and once here; otherwise it is counted once, with the added-name event when it is new |
| MetaData.MetaData.DelFileName | hncore/metadata.cpp:987-999 | the name counts become Dropped of the old counts, and nothing else changes |
| MetaData.MetaData.AddComment | hncore/metadata.cpp:1012-1016 | comments are a set: a duplicate is ignored, and only a new comment posts the event |
| MetaData.MetaData.AddCustomData | hncore/metadata.cpp:1006-1010 | custom data is a set: a duplicate is ignored, and only new data posts the event |
| MetaData.MetaData.CheckHashSets | hncore/metadata.cpp:840-855 | the loop replaces every hashset by its Checked form and changes nothing else |
| CreditsDb.NewCredits | hncore/ed2k/creditsdb.cpp:45-50 | a Credits can be made exactly when the key has at most 80 bytes and the hash is set; it starts with nothing uploaded, downloaded or seen |
| CreditsDb.ParseHeader | hncore/ed2k/creditsdb.cpp:55-61 | a record starts with the 16-byte hash and five 32-bit words |
| CreditsDb.ParseKeySection | hncore/ed2k/creditsdb.cpp:71-80 | a key read back never exceeds 80 bytes |
| CreditsDb.ParseCredits | hncore/ed2k/creditsdb.cpp:54-86 | a record read has a 16-byte hash, and a zero last-seen time is replaced by the current time as a uint32_t |
| CreditsDb.SplitWords | hncore/ed2k/creditsdb.cpp:63-68 | a 64-bit count is its high 32-bit word times 2^32 plus its low word, and both words fit in 32 bits |
| CreditsDb.HeaderOf | hncore/ed2k/creditsdb.cpp:55-95 | the hash and the five words written are read back as written |
| CreditsDb.KeySectionOf | hncore/ed2k/creditsdb.cpp:73-105 | the reserved bytes, the key size, the key and its zero padding to 80 bytes are read back as the key, with the stream after the record |
| CreditsDb.JoinOf | hncore/ed2k/creditsdb.cpp:63-68 | joining the low and high words gives back the 64-bit uploaded and downloaded counts |
| CreditsDb.CreditsRoundTrip | hncore/ed2k/creditsdb.cpp:54-108 | a record written by operator<< is read back as the same record, whatever follows it |
| CreditsDb.OversizedKeyRefused | hncore/ed2k/creditsdb.cpp:74-75 | a key size above 80 makes the read throw |
| CreditsDb.ExpireValue | hncore/ed2k/creditsdb.cpp:163-164 | the expiry threshold is now less five months, as a uint32_t |
| CreditsDb.EntriesStep | hncore/ed2k/creditsdb.cpp:165-173 | each pass reads one record: a failed read stops the loading with its error; an expired record is dropped and the rest is read in the same way |
| CreditsDb.LoadedOf | hncore/ed2k/creditsdb.cpp:148-165 | a file with a known version and a record count loads the records that follow |
| CreditsDb.EntriesFresh | hncore/ed2k/creditsdb.cpp:165-173 | no expired record is ever kept |
| CreditsDb.Unexpired | hncore/ed2k/creditsdb.cpp:165-173 | the kept records are among those written, and none of them has expired |
| CreditsDb.EntriesOfRecords | hncore/ed2k/creditsdb.cpp:165-173 | reading back a run of written records keeps exactly the ones that have not expired, in order |
| CreditsDb.LoadedFile | hncore/ed2k/creditsdb.cpp:148-173 | a whole credits.met file of written records loads exactly its unexpired records, without error |
| CreditsDb.FindKey | hncore/ed2k/creditsdb.cpp:355-356 | the lookup finds a record with this key, or there is none |
| CreditsDb.ReadU32sOf | hnbase/utils.h:296-304 | reading n 32-bit words succeeds exactly when 4n bytes are left, and gives each word in little-endian order |
| CreditsDb.CreditsDb.constructor | hncore/ed2k/creditsdb.cpp:145 | a new database holds no records |
| CreditsDb.CreditsDb.Load | hncore/ed2k/creditsdb.cpp:148-190 | a missing file or an unknown version loads nothing; otherwise the records read are added, expired ones dropped, up to the first failed read, whose error is passed on |
| CreditsDb.CreditsDb.Create | hncore/ed2k/creditsdb.cpp:354-364 | the record with this key is returned if there is one; otherwise exactly one new record, seen now (truncated to a uint32_t), is added, or the Credits check throws |
| CreditsDb.ReadEntry | hncore/ed2k/creditsdb.cpp:166-172 | one pass of the load loop reads a record and keeps it unless expired, as Entries does |
| CreditsDb.ReadEntries | hncore/ed2k/creditsdb.cpp:165-173 | the loop keeps exactly the records Entries gives, with its error |
| CreditsDb.WriteCredits | hncore/ed2k/creditsdb.cpp:89-108 | operator<< writes exactly the record layout that is read back |
| CreditsDb.WriteWords | hncore/ed2k/creditsdb.cpp:91-95 | the five 32-bit words are written in order, little-endian |
| CreditsDb.WriteKeySection | hncore/ed2k/creditsdb.cpp:96-105 | the reserved bytes, key size, key and padding to 80 bytes are written |
| CreditsDb.GetWords | hncore/ed2k/creditsdb.cpp:57-61 | the five words are read in order, or the read error is passed on |
| CreditsDb.ReadHeader | hncore/ed2k/creditsdb.cpp:55-61 | the method reads the header ParseHeader describes |
| CreditsDb.ReadKeySection | hncore/ed2k/creditsdb.cpp:71-80 | the method reads the key section ParseKeySection describes |
| CreditsDb.ReadCredits | hncore/ed2k/creditsdb.cpp:54-86 | the stream constructor reads the record ParseCredits describes, or fails with its error |
| SchedBase.FreeBandwidth | hnbase/schedbase.cpp:511-525 | the free bandwidth is the limit less the speed, and 0 once the speed exceeds the limit |
| SchedBase.FreeBandwidthFalls | hnbase/schedbase.cpp:511-525 | a higher speed never leaves more bandwidth free |
| SchedBase.ClampConnLimit | hnbase/schedbase.cpp:527-540 | the connection limit is kept when it is between 1 and FD_SETSIZE-10; 0 or anything larger becomes FD_SETSIZE-10 |
| SchedBase.ClampIdempotent | hnbase/schedbase.cpp:527-540 | clamping a clamped limit changes nothing |
| SchedBase.OnConfigValue | hnbase/schedbase.cpp:431-487 | every limit a configuration change sets fits in 32 bits, and the upload, download and connecting limits it sets are never 0 |
| SchedBase.NumberApplied | hnbase/schedbase.cpp:434-476 | UpSpeedLimit 0 is refused; DownSpeedLimit and ConnectingLimit 0 mean unlimited; every other number is taken as the new limit |
| SchedBase.NonNumberRefused | hnbase/schedbase.cpp:431-487 | a value that is not a 32-bit number is refused for the scheduler's keys; other keys are accepted and change nothing |
| SchedBase.IsAllowedCombiner | hnbase/schedbase.h:103-116 | the combiner answers true exactly when every slot answers true, and stops calling slots after the first false |
| SchedBase.Scheduler.constructor | hnbase/schedbase.cpp:125-134 | a new scheduler has 25 KiB/s upload, unlimited download, 300 connections, unlimited connecting, and no connections |
| SchedBase.Scheduler.GetFreeUp | hnbase/schedbase.cpp:511-517 | the free upload bandwidth is the limit less the speed, never above the limit |
| SchedBase.Scheduler.GetFreeDown | hnbase/schedbase.cpp:519-525 | the free download bandwidth is the limit less the speed, never above the limit |
| SchedBase.Scheduler.GetConnection | hnbase/schedbase.cpp:496-509 | a connection is granted exactly when MayConnect holds, and only a granted one moves the last connection time to now |
| SchedBase.Scheduler.UpdateConnLimit | hnbase/schedbase.cpp:527-540 | the limit becomes its clamped value, and the reduced value is written back to the preferences only when it was too large |
| SchedBase.Scheduler.OnConfigChange | hnbase/schedbase.cpp:431-487 | the change is accepted exactly when it is not refused; each limit is set as OnConfigValue says (the connection limit clamped) and the others are kept |
| SchedBase.Scheduler.AddConn | hnbase/schedbase.h:312 | a new connection is counted |
| SchedBase.Scheduler.DelConn | hnbase/schedbase.h:313 | a closed connection is uncounted; the assertion needs one to be open |
| SchedBase.RefusedAtLimit | hnbase/schedbase.cpp:497-499 | no connection is granted once the count reaches the limit |
| SchedBase.OutgoingSpaced | hnbase/schedbase.cpp:500-505 | an outgoing connection is granted only below the connecting limit and at least connDelay after the last one |
| Config.CastU32 | hnbase/config.h:135 | lexical_cast<uint32_t> succeeds only on a non-empty run of decimal digits whose value fits in 32 bits |
| Config.CastDecimal | hnbase/config.h:135-175 | a uint32_t cast to a string is cast back to the same number |
| Config.CastRejects | hnbase/config.h:134-143 | a value with any character that is not a decimal digit does not convert |
| Config.Absolute | hnbase/config.h:127-131 | an empty key throws; a key starting with '/' is used as it is; any other key is put under the current path |
| Config.NewPath | hnbase/config.cpp:157-168 | an empty dir throws; an absolute dir replaces the path, a relative one is appended, and the result ends with '/' and starts with '/' when the old path did |
| Config.AbsoluteIsAbsolute | hnbase/config.h:129-131 | under any path setPath leaves, every key resolves to an absolute key |
| Config.RelativeIsAbsolute | hnbase/config.h:129-131 | a relative key names the same value as its absolute spelling under that path |
| Config.ReadValue | hnbase/config.h:125-146 | read fails only for an empty key |
| Config.ReadMissing | hnbase/config.h:144-146 | a key that is not stored reads as the default |
| Config.ReadUnconvertible | hnbase/config.h:134-143 | a stored value that does not convert reads as the default |
| Config.WrittenIsRead | hnbase/config.h:125-191 | a number written under a key is what read then gives under any spelling of that key |
| Config.ErasedReads | hnbase/config.h:198-205 | after erase the key reads as the default and every other key reads as before |
| Config.Config.constructor | hnbase/config.cpp:31 | a new Config is empty with the path "/" |
| Config.Config.SetPath | hnbase/config.cpp:157-168 | the path becomes NewPath of the old one, or an empty dir throws and nothing changes; the values are kept |
| Config.Config.Read | hnbase/config.h:157-162 | a key that is not stored reads as the default; only an empty key fails |
| Config.Config.Write | hnbase/config.h:171-191 | an empty key throws; the valueChanging slots are called until the first veto; a veto stores nothing and returns false; otherwise the value is stored under the absolute key, valueChanged is told the key without its '/', and true is returned |
| Config.Config.Erase | hnbase/config.h:198-205 | an empty key throws; otherwise only the absolute key is removed |
| Log.Find | hnbase/log.cpp:64-67 | std::string::find gives a position at or after the start that holds the character |
| Log.FindFirst | hnbase/log.cpp:64-67 | find gives the first such position, and npos only when there is none |
| Log.FindIsFirst | hnbase/log.cpp:64-67 | the first position holding the character is what find gives |
| Log.StrippedAfterPlain | hnbase/log.cpp:64-69 | text before the first escape is kept as it is |
| Log.StrippedNoEsc | hnbase/log.cpp:64-69 | no escape character is left in a line written to the log files |
| Log.StrippedPlain | hnbase/log.cpp:64-69 | text without escapes is left as it is, and stripping twice is stripping once |
| Log.ColourRemoved | hnbase/log.cpp:64-69 | a colour sequence ESC ... m between plain text is removed and nothing else is |
| Log.StrippedAtEsc | hnbase/log.cpp:64-69 | an escape with no 'm' after it cuts off the rest of the line; otherwise the text up to the 'm' goes |
| Log.SplitAtEsc | hnbase/log.cpp:64-66 | the text before the first escape is kept as it is, and the search for 'm' from the escape runs on the rest |
| Log.EraseCutAt | hnbase/log.cpp:66-68 | when no 'm' follows the first escape, the erase cuts the message there and what remains to strip is unchanged |
| Log.EraseSequenceAt | hnbase/log.cpp:66-68 | when an 'm' follows the first escape, erasing from the escape to the 'm' leaves what remains to strip unchanged |
| Log.StripColors | hnbase/log.cpp:64-69 | the loop turns the message into Stripped(msg) |
| Log.Last | hnbase/log.cpp:94-103 | the last min(n, size) messages are taken |
| Log.Pushed | hnbase/log.cpp:194-200 | the history stays within 100 entries and ends with the new message |
| Log.HistoryIsLast | hnbase/log.cpp:194-200 | after any run of messages the history is exactly the last 100 messages, in order, so the oldest goes first |
| Log.Log.constructor | hnbase/log.cpp:33 | a new log has no messages, masks or prefix |
| Log.Log.AddMsg | hnbase/log.cpp:194-200 | the message is pushed and the oldest dropped beyond 100 entries; nothing else changes |
| Log.Log.GetLastMsg | hnbase/log.cpp:202-204 | the last message is one of the messages |
| Log.Log.GetLast | hnbase/log.cpp:94-103 | the loop appends the last min(count, size) messages to cont, oldest first |
| Log.Log.LogString | hnbase/log.cpp:178-191 | the message is written to the log files with its colours stripped, and added to the history |
| Log.Log.TraceString | hnbase/log.cpp:220-231 | with the string mask enabled the message goes out as "Trace(mask): msg"; otherwise it only enters the history, as it is |
| Log.Log.TraceInt | hnbase/log.cpp:206-218 | with the integer mask enabled the message goes out as "Trace(name): msg" under the mask's name; otherwise it only enters the history |
| Log.Log.GetTraceStr | hnbase/log.h:228-234 | the name of an enabled integer mask, or "" |
| Log.Log.EnableTraceMask | hnbase/log.h:150-152 | the integer mask is enabled under its name, replacing any earlier name |
| Log.Log.DisableTraceMask | hnbase/log.h:183-185 | only that integer mask is disabled |
| Log.Log.EnableStrMask | hnbase/log.h:160-162 | the string mask is enabled |
| Log.Log.AddTraceMask | hnbase/log.h:173-175 | the string mask is published as available |
| Log.Log.DisableStrMask | hnbase/log.h:192-194 | only that string mask is disabled |
| Log.Log.RemoveTraceMask | hnbase/log.h:203-206 | the string mask is both disabled and withdrawn |
| Log.Log.AddPreStr | hnbase/log.h:311-313 | the text is appended to the prefix |
| Log.Log.RemPreStr | hnbase/log.h:320-325 | the prefix loses its last occurrence of the text, if any |
| Log.RFindAt | hnbase/log.h:321 | rfind from a position gives the last occurrence at or before it, or none |
| Log.RFind | hnbase/log.h:321 | rfind gives the last occurrence, or npos when there is none |
| Log.RemovedLast | hnbase/log.h:320-325 | without an occurrence the prefix is kept; otherwise exactly the text's length is removed |
| Log.AddThenRemove | hnbase/log.h:311-325 | removing a prefix part just added restores the old prefix |
| Log.RemovesLastOnly | hnbase/log.h:320-325 | only the last occurrence is removed; earlier ones are kept |
| DownloadList.AddTicks | hncore/ed2k/downloadlist.cpp:77-97 | a stored time plus an interval is a uint64_t sum: exact while it fits, wrapped otherwise |
| DownloadList.IsSourceReqAllowed | hncore/ed2k/downloadlist.cpp:63-101 | a request is allowed only for a client with source exchange, a running file below its source limit, once the client interval has passed, and, from 10 sources on, once the file interval (four times it from 50 sources on) has passed |
| DownloadList.AllowedWhenDue | hncore/ed2k/downloadlist.cpp:63-101 | conversely, every request that meets those conditions is allowed |
| DownloadList.AllowedLater | hncore/ed2k/downloadlist.cpp:76-101 | a request allowed now stays allowed later, while the sums do not wrap |
| DownloadList.RarerAsksMore | hncore/ed2k/downloadlist.cpp:81-101 | a file with fewer sources is never held back more than one with more |
| DownloadList.VeryRareIgnoresFileTime | hncore/ed2k/downloadlist.cpp:81-84 | under 10 sources the file's own last request time does not matter |
| DownloadList.Dotted | hncore/ed2k/downloadlist.cpp:59 | replace_all(link, " ", ".") keeps the length and turns exactly the spaces into dots |
| DownloadList.Link | hncore/ed2k/downloadlist.cpp:55-59 | the link has no spaces |
| DownloadList.DottedConcat | hncore/ed2k/downloadlist.cpp:59 | the replacement works piece by piece |
| DownloadList.DottedPlain | hncore/ed2k/downloadlist.cpp:59 | text without spaces is left as it is |
| DownloadList.LinkFields | hncore/ed2k/downloadlist.cpp:55-59 | the link is the fixed ed2k file prefix, then the name with dots for spaces, the size in decimal and the hash in hex, each followed by a bar, then the closing slash; the size reads back as the file's size |
| DownloadList.LinkKeepsPlainName | hncore/ed2k/downloadlist.cpp:55-59 | a name without spaces appears in the link as it is |
| DownloadList.GetLink | hncore/ed2k/downloadlist.cpp:54-61 | for another file the list is untouched; for this Download's file exactly the link is appended |

## Left out

- Sockets, timers, threads, mutexes and the event table are left out. Bytes a method would send are recorded in a field (`out`, `fileLines`, `changed`, `events`). A scheduled callback is counted (`chokeTimers`).
- Console output is left out: the log's column padding, the status line and the shell's output texts.
- zlib compression in `makePacket` is left out (a foreign library), as are the packet overhead counters.
- The RSA signatures of `CreditsDb` are left out (a foreign library).
- File reading and writing are left out. A file is the sequence of its bytes.
- `CreditsDb.CreditsDb.Load`: the retry from the `.bak` file after a failed load is not modelled (it re-enters `load` on another file).
- `CreditsDb.CreditsDb.Load`: records are kept as a list in insertion order. The boost multi_index indices are not modelled; `create` searches the list by key.
- `CreditsDb.ParseCredits`: `seekg` past the end of the data is modelled as stopping at the end. Setting the stream's fail bit without advancing is not modelled.
- `Ranges`: values are unbounded naturals, so the wrap-around of `Range<uint32_t>` at 0 and at its maximum is not modelled. `RangeLists.FirstFree`, the as-written search, is the exception: it models the size_type wrap, and the corrected search that `RangeLists.RangeList.GetFirstFree` uses clips at the largest value instead.
- `RangeLists.RangeList.GetFirstFree`: a list whose first range runs from 0 to the largest size_type value leaves nothing free; there curPos wraps to 0 and the result is not stated.
- `RangeLists.RangeList.GetContains`: the header calls the result "the first overlapping range". On the lower-bound-minus-one branch that is not always so: for {[9,10],[12,13],[30,31]} and [10,20] it returns [12,13]. The model follows the code and proves exactness on normal lists only.
- `RangeList`: `erase(Iter)`, `front`, `back`, `begin`/`end` and `size` are plain container accessors and are not modelled.
- `Config.CastU32`: boost::lexical_cast is modelled on plain digit strings only. Its treatment of a leading sign and of surrounding whitespace is not modelled.
- `ShellCommands.ParseNumber`: the same holds for the lexical_cast<uint32_t> of selection numbers; a leading '+' or '-' is not modelled.
- `Config.Config.Write`: the slots are a parameter. A slot that applies its effect and is then overruled by a later slot's veto (as `SchedBase.onConfigChange` can be) is not modelled.
- `Config`: `load`, `save` and `dump` are file I/O and are not modelled.
- `SchedBase.Scheduler.UpdateConnLimit`: the write of the reduced limit to the preferences is returned as `saved`. The `onConfigChange` call that this write causes again is not modelled.
- `SchedBase`: `init` (reading the limits from the preferences) and the request queues of `process`/`handleConnections` are not modelled.
- `SchedBase`: the speed meters and `adjustLimits` use floating point and are left out.
- `Log.StripColors`: the position of the 'm' is kept in a `uint32_t`. Messages over 4 GiB, where that truncates, are not modelled. `size_t` is taken to be 64 bits: with a 32-bit `size_t`, an ESC at position 0 with no 'm' after it makes `j - pos + 1` wrap to 0, nothing is erased and the loop does not end.
- `Log`: time stamps, `printLast`, the message signal and the message types are not modelled.
- `DownloadList.IsSourceReqAllowed`: `m_sources.size()` and the `uint32_t` `getSourceCount()` are taken to be the same count. Sets of 2^32 sources or more are not modelled.
- `DownloadList`: the Download constructor's signal connections are event plumbing and are not modelled.
- `ClientExt.UploadInfo.GetNext` requires a queued request when the data is compressed, because `front()` of an empty list is undefined behaviour.
- `ClientExt`: the reading and zlib compression of the next range (`readNext`/`compress`) and the constructor's checks against the shared-file database are not modelled.
- `PartData`: the disk work is not modelled (buffer flushing, saving, allocation, hashing and verification jobs).
- `PartData`: `updateChunks` and the chunk-selection logic are not modelled.
- `PartData.PartData.AddSourceMask`: the class follows `checkAddChunkMap` as written (see Findings), so a mask whose chunk size is smaller than an existing chunk size is counted nowhere. `PartData.CountedFixed` is the corrected count; the class does not use it.
- `BtClient`: the handling of each message (`parsePacket` and the `on*` handlers it calls for HAVE and PIECE) is not modelled; complete messages are recorded in order.
- `BtClient`: the handshake is not modelled.
- `BtClient.Client.SendRequests`: what PartData and the torrent hand out (used ranges, locks, `getRequest`) is a parameter, the sequence `issued`. The `RequestAdder` that files slow sources' requests with the torrent, `updateSignals` and the debug-build `CHECK` in `sendRequest` are not modelled.
- `BtClient.Client.OnUnchoke`: `setDownloading` is not modelled; the download and the torrent being set are parameters.
- `BtClient.Client.OnRequest`: `setUploading` is not modelled. The socket's writability and the data `sendNextChunk` reads are parameters.
- `BtClient.Client.SendNextChunk`: a failed read or a missing file is the parameter `None`. The retry timer, the upload counters and `updateSignals` are not modelled.
- `BtClient.Client.OnBitfield`: `checkNeedParts` asks PartData for a range the peer can supply; its answer is the parameter `needParts`. The `m_needParts` field and the `addSourceMask` call on the download are not modelled here; `PartData.PartData.AddSourceMask` models the latter.
- `BtClient.Client.SendChoke`: the torrent's `tryUnchoke` answer is a parameter, and the final `setUploading(false, m_file)` is not modelled.
- `MetaData`: `addHashSet`, the media sub-records and the stream load and save are not modelled. A hashset is reduced to its type, chunk size and chunk-hash count.
- `MetaData.ExpectedIsChunkCount` is stated only while `size / chunkSize + 1` fits in 32 bits. `MetaData.ExpectedChunks` gives the wrapped value beyond that.
- `ShellCommands`: running a command's handler and the text it prints are not modelled. Dispatch stops at the resolved command and its arguments.
- `CGComm`: the subsystems' own packet handlers are not modelled, apart from the id bookkeeping of `SharedFilesList`. A subsystem is its identity, a number; a dispatched frame records its code, not which of the subsystems under that code `find` picks.
- `Clients`: everything in `clients.cpp` beyond `getSoft` is networking and is not modelled.
- The browser extension that forwards links to a running Hydranode is glue code with no logic of its own, and is not part of this model.
- `hash.h` comparisons, the `ed2k.cpp` link handler, the HTTP parser and the GUI number formatting are not part of this model.
- The float code, the Qt user interface, the launcher and the vendored boost library are not part of this model. Neither is the incomplete Kademlia routing table.

## Findings

| source | as written | input that shows it | evidently intended | confidence | as-written member | corrected member |
|---|---|---|---|---|---|---|
| hnbase/rangelist.h:228-251 | when the list starts at 0, the gap before the second range is returned whole | ranges [0,9] and [30,40], limit 10: returns [10,29], 20 values long | the gap is clipped to at most limit values | high, not executed | RangeLists.FirstFreeExceedsLimit | RangeLists.FirstFreeClippedGap |
| hnbase/rangelist.h:228-241 | curPos + limit - 1 wraps for the default limit, the largest size_type value | the single range [0,9] and the default limit: endPos wraps to 8, below curPos 10, and the Range constructor throws | endPos stops at the largest value, giving [10, max] | high, not executed | RangeLists.FirstFreeDefaultThrows | RangeLists.FirstFreeClippedGap |
| hncore/partdata.cpp:809-810 | checkAddChunkMap creates the chunks of size cs only when equal_range(cs).first is end(), that is when no chunk of size cs or larger exists | a 20,000,000-byte file with its eD2k chunks, then a 262144-byte mask: no 262144 chunks are made and the mask is counted nowhere | the test is whether the range is empty (ret.first == ret.second) | high, not executed | PartData.SkippedCountAsWritten | PartData.FixedCountsEverySource |
| hncore/ed2k/packets.cpp:87-101 | when the flag count is not a multiple of 8, the last byte is written twice | one flag followed by a u16 count of 5: the reader takes 0x0501 as the count | each byte of the part map is written once | high, not executed | Packets.PartMapAsWrittenShiftsNextField | Packets.PartMapRoundTrip |
| hnbase/utils.cpp:243-253 | the '=' padding is written over the last characters of the whole output | 55 or 56 bytes (57k + 55 or 57k + 56 in general): the line break after the last group is overwritten by '=' | the padding replaces the last characters of the last group | high, not executed | Utils.Encode64AsWrittenLosesLineBreak | Utils.Base64RoundTrip |
| hnbase/utils.cpp:239 | a signed char indexes the alphabet | the byte 0x80: it indexes before the table | bytes are read as unsigned | medium (the signedness of char depends on the platform), not executed | Utils.Encode64AsWrittenHighByte | Utils.Encode64 |
| hnbase/utils.cpp:317-347 | the product of a unit count and the unit's length is taken in 32 bits | 4354560000 seconds (140 years of 360 days) with trunc 2: a bogus month group follows | the remainder after the largest unit | high, not executed | Utils.SecondsYearWraps | Utils.TimePartsValue |
| hncgcomm/cgcomm.cpp:66 | the loop needs 6 bytes before it looks at a frame | a frame with an empty payload (5 bytes): it is not handed on until more data comes | 5 bytes, the header, are enough | medium, not executed | CGComm.HeaderOnlyFrameWaits | CGComm.ParseSent |
| hncgcomm/cgcomm.cpp:69-97 | size + 5 is computed in 32 bits | a header announcing 2^32-5 bytes: nothing is erased and the loop never ends | the reader waits for the whole payload | high, not executed | CGComm.WrappedSizeSpins | CGComm.ParseAnyCut |
| hncore/hnsh/shellcommands.cpp:2053-2060 | substr(2, pos) takes pos characters, and substr(pos + 2) skips one character too many | "--name=value" binds the name "name=v" to "alue" | the name "name" with the value "value" | high, not executed | ShellCommands.NamedArgAsWrittenShifts | ShellCommands.NamedArgRoundTrip |
| hncore/hnsh/shellcommands.cpp:199-204 | the command line is rebuilt by joining the tokens with spaces | a quoted argument "x y" becomes two arguments x and y | the rebuilt line tokenizes to the same arguments | medium, not executed | ShellCommands.ExpandSplitsQuoted | ShellCommands.ExpandEscaped |
| hncore/ed2k/clients.h:172 | the mask is `~0x04` | the features word 0x04 answers false; 0x01 answers true | the test of bit 2, as for the other flags | high, not executed | Clients.ViewSharedAsWrittenWrong | Clients.FeaturesRoundTrip |
| hncore/ed2k/clientext.cpp:208 | sent + requested + length is a 32-bit sum | a queued one-byte request, then one of 2^32-1 bytes: the sum wraps to 0 and is accepted | the cap is checked on the exact sum | high, not executed | ClientExt.CapBypassedAsWritten | ClientExt.AdmitCapped |
| hncore/bt/client.cpp:498-513 | len + 4 is computed in 32 bits | a header announcing 0xFFFFFFFC bytes followed by one byte with id 0-3 or 9-255: that byte is handed on again and again and nothing is erased (ids 4-8 make parsePacket throw and drop the connection) | the reader waits for the whole message | high, not executed | BtClient.WrappedLengthSpins | BtClient.StreamParses |
