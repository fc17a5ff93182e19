# Verification of discodns and its vendored DNS library

This project models the parts of discodns that decide what an answer is and how it goes over the wire, and proves what
they promise: the internationalised-name codec, names and messages in DNS wire form, the storage walk and the search
behind a lookup, the goroutine protocol that collects answers, duplicate suppression of queries, zone dispatch, and the
decaying reservoir behind the metrics.

Each module follows one component. Code that changes things in place is modelled by methods on arrays or classes, each
proved against a specification function; the promises are lemmas about these functions and about all reachable states.

| files | component |
|---|---|
| `Punycode.dfy`, `PunycodeCodec.dfy`, `PunycodeDecode.dfy`, `PunycodeRoundTrip.dfy`, `PunycodeExamples.dfy` | Bootstring digits, encoder, decoder, their round trip, and some labels character by character (sections 6.1 to 6.3 of RFC 3492) |
| `Bytes.dfy`, `Names.dfy`, `NameText.dfy`, `NameReader.dfy` | names between text and wire form |
| `Compression.dfy` | name compression over a whole message (section 4.1.4 of RFC 1035) |
| `Printing.dfy` | printing names |
| `TextStrings.dfy`, `WireFields.dfy`, `Records.dfy`, `RecordReader.dfy` | text strings, structures, resource records |
| `Messages.dfy`, `MessageReader.dfy`, `Repacking.dfy`, `Packable.dfy`, `WireLayout.dfy`, `CompressedMessages.dfy` | whole messages, uncompressed and compressed, and where everything stands in them |
| `NsecBitmap.dfy` | the NSEC type bitmap |
| `Labels.dfy`, `Mux.dfy` | label scanning, subdomains, zone dispatch |
| `Gather.dfy`, `Storage.dfy`, `Resolver.dfy`, `ResolverAnswers.dfy` | the resolver |
| `SingleFlight.dfy` | duplicate suppression |
| `Reservoir.dfy` | the decaying reservoir |
| `Arith.dfy`, `Options.dfy` | shared facts and types |

Bytes are integers from 0 to 255, names and texts sequences of bytes, labels of the punycode module sequences of code
points. A run-time panic of the source (an index out of range, a zero divisor) is an outcome of its own wherever it can
happen. `dafny verify dfyconfig.toml` checks everything.

Where the code and its documentation differ, the code is followed:

- The unpacker reports, for a root name reached over a pointer, the offset behind the zero byte it read, not the one
  behind the pointer.
- A TTL node beside a subdirectory applies to nothing in it.
- The rescale of the reservoir uses a time difference in nanoseconds where the keys use seconds, so its factor may be
  zero; the results hold for every factor that is not negative.
- An NSEC list whose first type is 256 or more is packed with an empty first block, which the unpacker refuses.
- An opcode of 16 or more sets the response flag.

## Model

| member | source | states |
|---|---|---|
| PunycodeDigits.LetterCodeInverse | Godeps/_workspace/src/github.com/miekg/dns/idn/punycode.go:68-89 | reading a digit character back gives the digit exactly for the 36 digits, and no digit is written as the delimiter |
| PunycodeDigits.TFunc | Godeps/_workspace/src/github.com/miekg/dns/idn/punycode.go:131-139 | the threshold of every digit position lies between 1 and 26 |
| PunycodeDigits.RunAdapt | Godeps/_workspace/src/github.com/miekg/dns/idn/punycode.go:92-105 | the loop ends, no intermediate leaves 32 bits, and the new bias is that of the closed computation (section 6.1 of RFC 3492) |
| PunycodeDigits.AdaptAny | Godeps/_workspace/src/github.com/miekg/dns/idn/punycode.go:92-105 | on every 32-bit delta, negative ones included, adapt either has a bias or divides by zero; for the deltas of correct runs it agrees with RunAdapt |
| PunycodeDigits.AdaptIs | Godeps/_workspace/src/github.com/miekg/dns/idn/punycode.go:92-105 | a delta is divided by 700 the first time and by 2 later, spread over the points, and divided by 35 as often as it exceeds 455, j times; with r what is left, the bias is 36j + 36r/(r + 38) |
| PunycodeDigits.AdaptNegative | Godeps/_workspace/src/github.com/miekg/dns/idn/punycode.go:92-105 | a delta that has wrapped to a negative number is not reduced; the quotient rounds toward zero, and its divisor is zero for one value |
| PunycodeDigits.DigitCases | Godeps/_workspace/src/github.com/miekg/dns/idn/punycode.go:68-78 | digits are read in either letter case with the same value; all other characters are no digits |
| PunycodeDigits.VarDigits | Godeps/_workspace/src/github.com/miekg/dns/idn/punycode.go:188-199 | the encoder writes at least one digit for every number |
| PunycodeDigits.Letters | Godeps/_workspace/src/github.com/miekg/dns/idn/punycode.go:81-89 | digits are written as ASCII characters that are readable digits and never the delimiter |
| PunycodeDigits.ReadInvertsWrite | Godeps/_workspace/src/github.com/miekg/dns/idn/punycode.go:236-252 | for every number, bias, state and following text, the digit loop of the decoder adds exactly the number the encoder wrote, modulo 2^32, and stops at its last digit, although sums and weights may wrap on the way |
| PunycodeCodec.EmitDigits | Godeps/_workspace/src/github.com/miekg/dns/idn/punycode.go:188-199 | the digit loop of the encoder writes exactly the digits of the delta, and panics exactly when the delta has wrapped to a negative number |
| PunycodeCodec.Next | Godeps/_workspace/src/github.com/miekg/dns/idn/punycode.go:108-120 | the least code point at or above the boundary, when the label has one |
| PunycodeCodec.Encode | Godeps/_workspace/src/github.com/miekg/dns/idn/punycode.go:142-207 | the loops over delta, n and h, in wrapping 32-bit arithmetic, emit what a sweep over all code points and positions emits, or panic where it does, for every label |
| PunycodeExamples.Zhongguo | Godeps/_workspace/src/github.com/miekg/dns/idn/punycode.go:142-207 | the label U+4E2D U+56FD is encoded as xn--fiqs8s |
| PunycodeExamples.Umlauts | Godeps/_workspace/src/github.com/miekg/dns/idn/punycode.go:142-207 | the label U+00E4 U+00F6 U+00FC is encoded as xn--4ca0bs |
| PunycodeExamples.Bucher | Godeps/_workspace/src/github.com/miekg/dns/idn/punycode.go:142-207 | a label with ASCII characters around U+00FC is encoded as xn--bcher-kva |
| PunycodeCodec.EncodePass | Godeps/_workspace/src/github.com/miekg/dns/idn/punycode.go:183-204 | one inner pass for a code point emits the numbers of its occurrences and keeps delta equal to the distance in decoder states, modulo 2^32 and exactly when the gaps fit |
| PunycodeCodec.Jump | Godeps/_workspace/src/github.com/miekg/dns/idn/punycode.go:177-181 | jumping to the next occurring code point changes delta as sweeping over the absent ones would |
| PunycodeCodec.DeltaFits | Godeps/_workspace/src/github.com/miekg/dns/idn/punycode.go:177-204 | as long as something is left to emit, a run whose emitted positions fit 31 bits has an accumulated delta that fits as well (section 6.4 of RFC 3492) |
| PunycodeCodec.GapsFromStart | Godeps/_workspace/src/github.com/miekg/dns/idn/punycode.go:177-204 | the deltas of the run fit exactly when each gap fits that can be computed from the label: the distance from a code point to the next smaller one, times the places there are, plus the place |
| PunycodeCodec.ShortLabelsFit | Godeps/_workspace/src/github.com/miekg/dns/idn/punycode.go:177-204 | every label of at most 1927 code points fits, so that no 32-bit operation of the encoder wraps on it |
| PunycodeCodec.LongLabelDoesNot | Godeps/_workspace/src/github.com/miekg/dns/idn/punycode.go:177-204 | a label of 1928 code points that does not fit: 1927 is the longest length that always does |
| PunycodeCodec.NothingLeft | Godeps/_workspace/src/github.com/miekg/dns/idn/punycode.go:177-205 | once every code point is handled the sweep emits nothing more |
| PunycodeDecode.Decode | Godeps/_workspace/src/github.com/miekg/dns/idn/punycode.go:210-268 | the decoder loop, with wrapping 32-bit arithmetic and the two panics it can cause, computes the specified replay of insertions |
| PunycodeDecode.ReadInteger | Godeps/_workspace/src/github.com/miekg/dns/idn/punycode.go:236-252 | one number is read off the front, or a bad digit is found |
| PunycodeDecode.SplitLiteral | Godeps/_workspace/src/github.com/miekg/dns/idn/punycode.go:217-225 | the input is cut at its first delimiter |
| PunycodeRoundTrip.Replay | Godeps/_workspace/src/github.com/miekg/dns/idn/punycode.go:210-268 | simulation: from every state of the encoder, the decoder turns the code points handled so far and the characters still to come into the whole label exactly when all positions still to come fit 31 bits |
| PunycodeRoundTrip.ReplayAstray | Godeps/_workspace/src/github.com/miekg/dns/idn/punycode.go:210-268 | where a position does not fit, the encoder panics, the decoder panics, or the decoder inserts a smaller code point that the label does not have there, so that the label never comes back |
| PunycodeRoundTrip.RoundTrip | Godeps/_workspace/src/github.com/miekg/dns/idn/punycode.go:142-268 | encoding and decoding gives a label back exactly when it has a code point above 127, no hyphen and gaps that fit, or is ASCII and does not read as an encoded label; only an ASCII label that starts with the prefix and eight readable digits may make the decoder panic instead |
| PunycodeRoundTrip.EarlyBadDigitFound | Godeps/_workspace/src/github.com/miekg/dns/idn/punycode.go:236-252 | a bad digit behind at most seven readable ones is found, wherever numbers end and whatever the bias is: nothing wraps before |
| PunycodeRoundTrip.EightDigitsPanic | Godeps/_workspace/src/github.com/miekg/dns/idn/punycode.go:252-262 | an ASCII label with a bad digit behind eight readable ones on which the decoder panics: seven is exact |
| PunycodeRoundTrip.RoundTripExtended | Godeps/_workspace/src/github.com/miekg/dns/idn/punycode.go:142-268 | a label with a code point above 127 and without a hyphen comes back exactly when its gaps fit |
| PunycodeRoundTrip.RoundTripDash | Godeps/_workspace/src/github.com/miekg/dns/idn/punycode.go:217-242 | no label with a code point above 127 and a hyphen comes back: the decoder splits at the first hyphen |
| PunycodeRoundTrip.RoundTripAscii | Godeps/_workspace/src/github.com/miekg/dns/idn/punycode.go:142-160 | ASCII labels are encoded as themselves; they come back only when they do not decode as encoded labels, and then they do if the first bad digit is among the first eight characters |
| PunycodeRoundTrip.BadDigitFails | Godeps/_workspace/src/github.com/miekg/dns/idn/punycode.go:236-243 | the decoder reports a bad digit only if there is one, and yields no text when there is one |
| Bytes.TokensDdd | Godeps/_workspace/src/github.com/miekg/dns/msg.go:288-294 | a backslash and the three digits of a byte stand for that byte, whatever follows |
| Bytes.TokensQuoted | Godeps/_workspace/src/github.com/miekg/dns/msg.go:280-304 | a backslash before an ordinary character stands for that character, whatever follows |
| Names.UnescapeAt | Godeps/_workspace/src/github.com/miekg/dns/msg.go:280-304 | resolving an escape in place leaves its character at its index and moves the rest of the text up by the length of the escape |
| Names.PackLabel | Godeps/_workspace/src/github.com/miekg/dns/msg.go:312-360 | a label is written with its count in front; its suffix becomes a pointer if it is in the map and is recorded otherwise if its offset fits 14 bits |
| Names.PackLabels | Godeps/_workspace/src/github.com/miekg/dns/msg.go:276-363 | the loop that unescapes by shifting its copy left emits what the simple walk over unescaped characters emits, writes nothing before its start, and never runs out of a buffer with room for the text |
| Names.PackDomainName | Godeps/_workspace/src/github.com/miekg/dns/msg.go:240-382 | packing equals the specified form or fails alike; it writes only from its offset on, at most one byte more than the text, and with that much room neither fails for space nor panics, whatever the name and the map |
| Names.PointerBytes | Godeps/_workspace/src/github.com/miekg/dns/msg.go:369-373 | a pointer of 14 bits is written with its two top bits set and reads back as the offset |
| NameText.WalkMeaning | Godeps/_workspace/src/github.com/miekg/dns/msg.go:276-363 | with room and without a map, the loop emits the counted labels of the text or rejects an empty or long label |
| NameText.PackMeaning | Godeps/_workspace/src/github.com/miekg/dns/msg.go:245-382 | a name packs to the counted labels its text stands for and a zero byte, exactly when every label is below 64 bytes and only the first may be empty |
| NameText.LabelRead | Godeps/_workspace/src/github.com/miekg/dns/msg.go:424-450 | a printed label is read back as that label, whatever bytes it holds |
| NameText.TextRead | Godeps/_workspace/src/github.com/miekg/dns/msg.go:424-450 | the printed text of any labels stands for exactly these labels |
| NameReader.UnpackDomainName | Godeps/_workspace/src/github.com/miekg/dns/msg.go:399-479 | the loop over counts and pointers returns the specified labels as text and the offset behind them; it ends and reads only in range for every message |
| NameReader.AppendLabel | Godeps/_workspace/src/github.com/miekg/dns/msg.go:424-450 | the bytes of one label are appended escaped, with a dot |
| NameText.EscapeIs | Godeps/_workspace/src/github.com/miekg/dns/msg.go:436-448 | every byte of a label by its text: visible ASCII as it is, but for " ( ) . ; @ and the backslash; those, and the space, behind a backslash; tab and carriage return by a letter; all others by three decimal digits |
| Compression.PlainNameRead | Godeps/_workspace/src/github.com/miekg/dns/msg.go:399-479 | counted labels of characters that need no escape are returned as they are, each with a dot behind it |
| WireLayout.NsOne | Godeps/_workspace/src/github.com/miekg/dns/msg.go:399-479 | the name ns1. is 3 n s 1 0 on the wire, packed and unpacked |
| NameReader.UnpackThenPack | Godeps/_workspace/src/github.com/miekg/dns/msg.go:278-479 | a name read from any bytes packs again, without a map and with room, to exactly the labels read, pointers resolved, and a zero byte |
| NameReader.PackThenUnpack | Godeps/_workspace/src/github.com/miekg/dns/msg.go:240-479 | what was packed without a map is read back as the canonical form of the name, ending where the packer ended, exactly when the name is the root or does not start with a dot |
| NameReader.CanonicalName | Godeps/_workspace/src/github.com/miekg/dns/msg.go:399-479 | names in the form the unpacker returns are their own canonical form |
| NameReader.ReadWire | Godeps/_workspace/src/github.com/miekg/dns/msg.go:405-451 | counted labels in place are read back as those labels |
| Compression.PackCompressed | Godeps/_workspace/src/github.com/miekg/dns/msg.go:276-381 | a plain name packed with a map becomes the counted labels in front of its longest recorded suffix and a pointer, in at most one byte more than its text |
| Compression.CompressIs | Godeps/_workspace/src/github.com/miekg/dns/msg.go:318-374 | labels are written out up to the longest suffix recorded before, which becomes the pointer; the suffixes written out are recorded where they stand below 16384, and nothing else is |
| Compression.CompressSound | Godeps/_workspace/src/github.com/miekg/dns/msg.go:334-358 | packing one name adds only sound entries to the map and is spelled in the message by its labels, pointers leading strictly backward |
| Compression.SpellMore | Godeps/_workspace/src/github.com/miekg/dns/msg.go:399-479 | what a message spells at an offset stays the same when bytes are appended |
| Compression.ReadSpelled | Godeps/_workspace/src/github.com/miekg/dns/msg.go:399-479 | the unpacker reads what is spelled exactly when it has enough pointers left to follow |
| Compression.PutSound | Godeps/_workspace/src/github.com/miekg/dns/msg.go:240-382 | after one more packed name every map entry and every packed name is still spelled where it stands |
| Compression.RunSound | Godeps/_workspace/src/github.com/miekg/dns/msg.go:240-382 | over any sequence of plain names and other bytes in one buffer with one map, every entry is below 16384 and below the end, spells its suffix with pointers strictly backward, and every name is spelled where it was packed |
| Compression.ReadBack | Godeps/_workspace/src/github.com/miekg/dns/msg.go:399-479 | a packed name and its end offset are returned exactly when its chain has at most ten pointers; otherwise the unpacker gives up on the chain |
| Compression.PlainDotted | Godeps/_workspace/src/github.com/miekg/dns/msg.go:399-479 | plain names are exactly the dotted texts of legal labels of unescaped characters |
| Compression.ChainTooLong | Godeps/_workspace/src/github.com/miekg/dns/msg.go:453-469 | twelve nested plain names packed with one map fit in 48 bytes and the last cannot be read back |
| Printing.SprintName | Godeps/_workspace/src/github.com/miekg/dns/types.go:474-494 | the loop prints each character as specified |
| Printing.DomainByteIs | Godeps/_workspace/src/github.com/miekg/dns/types.go:518-560 | how every byte that is not a dot is printed: as it is, behind a backslash, or by three decimal digits |
| Printing.NextByteHead | Godeps/_workspace/src/github.com/miekg/dns/types.go:553-581 | the reader of escapes used for printing agrees with the packer's on every character |
| Printing.PrintedMeaning | Godeps/_workspace/src/github.com/miekg/dns/types.go:474-494 | printing keeps every character and whether it separates labels exactly when no dot is given by a three-digit escape |
| Printing.PrintedTwice | Godeps/_workspace/src/github.com/miekg/dns/types.go:474-494 | printing is idempotent |
| Printing.PrintedPacksAlike | Godeps/_workspace/src/github.com/miekg/dns/types.go:474-581 | a name with its closing dot that packs, packs to the same bytes after printing exactly when it has no dot given by number; without one it also fails alike |
| Printing.DotByNumber | Godeps/_workspace/src/github.com/miekg/dns/types.go:485-489 | such a dot does occur: a label like a\046b packs as one label before printing and as two after |
| TextStrings.PackTxtString | Godeps/_workspace/src/github.com/miekg/dns/msg.go:502-543 | a string is written as the count and the characters its text stands for, or refused for want of room or for more than 255 characters; nothing before its start changes |
| TextStrings.PackTxt | Godeps/_workspace/src/github.com/miekg/dns/msg.go:481-500 | the strings one after the other; an empty list writes nothing but wants room for a byte |
| TextStrings.PackStringsFits | Godeps/_workspace/src/github.com/miekg/dns/msg.go:481-543 | strings take at most their text and a byte each, and with that much room none is refused for space unless its text exceeds the scratch buffer |
| TextStrings.UnpackTxtString | Godeps/_workspace/src/github.com/miekg/dns/msg.go:558-595 | a counted string is returned escaped, or refused when it leaves the message |
| TextStrings.UnpackTxt | Godeps/_workspace/src/github.com/miekg/dns/msg.go:545-556 | strings are read until the end of the record |
| TextStrings.TextOfRead | Godeps/_workspace/src/github.com/miekg/dns/msg.go:569-591 | the printed text of any bytes stands for exactly these bytes |
| TextStrings.TextEscapeIs | Godeps/_workspace/src/github.com/miekg/dns/msg.go:569-591 | every byte of a string by its text: 32 to 127 as they are but for the quote and the backslash; tab, line feed and carriage return by a letter; all others by three decimal digits |
| WireLayout.TextLayout | Godeps/_workspace/src/github.com/miekg/dns/msg.go:502-546 | a text is the number of its characters, and then the characters its escapes stand for |
| TextStrings.CanonicalTextStable | Godeps/_workspace/src/github.com/miekg/dns/msg.go:569-591 | a text in the form the unpacker returns is its own canonical form |
| TextStrings.StringReadBack | Godeps/_workspace/src/github.com/miekg/dns/msg.go:502-595 | a packed string is read back in canonical form, ending where the packer ended |
| TextStrings.StringPacksBack | Godeps/_workspace/src/github.com/miekg/dns/msg.go:502-595 | a string read from any message packs again to the bytes it was read from |
| TextStrings.StringsReadBack | Godeps/_workspace/src/github.com/miekg/dns/msg.go:481-595 | a packed list of strings is read back as a list of canonical strings |
| WireFields.PackAddress6 | Godeps/_workspace/src/github.com/miekg/dns/msg.go:695-711 | an IPv6 address is copied whole, an empty one takes no bytes, and a short one ends in a panic of the sixteen-byte loop |
| WireFields.PackStructField | Godeps/_workspace/src/github.com/miekg/dns/msg.go:605-905 | a field is packed as specified within its share of len; with that share and a byte of room it neither runs out of buffer nor panics |
| WireFields.PackStructValue | Godeps/_workspace/src/github.com/miekg/dns/msg.go:599-906 | the fields of a structure one after the other, within the sum of their shares |
| WireFields.UnpackField | Godeps/_workspace/src/github.com/miekg/dns/msg.go:940-1340 | a field is read as specified; at the end of the message or of the record it keeps its zero value |
| WireFields.UnpackStructValue | Godeps/_workspace/src/github.com/miekg/dns/msg.go:927-1343 | the fields in turn, up to the end of the record |
| WireFields.ReadStructShapes | Godeps/_workspace/src/github.com/miekg/dns/msg.go:927-1343 | what is read has the kinds of fields asked for |
| WireFields.PackedLaid | Godeps/_workspace/src/github.com/miekg/dns/msg.go:599-906 | a field packed without a map, with room, takes at most its share of len and stands in the message |
| WireFields.ReadLaidStruct | Godeps/_workspace/src/github.com/miekg/dns/msg.go:927-1343 | fields that stand in the message one after the other are read back in canonical form, when only the last may run to the end of the record |
| Records.LenIsFields | Godeps/_workspace/src/github.com/miekg/dns/types.go:454-458 | len of every record type is the sum of the shares of its fields |
| Records.TxtLen | Godeps/_workspace/src/github.com/miekg/dns/types.go:583-589 | len of a TXT record is its header, its texts and one byte for each |
| WireLayout.LenIs | Godeps/_workspace/src/github.com/miekg/dns/types.go:242-737 | the number of every type, and the len of its records: the name and eleven bytes, and the data |
| WireLayout.TextsLenIs | Godeps/_workspace/src/github.com/miekg/dns/types.go:583-589 | each text adds its characters and a byte to len |
| WireLayout.SectionsLen | Godeps/_workspace/src/github.com/miekg/dns/types.go:219-222 | one more question adds its name and five bytes to len, one more record its own len |
| Bytes.BigEndian | Godeps/_workspace/src/github.com/miekg/dns/msg.go:784-800 | two and four byte numbers have their most significant byte first |
| WireLayout.RecordLayout | Godeps/_workspace/src/github.com/miekg/dns/msg.go:1402-1420 | a packed record byte by byte: name, type, class, TTL, length of the data, data |
| WireLayout.DataLayout | Godeps/_workspace/src/github.com/miekg/dns/msg.go:599-906 | the data of address, text and name records: the address or its last four bytes, the texts, the packed name |
| WireLayout.SrvLayout | Godeps/_workspace/src/github.com/miekg/dns/msg.go:599-906 | SRV data: priority, weight, port, and the target, never compressed |
| WireLayout.SoaLayout | Godeps/_workspace/src/github.com/miekg/dns/msg.go:599-906 | SOA data: two names, serial, refresh, retry, expire, minimum |
| WireLayout.AddressRead | Godeps/_workspace/src/github.com/miekg/dns/msg.go:1057-1071 | an IPv4 address is returned in sixteen bytes, the first twelve those of a mapped address |
| WireLayout.ReadAtEnd | Godeps/_workspace/src/github.com/miekg/dns/msg.go:927-1342 | what fields are read as where the message ends |
| Records.RawSetRdlength | Godeps/_workspace/src/github.com/miekg/dns/rawmsg.go:55-95 | the walk over the owner name finds the slot the specification names, or fails alike, and writes the length there and nothing else |
| Records.NameIsWire | Godeps/_workspace/src/github.com/miekg/dns/msg.go:276-381 | with or without a map, a packed name is counted non-empty labels and then a zero byte or a pointer |
| Records.SkipWire | Godeps/_workspace/src/github.com/miekg/dns/rawmsg.go:55-84 | the walk steps over a packed name as a whole |
| Records.SlotFound | Godeps/_workspace/src/github.com/miekg/dns/rawmsg.go:55-95 | after a record has been packed the slot found is the last header field, and the length that goes there is that of the data, unless that exceeds 16 bits |
| Records.PackRR | Godeps/_workspace/src/github.com/miekg/dns/msg.go:1402-1415 | a record is its owner, type, class, TTL, the length of its data and its data; it stays within len, and with a byte more it neither runs out of buffer nor panics |
| RecordReader.UnpackRR | Godeps/_workspace/src/github.com/miekg/dns/msg.go:1418-1438 | header first, then the record, which must end where its length says |
| RecordReader.ReadLaidRecord | Godeps/_workspace/src/github.com/miekg/dns/msg.go:1418-1438 | a record that stands in the message with the length of its data is read back with every field in canonical form |
| RecordReader.RecordRoundTrip | Godeps/_workspace/src/github.com/miekg/dns/msg.go:1402-1438 | a record packed without a map, with room, is read back with every field restored and the length of its data, ending where the packer ended |
| Messages.BitsRoundTrip | Godeps/_workspace/src/github.com/miekg/dns/msg.go:1537-1563 | every flag and code is recovered from the header word, the codes modulo 16; an opcode of 16 or more sets the response bit |
| WireLayout.HeaderLayout | Godeps/_workspace/src/github.com/miekg/dns/msg.go:1517-1574 | the message header: identifier, flags, and the numbers of questions, answers, authorities and additional records, in this order |
| WireLayout.QuestionLayout | Godeps/_workspace/src/github.com/miekg/dns/msg.go:1644-1649 | a question is its name, type and class |
| Messages.PackQuestionSection | Godeps/_workspace/src/github.com/miekg/dns/msg.go:1591-1596 | the questions one after the other, within their len |
| Messages.PackRRSection | Godeps/_workspace/src/github.com/miekg/dns/msg.go:1597-1602 | the records one after the other, within their len; the map keeps offsets below 16384 |
| Messages.PackRecordsAppend | Godeps/_workspace/src/github.com/miekg/dns/msg.go:1597-1614 | packing the sections one after the other is packing their concatenation |
| Messages.PackBuffer | Godeps/_workspace/src/github.com/miekg/dns/msg.go:1517-1616 | the buffer has one byte more than the uncompressed Len; packing, compressed or not, never runs out of it and never panics, and yields at most Len bytes, which are those specified |
| Packable.MessagePacksExactly | Godeps/_workspace/src/github.com/miekg/dns/msg.go:1517-1616 | with a byte more than Len, a message packs without compression exactly when its response code is at most 15 and its names, texts, addresses and data lengths are ones that pack; it takes exactly the bytes of its parts |
| Packable.NamePacksExactly | Godeps/_workspace/src/github.com/miekg/dns/msg.go:245-382 | a name packs exactly when it is empty, or ends with a dot and has labels of at most 63 characters, none but the first empty |
| Packable.TextsPackExactly | Godeps/_workspace/src/github.com/miekg/dns/msg.go:502-567 | texts pack exactly when each has at most 1025 characters that stand for at most 255 |
| MessageReader.UnpackQuestions | Godeps/_workspace/src/github.com/miekg/dns/msg.go:1644-1649 | as many questions as the header counts |
| MessageReader.UnpackSection | Godeps/_workspace/src/github.com/miekg/dns/msg.go:1660-1677 | as many records as the header counts |
| MessageReader.Unpack | Godeps/_workspace/src/github.com/miekg/dns/msg.go:1619-1684 | the header word taken apart, then the sections; a truncated message keeps no records |
| MessageReader.CountsLost | Godeps/_workspace/src/github.com/miekg/dns/msg.go:1571-1574 | with more than 65535 entries in a section the counts wrap and the message does not come back |
| MessageReader.MessageRoundTrip | Godeps/_workspace/src/github.com/miekg/dns/msg.go:1517-1684 | an uncompressed message that packs, with names that come back, is read back with every field and section restored, the Rdlength of each record set to the length its data were packed in, exactly when its counts fit 16 bits; a truncated one without records |
| Repacking.EveryMessageAsRead | Godeps/_workspace/src/github.com/miekg/dns/msg.go:1619-1684 | whatever bytes a message is read from, its names and texts are in the form in which they come back |
| Repacking.RecordStable | Godeps/_workspace/src/github.com/miekg/dns/msg.go:1410-1438 | a record in that form changes, when packed and read, in its Rdlength at most |
| Repacking.UnpackPackUnpack | Godeps/_workspace/src/github.com/miekg/dns/msg.go:1517-1684 | a message read from any bytes, none of its names empty, that packs without compression is read back as it was, but for the data lengths, which are those of the new bytes |
| Packable.MessageComesBack | Godeps/_workspace/src/github.com/miekg/dns/msg.go:1517-1684 | a message in the form of the unpacker that meets these conditions packs, and comes back as it was with the sizes of its data as Rdlengths |
| CompressedMessages.FieldSound | Godeps/_workspace/src/github.com/miekg/dns/msg.go:599-906 | packing a field with a map keeps the map sound and stays within the field's len |
| CompressedMessages.StructFails | Godeps/_workspace/src/github.com/miekg/dns/msg.go:927-1342 | a structure that holds a name whose chain is too long cannot be read, whatever its other fields are |
| CompressedMessages.RecordReadsBack | Godeps/_workspace/src/github.com/miekg/dns/msg.go:1402-1438 | from every later state of the message, a record packed with a map is read back when none of its names has a chain of more than ten pointers there, and refused otherwise |
| CompressedMessages.CompressedRoundTrip | Godeps/_workspace/src/github.com/miekg/dns/msg.go:1517-1684 | packing a whole message with compression is a sound run; the message is read back with every field and section restored, each Rdlength the length of the packed data, exactly when no name that is read has a chain of more than ten pointers (in a truncated message only the questions are read) |
| NsecBitmap.SetBitIs | Godeps/_workspace/src/github.com/miekg/dns/msg.go:763-764 | setting the bit of a type sets that bit and no other |
| NsecBitmap.PackNsec | Godeps/_workspace/src/github.com/miekg/dns/msg.go:731-771 | the packer computes the specified blocks, or overflows or panics alike, and writes nothing before its start |
| NsecBitmap.UnpackNsec | Godeps/_workspace/src/github.com/miekg/dns/msg.go:1127-1187 | the unpacker computes the specified list, or fails or panics alike |
| NsecBitmap.ByteTypesAre | Godeps/_workspace/src/github.com/miekg/dns/msg.go:1160-1187 | the most significant bit of an octet stands for its first type |
| NsecBitmap.BitmapExample | Godeps/_workspace/src/github.com/miekg/dns/msg.go:1127-1187 | a bitmap of two blocks, octet by octet, and its five types |
| NsecBitmap.SameWindow | Godeps/_workspace/src/github.com/miekg/dns/msg.go:743-764 | a type in the same window adds its bit to the block and nothing to the types before it |
| NsecBitmap.NewWindow | Godeps/_workspace/src/github.com/miekg/dns/msg.go:746-764 | a type in a new window starts a block behind the old one |
| NsecBitmap.BitmapRoundTrip | Godeps/_workspace/src/github.com/miekg/dns/msg.go:731-1187 | strictly ascending types packed into zeroed space are read back, ending where the packer ended, exactly when the list is empty or its first type is below 256; then blocks have 1 to 32 octets and windows strictly ascend (section 4.1.2 of RFC 4034) |
| NsecBitmap.PackFits | Godeps/_workspace/src/github.com/miekg/dns/msg.go:731-771 | ascending types are packed exactly when their last block ends inside the buffer |
| Labels.NextLabel | Godeps/_workspace/src/github.com/miekg/dns/labels.go:128-145 | the start of the next label behind an unescaped dot, or that there is none |
| Labels.NextIs | Godeps/_workspace/src/github.com/miekg/dns/labels.go:128-145 | a label ends at the first dot with an even number of backslashes in front of it that is not the last character |
| Labels.Split | Godeps/_workspace/src/github.com/miekg/dns/labels.go:107-123 | the offsets of all labels; nothing for the root |
| Labels.CountLabel | Godeps/_workspace/src/github.com/miekg/dns/labels.go:88-102 | the number of offsets that Split returns |
| Labels.CountWithDot | Godeps/_workspace/src/github.com/miekg/dns/labels.go:88-123 | a name has the same label offsets with and without its closing dot, as many as it has labels |
| Labels.SplitDomainName | Godeps/_workspace/src/github.com/miekg/dns/labels.go:10-39 | the labels between the offsets, without their dots |
| Labels.JoinCut | Godeps/_workspace/src/github.com/miekg/dns/labels.go:107-145 | the labels of a name make up the name |
| Labels.CommonSuffixIs | Godeps/_workspace/src/github.com/miekg/dns/labels.go:48-85 | the specified number is the length of the longest common suffix of two label lists |
| Labels.CompareDomainName | Godeps/_workspace/src/github.com/miekg/dns/labels.go:48-85 | comparing from the right gives the length of the longest common suffix of the label lists |
| Labels.IsSubDomain | Godeps/_workspace/src/github.com/miekg/dns/defaults.go:161-164 | true exactly when the parent is not empty and its labels are a suffix of the child's |
| Labels.SubDomainOrder | Godeps/_workspace/src/github.com/miekg/dns/defaults.go:161-164 | being a subdomain is reflexive on non-empty names, transitive, and antisymmetric up to the closing dot |
| Labels.Fqdn | Godeps/_workspace/src/github.com/miekg/dns/defaults.go:179-194 | the result ends in a dot, and a name that does is unchanged |
| Mux.ServeMux.Handle | Godeps/_workspace/src/github.com/miekg/dns/server.go:142-149 | the pattern is registered under its fully qualified form, and nothing else changes |
| Mux.ServeMux.HandleRemove | Godeps/_workspace/src/github.com/miekg/dns/server.go:157-164 | the pattern's fully qualified form is no longer registered, and nothing else changes |
| Mux.ServeMux.Match | Godeps/_workspace/src/github.com/miekg/dns/server.go:107-139 | the loop that reuses one buffer finds what the specified search over lower-cased suffixes finds |
| Mux.Dispatch | Godeps/_workspace/src/github.com/miekg/dns/server.go:107-139 | a query other than for DS gets the handler of the registered zone with the most labels that contains it, the root last, and none exactly when there is no such zone |
| Mux.DispatchDS | Godeps/_workspace/src/github.com/miekg/dns/server.go:118-139 | a query for DS gets the handler of the root or else of the zone with the fewest labels that contains it |
| Mux.LowerIs | Godeps/_workspace/src/github.com/miekg/dns/server.go:117-119 | two names are lower-cased to the same exactly when their characters are the same or letters 32 apart; the result has no capitals |
| Mux.DispatchIgnoresCase | Godeps/_workspace/src/github.com/miekg/dns/server.go:107-149 | queries whose characters are the same, or letters 32 apart, go to the same handler |
| Mux.ZoneServesItself | Godeps/_workspace/src/github.com/miekg/dns/server.go:107-149 | a zone registered in lower case serves its own name in any letter case |
| Mux.CandidateIsAncestor | Godeps/_workspace/src/github.com/miekg/dns/server.go:107-139 | every suffix looked up is an ancestor of the lower-cased query |
| Mux.AncestorIsCandidate | Godeps/_workspace/src/github.com/miekg/dns/server.go:107-139 | every ancestor of the lower-cased query is looked up |
| Gather.StepInv | resolver.go:213-312 | every step of producers, closer and gatherer keeps the count of what is sent, received and still to send; channels close only when all producers are done |
| Gather.NoSendOnClosed | resolver.go:242-312 | no producer ever sends on a closed channel |
| Gather.GathersEverything | resolver.go:213-312 | whatever the interleaving, once two closed receives are counted, even of one channel, the gatherer holds exactly the answers and errors the producers had to send, and no producer is left waiting |
| Gather.NoDeadlock | resolver.go:213-312 | until the gatherer returns some step is possible |
| Gather.RunsAreShort | resolver.go:213-312 | no run is longer than the items to send, the producers and four steps more |
| Gather.OneProducerInOrder | resolver.go:266-306 | a single producer's answers and errors arrive in the order it sends them |
| Gather.GatherFromChannels | resolver.go:213-235 | under any schedule the answers and errors returned are those of the producers |
| Storage.Walker.FindKeys | resolver.go:46-98 | the recursive walk with its pending value node appends exactly the specified records |
| Storage.EveryLeafOnce | resolver.go:46-103 | below a directory every leaf whose path has no component ending in ".ttl" is returned once, in tree order, with the first parseable TTL between it and the next value sibling or else the default, and nothing else |
| Storage.PathsComplete | resolver.go:46-98 | the paths listed are exactly those that lead to such a leaf |
| Storage.PathsOrdered | resolver.go:46-98 | the paths are listed in tree order |
| Storage.RecordsMatch | resolver.go:46-98 | the records are the leaves at the listed paths with the TTLs of their own siblings |
| Storage.GetRecords | resolver.go:44-103 | the records of the node behind a key; a single leaf takes the TTL stored under its key with ".ttl" |
| Storage.LeafRecord | resolver.go:84-99 | a key that leads to a leaf gives one record, whose TTL is the number stored in decimal under the key with .ttl behind it, and the default if there is none below 2^32 |
| Storage.SiblingTtl | resolver.go:53-79 | the TTL among siblings is the number in decimal of the first .ttl node that has one, in front of the next value node |
| Storage.ParseIs | resolver.go:58-94 | a text is taken for a number exactly when it is that number in decimal digits, zeros in front allowed, and the number fits |
| Resolver.NameToKey | resolver.go:349-362 | the parts of the name last first, empty ones left out, and the suffix |
| ResolverAnswers.KeyOfLast | resolver.go:349-363 | the last part of a name comes first in its key, behind a slash |
| ResolverAnswers.KeyExample | resolver.go:315-318 | www.foo.net. in any letter case is looked up at /net/foo/www/.A for addresses |
| ResolverAnswers.PartsCons | resolver.go:350 | the parts of a name are what stands between its dots |
| Resolver.KeysIgnoreCaseAndDot | resolver.go:314-318 | names that differ in letter case or in the closing dot are looked up under one key |
| Resolver.Convert | resolver.go:365-515 | a converted value has the type it was converted for |
| ResolverAnswers.SrvValue | resolver.go:437-472 | priority, weight and port in decimal and the target, with tabs between them, become this SRV record |
| ResolverAnswers.SrvOnly | resolver.go:437-472 | no other value becomes an SRV record |
| ResolverAnswers.SoaValue | resolver.go:474-512 | two names and four decimal numbers with tabs between them become this SOA record |
| ResolverAnswers.SoaOnly | resolver.go:474-512 | no other value becomes an SOA record |
| ResolverAnswers.OtherValues | resolver.go:365-435 | addresses as they are parsed, one text, or one name with its closing dot |
| ResolverAnswers.TypeNames | resolver.go:366-515 | the eight types that can be answered, by number and by the name under which they are stored |
| ResolverAnswers.OneForEachNode | resolver.go:328-345 | one record for every stored node, in order, with its TTL, class IN and its value; an error if one cannot be converted |
| Resolver.LookupAnswersForType | resolver.go:314-345 | the converted records behind the key; a missing key means none, any other failure or a bad value an error |
| Resolver.TypedAnswersOfType | resolver.go:331-342 | every record returned has the type that was looked up |
| ResolverAnswers.LookupCases | resolver.go:314-328 | a missing key means no records, storage that fails an error |
| ResolverAnswers.StoredLeaf | resolver.go:314-346 | a leaf behind the key is one record with the lower-cased name and its TTL |
| Resolver.Producers | resolver.go:242-312 | what each goroutine sends: one for each type for ANY, records or else a lone alias for a known type, nothing for others |
| Resolver.Ask | resolver.go:213-312 | the answers and errors gathered are those of the producers, in some order |
| Resolver.AnswersFit | resolver.go:275-304 | unless all types are asked for, answers have the type of the question or are one lone alias |
| ResolverAnswers.SingleAnswers | resolver.go:275-304 | for a known type the answers are its own records, or else the one alias; the errors are those of a failed lookup, or that of several aliases |
| ResolverAnswers.AnyAnswers | resolver.go:250-274 | for ANY the answers are the records of all eight types, and the errors those of the lookups that failed; for unknown types there are none |
| Resolver.Authority | resolver.go:111-134 | the loop up the domain finds what the specified search finds |
| Resolver.AuthorityIsNearest | resolver.go:111-134 | the authority is the SOA of the closest enclosing domain with exactly one, with the serial given, if nothing fails on the way |
| Resolver.NoAuthority | resolver.go:111-134 | there is no authority exactly when the first domain on the way that fails or has a single SOA fails, or there is no such domain |
| Resolver.EnclosingDomain | resolver.go:112-114 | the domains tried are the name itself and then what stands behind each of its dots |
| Resolver.Search | resolver.go:150-180 | the questions are tried in order until one has answers; an error of any that was tried is remembered |
| Resolver.FirstAnsweredIs | resolver.go:150-180 | the question that ends the search has answers and none before it has |
| Resolver.ClosestMatch | resolver.go:160-180 | the answers are those of the exact name if it has any, else of a wildcard for a suffix no shorter than any other that has answers |
| ResolverAnswers.QuestionsTried | resolver.go:154-181 | for a.b.c. the names tried are a.b.c., *.b.c. and *.c., in this order |
| Resolver.SuffixOfLevel | resolver.go:163-166 | what stands behind a level is the end of the name, and shorter for every further level |
| Resolver.Lookup | resolver.go:139-211 | the response is one of those specified |
| Resolver.ResponseShape | resolver.go:139-211 | a response is a server failure without answers exactly when something tried failed, a name error with one authority or else not authoritative when nothing has answers, or a success whose records all bear the question's name and fit its type |
| ResolverAnswers.AliasResponse | resolver.go:139-209 | without records of its own a question is answered with its one alias under its own name; with several the server fails |
| SingleFlight.StepInv | Godeps/_workspace/src/github.com/miekg/dns/singleinflight.go:33-57 | every atomic section of every caller keeps callers, calls and map in step |
| SingleFlight.Safe | Godeps/_workspace/src/github.com/miekg/dns/singleinflight.go:33-57 | in every run of any number of callers, at most one runs fn for a key; callers that returned from one call have its one published result; a follower is told it is shared, and the leader exactly when it has a follower |
| SingleFlight.DupsFixedAfterDelete | Godeps/_workspace/src/github.com/miekg/dns/singleinflight.go:54-58 | once the key is deleted the count of followers cannot change |
| SingleFlight.NoDeadlock | Godeps/_workspace/src/github.com/miekg/dns/singleinflight.go:33-57 | when no fn is running some caller can move until all have returned |
| SingleFlight.EveryoneCanReturn | Godeps/_workspace/src/github.com/miekg/dns/singleinflight.go:33-57 | from every state reached, once every fn returns, every caller can return |
| SingleFlight.RunsAreShort | Godeps/_workspace/src/github.com/miekg/dns/singleinflight.go:33-57 | no run is longer than five steps a caller |
| SingleFlight.Group.Enter | Godeps/_workspace/src/github.com/miekg/dns/singleinflight.go:34-49 | the section under the lock joins the call for the key or makes one |
| Reservoir.ExpDecaySampleHeap.Push | Godeps/_workspace/src/github.com/rcrowley/go-metrics/sample.go:543-548 | the array holds what the specified push leaves |
| Reservoir.ExpDecaySampleHeap.Pop | Godeps/_workspace/src/github.com/rcrowley/go-metrics/sample.go:550-559 | the root is returned and the array holds what the specified pop leaves |
| Reservoir.UpOrders | Godeps/_workspace/src/github.com/rcrowley/go-metrics/sample.go:569-578 | sifting up restores the heap order and keeps the samples; the parent of the root is the root |
| Reservoir.DownOrders | Godeps/_workspace/src/github.com/rcrowley/go-metrics/sample.go:580-596 | sifting down restores the heap order among the first n, keeps the samples, and leaves the rest in place |
| Reservoir.PushOrders | Godeps/_workspace/src/github.com/rcrowley/go-metrics/sample.go:543-548 | a push keeps the heap order and adds one sample |
| Reservoir.PopOrders | Godeps/_workspace/src/github.com/rcrowley/go-metrics/sample.go:550-559 | a pop keeps the heap order and removes one sample, none of those left having a smaller key |
| Reservoir.RescaleStays | Godeps/_workspace/src/github.com/rcrowley/go-metrics/sample.go:176-185 | pushing the rescaled samples into a new heap puts every sample back in its place, in heap order |
| Reservoir.ExpDecaySample.Update | Godeps/_workspace/src/github.com/rcrowley/go-metrics/sample.go:164-186 | the fields change as specified, with a rescale when the time has come |
| Reservoir.UpdateIs | Godeps/_workspace/src/github.com/rcrowley/go-metrics/sample.go:164-186 | an update counts one, evicts the root of a full heap, and adds its sample; later than t1 it multiplies every key by the factor and starts a new hour, otherwise it changes no key |
| Reservoir.RunRetains | Godeps/_workspace/src/github.com/rcrowley/go-metrics/sample.go:164-186 | over every run of updates, rescales included, the array is a heap, kept and evicted samples are exactly those inserted, the size is the smaller of capacity and updates, and no kept key but the newest is below an evicted one |
| Reservoir.RunInserts | Godeps/_workspace/src/github.com/rcrowley/go-metrics/sample.go:164-186 | the values inserted are those of the updates, in order, whatever the rescales |
| Reservoir.RunKeepsKeys | Godeps/_workspace/src/github.com/rcrowley/go-metrics/sample.go:164-186 | without a rescale the keys inserted are those of the updates |

## Left out

- PunycodeRoundTrip.RoundTrip: for an ASCII label that starts with the prefix and eight readable digits, and has a bad digit later, it allows a panic of the decoder besides the round trip; which of the two it is depends on how the numbers wrap.
- PunycodeRoundTrip.Replay: lengths are taken to fit 31 bits, as are those of labels that the source converts to 32-bit numbers.
- PunycodeCodec.Encode: the case table of `preprune` is a parameter; lengths are unbounded integers.
- Names.PackLabels: for names with backslashes packed with compression it states the bounds and the frame but not the bytes, as PackDomainName does.
- Names.PackDomainName: for names with backslashes packed with compression it states the bounds and the frame but not the bytes, because the map's keys then mix escaped and partly shifted text.
- Printing.PrintedPacksAlike: states packing with room and without a map; for a name that has a dot given by number and does not pack it says nothing.
- CompressedMessages.CompressedRoundTrip: states messages whose compressed names have no backslash and only characters the unpacker leaves unescaped, and whose section counts fit their 16-bit fields; keys of other names mix escaped and partly shifted text.
- WireFields.PackStructField: has the field kinds of the eight record types the resolver emits.
- WireFields.PackStructValue: has the field kinds of these eight types.
- WireFields.UnpackField: has the field kinds of these eight types.
- WireFields.UnpackStructValue: has the field kinds of these eight types.
- RecordReader.UnpackRR: records of types other than A, NS, CNAME, SOA, PTR, TXT, AAAA and SRV end in an outcome of their own; their field kinds are not part of this model.
- Messages.PackBuffer: messages with an OPT record (extended response codes) and with nil records are not modelled; `Len` is the uncompressed one.
- Reservoir.ExpDecaySample.Update: keys are real numbers; the exponential, the random number and the clock are parameters.
- Reservoir.RunRetains: keys are real numbers; the exponential, the random number and the clock are parameters, and the lock is not modelled.
- Mux.Dispatch: the read-write lock around the zone map is not modelled, and patterns are taken as registered in lower case.
- SingleFlight.EveryoneCanReturn: an `fn` that panics is not modelled.
- Resolver.Convert: parsing of addresses, and whether a stored name is good, are parameters.
- Resolver.Lookup: the storage does not change while a question is answered; parsing of addresses in stored values, whether a stored name is good, and the hour that becomes the serial are parameters; counters are left out; records are renamed as values, so sharing of a record between responses is not captured.
- Gather.GatherFromChannels: panics recovered inside a producer other than a send on a closed channel are not modelled.
- UTF-8 at both ends of the punycode codec, and letter case outside ASCII in the resolver, are not modelled.
- `ToPunycode` and `FromPunycode` split a whole domain into labels and add nothing hard.
- `Len` with compression is an estimate and bounds nothing.
- DNSSEC, TSIG and SIG(0) rest on cryptography that this model does not have.
- Sockets, timeouts, server start and stop, the etcd client, the zone-file parser, command-line flags and metrics exporters are input and output or formatting.
- Query filters are single conditions.
