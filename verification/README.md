# WarrenGuard verification

A model of the parts of WarrenGuard (a VPN-over-QUIC engine in Rust) that
parse, admit, schedule and firewall traffic, with proofs about them:

- the MASQUE tunnel: QUIC integers, HTTP/3 frames, the chunk-fed frame reader, the
  capsule buffer, QPACK field sections with their Huffman code and prefixed
  integers, request classification, CONNECT-UDP paths and authorities, datagram
  routes (`Varint`, `Http3`, `FrameReader`, `Capsules`, `HuffmanTable`, `Huffman`,
  `PrefixedInt`, `Qpack`, `StaticLines`, `ConnectUdp`, `Masque`, `Datagrams`, `UdpPump`,
  `CapsuleList`, with `Text` below them);
- admission: the once-per-connection credential check and tunnel budget of the
  MASQUE ingress, and the edge server's per-source and global limits, each over
  every interleaving of its requests (`MasqueAdmission`, `EdgeAdmission`);
- the macOS killswitch: the pf rule list, its agreement with the state-table purge,
  and the install, rollback and teardown of it over operations that may fail
  (`PfPolicy`, `PfAgreement`, `PfLifecycle`);
- the DAITA timer driver around an arbitrary framework (`Daita`, `TimerRuns`);
- JA4 fingerprinting's reassembly of a TLS ClientHello out of QUIC CRYPTO frames
  (`CryptoFrames`, `CryptoStream`, `PayloadOrder`);
- the encrypted-DNS proxy's obfuscation and its configuration packed into an IPv6
  address (`Xor`), and the build stamp's calendar (`Civil`).

Loops and objects of the source are methods and classes here. Each is proved equal
to a specification function of its inputs, and the theorems are about those
functions: round trips in both directions, independence of how a transport cuts a
stream, agreement of two views of one policy, and accounts kept by every run.
`dafny verify dfyconfig.toml` checks the whole project.

Arbitrary surroundings are parameters: the transport is any sequence of chunks with
a clean end or a reset, pf is any pattern of failing operations and purge reports,
the DAITA framework answers with any function of what it was told, the egress policy
and the credential verifier are any predicates, and time is a number.

## Findings

Where the code does not keep a promise of its documentation, or keeps it only under
a condition, the code is modelled as it is and the exact condition is proved.

- `admission_ttl` is documented as never longer than one period plus the grace. With
  a period under one second it is longer; the bound holds exactly from one second on
  (`NeverLongerExact`, `SubSecondPeriodOutlives`).
- The same admission is documented to last to the end of the current period. It does
  so exactly for periods of whole seconds (`EndOfPeriodExact`), and it ends on some
  boundary exactly when the period divides its whole seconds (`EndsOnPeriodExact`).
  With a period of one and a half seconds, an admission at the epoch ends on none
  (`FractionalPeriodEndsEarly`).
- Whether the capsule buffer refuses a stream can depend on how the transport cuts
  it: a capsule that fits one chunk, but exceeds the bound by more than one byte,
  passes in one piece and ends the tunnel in two (`CutDecidesVerdict`). For chunks of
  at most any given size, the cut has no say exactly when all capsules are small
  enough to wait for, or some capsule exceeds the bound plus one chunk, or too much is
  left at the end (`CutIsIrrelevantExact`). The reader's chunks are no longer than
  what was pending or one read (`NextData`, `PumpStream`).
- A host without a colon in brackets of its own is dialed without them, `[a]` as `a`.
  Any other host that begins with a bracket and has no colon, or holds a colon and a
  closing bracket anywhere, is not dialed (`AuthorityExact`, `BracketsAreTakenOff`).
- Percent escapes and ports are read by Rust's integer parser, which takes a plus
  sign. `+443` is a port (`PlusPortAccepted`), and the path parser agrees with a
  strict one exactly when it refuses too or the port has no plus sign
  (`StrictTargetExact`; `StrictAuthorityExact` for authorities). `%+A` is an escape
  (`PlusEscapeAccepted`); the decoder differs from a strict one exactly on inputs with
  such an escape that it accepts, and what it then gives is no host
  (`PlusEscapeExact`).
- The flows derived for the state table ignore the carrier's uid. For options an
  install accepts this makes no difference. For options in general the flows agree
  with the rules exactly under the condition of `AgreementExact`; `OwnerAloneDisagrees`
  is a case where they do not.
- An install that fails while loading rules leaves pf enabled on a host that had it
  off, unless enabling is what failed (`Install`, `FailedLoadLeavesPfOn`). A failed
  confirmation restores the enable state if its rollback works.
- CRYPTO segments without a gap reassemble to different bytes in different orders
  exactly when two of equal offset contradict each other at a position no
  earlier-starting segment reaches (`OrderIndependentExact`,
  `ContradictionDependsOnOrder`). The length never differs
  (`OrderIndependentOutcome`).
- The order of whole payloads matters exactly when two of them decide a byte
  differently, or when two that do not parse fail differently (`PayloadOrderExact`,
  `ErrorDependsOnOrder`).
- The static table's documentation says that an index outside its subset is rejected.
  The code reads such a line as a field of empty name (`StaticFieldExact`,
  `ForeignMeaning`). No such line changes how a request is classified
  (`ForeignLinesChangeNoRequest`).
- A prefixed integer from the mask plus 2^63 up, though it fits 64 bits, is written
  but not read back (`PrefixedInt.RoundTrip`, `LargestIsRefused`).

## Model

| member | source | states |
|---|---|---|
| `Varint.DecodeVarint` | crates/warrenguard-edge/src/varint.rs:10-26 | The byte-by-byte loop computes the big-endian value under the two-bit width tag; a result never uses more bytes than there are and is below 2^62 |
| `Varint.RoundTripAs` | crates/warrenguard-edge/src/varint.rs:10-41 | Every value in every width it fits (1, 2, 4 or 8 bytes) decodes to that value and width, whatever follows |
| `Varint.RoundTrip` | crates/warrenguard-edge/src/varint.rs:29-41 | Every value below 2^62 decodes from its own encoding, whatever follows, and the encoding has the shortest width |
| `Varint.DecodeIsEncodeAs` | crates/warrenguard-edge/src/varint.rs:10-26 | Whatever decodes is exactly one of the encodings: the bytes used are the value written in that width |
| `Varint.EncodeIsShortest` | crates/warrenguard-edge/src/varint.rs:29-41 | No input that decodes to a value is shorter than the value's encoding, and one of the same length is the encoding |
| `Varint.DecodeStable` | crates/warrenguard-ja4/src/varint.rs:28-46 | More bytes behind a complete integer change neither its value nor its length |
| `Varint.SampleEncodings` | crates/warrenguard-edge/src/varint.rs:10-26 | The sample encodings of Appendix A.1 of RFC 9000 decode to their values; a missing or cut one does not decode |
| `Http3.FrameRoundTrip` | crates/warrenguard-edge/src/http3.rs:45-79 | A written frame is read back with its type, payload and exact length, whatever follows |
| `Http3.HeaderStable` | crates/warrenguard-masque/src/frames.rs:137-155 | A frame header complete in a prefix of a stream is the header of the whole stream |
| `Http3.SixteenBytesHoldAHeader` | crates/warrenguard-masque/src/frames.rs:20-22 | Sixteen bytes always hold a complete frame header, so the reader's too-long branch cannot be taken |
| `Http3.ReadStreamOfFrames` | crates/warrenguard-masque/src/frames.rs:97-133 | Any list of writable frames reads back as its DATA payloads in order, with other frame types skipped, and ends cleanly |
| `Http3.FindFirstFrame` | crates/warrenguard-masque/src/frames.rs:66-95 | A HEADERS frame opening a stream is found, and exactly the bytes after it are left |
| `Http3.FrameBytes` | crates/warrenguard-edge/src/http3.rs:72-79 | A short frame is its type byte, its length byte and its payload |
| `Http3.FrameThen` | crates/warrenguard-masque/src/frames.rs:97-133 | In front of any bytes, a frame of type 0 adds its payload to the data, any other of at most 16384 bytes adds nothing, and a longer one is refused |
| `Http3.FrameSearched` | crates/warrenguard-masque/src/frames.rs:66-95 | In front of any bytes, a searched frame is found; another of at most 16384 bytes is skipped; a longer one, and data out of place, is refused |
| `FrameReader.Reader.constructor` | crates/warrenguard-masque/src/frames.rs:49-60 | The bytes ahead are the prefix followed by the transport's chunks, and the buffer bound is the larger of the prefix and one control frame plus one read |
| `FrameReader.Reader.Fill` | crates/warrenguard-masque/src/frames.rs:159-184 | Called with less than one control frame pending: no byte is lost or reordered, the bound holds, end of stream and reset are told apart |
| `FrameReader.Reader.FrameHeader` | crates/warrenguard-masque/src/frames.rs:137-155 | The header returned is the header of the bytes ahead whichever chunks carry it; a clean end, a cut header and a reset are told apart |
| `FrameReader.Reader.NextFrame` | crates/warrenguard-masque/src/frames.rs:75-95 | Equals the one-shot search over all the bytes ahead: the payload found and what is left, or the verdict |
| `FrameReader.Reader.TakePayload` | crates/warrenguard-masque/src/frames.rs:83-90 | Takes exactly the payload behind a header, or fails exactly when the stream is too short for it |
| `FrameReader.Reader.TakeData` | crates/warrenguard-masque/src/frames.rs:104-111 | Hands out a front part of the open DATA payload; what was handed out plus what is still ahead is unchanged |
| `FrameReader.Reader.SkipSome` | crates/warrenguard-masque/src/frames.rs:112-120 | Discards part of a skipped frame without changing the data ahead |
| `FrameReader.Reader.OpenFrame` | crates/warrenguard-masque/src/frames.rs:121-131 | Opens the next frame without changing the data ahead, or ends with the verdict of the one-shot reading |
| `FrameReader.Reader.NextData` | crates/warrenguard-masque/src/frames.rs:102-133 | Each chunk returned is the next part of the one-shot reading, no longer than what was pending or one read of 65536 bytes; end and error come only when no data is left and agree with its verdict |
| `FrameReader.VerdictExact` | crates/warrenguard-masque/src/frames.rs:97-184 | A reading is clean exactly at a frame boundary of a stream that ended; refused and cut-off streams are malformed, and a reset is reported as such |
| `FrameReader.DrainRest` | crates/warrenguard-masque/src/client.rs:417-419 | Draining from any reader state yields exactly the remaining data of the one-shot reading, and its verdict |
| `FrameReader.Drain` | crates/warrenguard-masque/src/tunnel.rs:46-61 | For every prefix, every cut into chunks and either way to end, the bytes pumped are those of the one-shot reading of the whole stream, and so is the way it ends |
| `FrameReader.ServeStream` | crates/warrenguard-masque/src/lib.rs:292-330 | Head then tunnel: the HEADERS payload and then all tunnel bytes are those of one-shot reading, however the stream is cut and wherever the prefix ends |
| `FrameReader.SentIsFrames` | crates/warrenguard-masque/src/client.rs:299-308 | The chunks a tunnel sends are the encodings of DATA frames, header and payload apart |
| `FrameReader.TunnelRoundTrip` | crates/warrenguard-masque/src/frames.rs:186-192 | Whatever one end sends in any number of writes the other reads back byte for byte, with a clean end, for every chunking |
| `FrameReader.ReadBack` | crates/warrenguard-masque/src/tunnel.rs:40-82 | The reader class itself returns the DATA bytes of any written frames and ends cleanly, for every chunking |
| `Capsules.CapsuleBuffer.Push` | crates/warrenguard-masque/src/tunnel.rs:170-190 | Forwards exactly the payloads of the capsules now complete, keeps exactly the incomplete rest, and accepts when that is within the bound; what those payloads are is stated on written capsules below |
| `CapsuleList.ReadWritten` | crates/warrenguard-masque/src/tunnel.rs:174-178 | A written capsule of any type, in any integer widths, is read as that type and value, whatever follows |
| `CapsuleList.PayloadOfWritten` | crates/warrenguard-masque/src/tunnel.rs:180-184 | Of the capsules a peer may write, exactly a DATAGRAM capsule on context 0 gives a payload, and gives all of it: another type, another context or no readable context gives none |
| `CapsuleList.ForwardedCapsules` | crates/warrenguard-masque/src/tunnel.rs:170-190 | For any list of written capsules and an incomplete end: forwarded are exactly the payloads of its UDP datagrams in order, and kept is exactly the end |
| `CapsuleList.EveryStream` | crates/warrenguard-masque/src/tunnel.rs:170-190 | Every byte stream is some list of written capsules and an incomplete end |
| `CapsuleList.SmallList` | crates/warrenguard-masque/src/tunnel.rs:186 | Capsules of at most 16385 bytes with an end of at most 16384 satisfy the condition under which no cut is refused |
| `CapsuleList.PumpCapsuleList` | crates/warrenguard-masque/src/tunnel.rs:146-155 | From writer to UDP socket, for every transport: an accepted tunnel forwards exactly the UDP datagrams written, in order, and short capsules are always accepted |
| `CapsuleList.CapsuleBytes` | crates/warrenguard-masque/src/tunnel.rs:170-190 | The bytes 00 03 00 68 69 forward the payload 68 69 |
| `Capsules.ReadInParts` | crates/warrenguard-masque/src/tunnel.rs:173-189 | Reading a stream in two parts forwards the same payloads in the same order and leaves the same rest as reading it whole |
| `Capsules.PumpCapsules` | crates/warrenguard-masque/src/tunnel.rs:146-155 | The pump over any chunks stops at the first refusal and has forwarded what the specification of the delivery says |
| `Capsules.AcceptedDelivery` | crates/warrenguard-masque/src/tunnel.rs:163-190 | An accepted delivery forwards what the whole stream forwards, however it was cut |
| `Capsules.AcceptedSomehowExact` | crates/warrenguard-masque/src/tunnel.rs:170-190 | For chunks of at most any given size: some cut of a stream is accepted if and only if every capsule takes at most the bound plus one chunk and the unfinished end is within the bound |
| `Capsules.AcceptedHoweverCutExact` | crates/warrenguard-masque/src/tunnel.rs:170-190 | Every such cut is accepted if and only if no capsule exceeds the bound by more than one byte and the unfinished end is within it |
| `Capsules.CutIsIrrelevantExact` | crates/warrenguard-masque/src/tunnel.rs:170-190 | All such cuts get one verdict if and only if the capsules are that small or no such cut is accepted, by the two conditions above |
| `Capsules.CutDecidesVerdict` | crates/warrenguard-masque/src/tunnel.rs:186 | Every capsule that fits one chunk and exceeds the bound by more than one byte is accepted in one piece and refused in two |
| `UdpPump.PumpStream` | crates/warrenguard-masque/src/tunnel.rs:146-155 | Reader and buffer together, for every transport: the pushes are a cut of the tunnel bytes into chunks no longer than what was pending or one read; an accepted stream forwards exactly its payloads; one of small capsules is always accepted, and one that such chunks cannot absorb always refused |
| `HuffmanTable.EveryRowPlaced` | crates/warrenguard-edge/src/huffman.rs:16-274 | Every symbol's code is its place in the run of codes of its length |
| `HuffmanTable.EveryPlaceFilled` | crates/warrenguard-edge/src/huffman.rs:16-274 | Every code of every run belongs to a symbol with that code and length |
| `HuffmanTable.Tiling` | crates/warrenguard-edge/src/huffman.rs:16-274 | The runs tile the code space: each starts at twice the end of the previous, and the last ends at 2^30, so the code is prefix-free and complete |
| `Huffman.LookupIsTable` | crates/warrenguard-edge/src/huffman.rs:279-287 | Looking up a length and code gives a symbol exactly when the table holds that row |
| `Huffman.CodesDistinct` | crates/warrenguard-edge/src/huffman.rs:279-287 | No two symbols share a row, so building the map drops none |
| `Huffman.CodeMapGet` | crates/warrenguard-edge/src/huffman.rs:279-287 | The map built from the table answers exactly as the lookup |
| `Huffman.OpenStep` | crates/warrenguard-edge/src/huffman.rs:301-316 | From an unfinished code, one more bit either completes a symbol or is again unfinished, and is never longer than 30 bits |
| `Huffman.ReadSymbol` | crates/warrenguard-edge/src/huffman.rs:301-316 | The code of any byte followed by anything decodes to that byte followed by the decoding of the rest |
| `Huffman.AcceptedBits` | crates/warrenguard-edge/src/huffman.rs:295-330 | Accepted bits are the codes of the result followed by fewer than eight one bits |
| `Huffman.DecodeInvertsEncode` | crates/warrenguard-edge/src/huffman.rs:295-330 | Every byte string decodes from its section 5.2 of RFC 7541 encoding |
| `Huffman.EncodeInvertsDecode` | crates/warrenguard-edge/src/huffman.rs:295-330 | Whatever decodes is the encoding of its result, so no two inputs decode alike |
| `Huffman.AcceptsExactlyEncodings` | crates/warrenguard-edge/src/huffman.rs:318-330 | An input is accepted if and only if it is an encoding; bad padding, the end-of-string symbol and incomplete codes are all refused |
| `Huffman.DecodeHuffman` | crates/warrenguard-edge/src/huffman.rs:295-330 | The bit loop over the map computes the specification decoder, and its over-long branch is dead |
| `PrefixedInt.ReadPrefixedInt` | crates/warrenguard-edge/src/qpack.rs:76-98 | The loop with its shift bound and 64-bit overflow checks computes the specification reader |
| `PrefixedInt.WritePrefixedInt` | crates/warrenguard-edge/src/qpack.rs:192-205 | The loop appends the specification encoding and leaves what was there |
| `PrefixedInt.ReadContinuation` | crates/warrenguard-edge/src/qpack.rs:84-97 | Continuation bytes written for a number add exactly that number at their shift |
| `PrefixedInt.RefuseContinuation` | crates/warrenguard-edge/src/qpack.rs:84-97 | A number of more than 63 continuation bits is refused |
| `PrefixedInt.RoundTrip` | crates/warrenguard-edge/src/qpack.rs:76-98 | For every prefix width, flags and 64-bit value: reads back if and only if the value is below the prefix mask plus 2^63, and is refused otherwise |
| `PrefixedInt.LargestIsRefused` | crates/warrenguard-edge/src/qpack.rs:93-95 | The largest 64-bit value is written and not read back |
| `PrefixedInt.ReadUsed` | crates/warrenguard-edge/src/qpack.rs:76-98 | A result used at least one byte and no more than there are |
| `PrefixedInt.SampleIntegers` | crates/warrenguard-edge/src/qpack.rs:192-205 | The examples of Appendix C.1 of RFC 7541 are written as printed there |
| `Qpack.DecodeFieldSection` | crates/warrenguard-edge/src/qpack.rs:124-188 | The loop over field lines computes the specification decoder, error for error; what each line means is stated in bytes below |
| `StaticLines.StaticFieldExact` | crates/warrenguard-edge/src/qpack.rs:33-71 | Every index resolves to its own row of the table, spelled out, and an index without a row to the empty name and value |
| `StaticLines.IndexedBytes` | crates/warrenguard-edge/src/qpack.rs:136-155 | The one-byte and two-byte indexed lines give the row of their index, or the empty field without one |
| `StaticLines.NameRefBytes` | crates/warrenguard-edge/src/qpack.rs:156-174 | A name-reference line gives the name of its index, empty without a row, with the value that follows |
| `StaticLines.NamedBytes` | crates/warrenguard-edge/src/qpack.rs:175-180 | A literal line gives the name and the value that follow |
| `StaticLines.DynamicLineRefused` | crates/warrenguard-edge/src/qpack.rs:135-186 | Every line that refers to the dynamic table is refused, by its first byte |
| `StaticLines.SectionBytes` | crates/warrenguard-edge/src/qpack.rs:124-188 | The section 00 00 cf is the one field :method CONNECT, and 00 00 fc one empty field |
| `StaticLines.ForeignMeaning` | crates/warrenguard-edge/src/qpack.rs:144-173 | A line whose index has no row, of any size, means a field of empty name that keeps its value |
| `StaticLines.ForeignLinesChangeNoHeader` | crates/warrenguard-edge/src/qpack.rs:144-173 | Such lines, anywhere in a section, change no lookup of a named header |
| `StaticLines.ForeignLinesChangeNoRequest` | crates/warrenguard-edge/src/masque.rs:112-136 | Such lines never change what a request is classified as |
| `StaticLines.PairGoesByIndex` | crates/warrenguard-edge/src/qpack.rs:223-228 | A field that is a whole row is sent as an index of that row |
| `StaticLines.NameGoesByReference` | crates/warrenguard-edge/src/qpack.rs:229-232 | Otherwise a field whose name has a row is sent with the lowest index of that name and its own value |
| `StaticLines.OthersGoInFull` | crates/warrenguard-edge/src/qpack.rs:233-238 | Any other field is sent with name and value in full |
| `Qpack.EncodeFieldSection` | crates/warrenguard-edge/src/qpack.rs:220-241 | The loop appends, field by field, the representation chosen for each |
| `Qpack.WriteField` | crates/warrenguard-edge/src/qpack.rs:222-239 | One field goes out as its indexed, name-referenced or literal line |
| `Qpack.WriteString` | crates/warrenguard-edge/src/qpack.rs:208-211 | A value goes out as a raw literal with a seven-bit length |
| `Qpack.FindIndexAt` | crates/warrenguard-edge/src/qpack.rs:66-71 | Every row of the static table is found by its index |
| `Qpack.ReadBackLiteral` | crates/warrenguard-edge/src/qpack.rs:102-117 | A raw or Huffman-coded literal with any length prefix reads back as its text, whatever follows |
| `Qpack.ReadBackLine` | crates/warrenguard-edge/src/qpack.rs:135-186 | Every kind of field line (indexed, name reference, literal name; never-index bit or not; raw or coded strings) reads back as its meaning |
| `Qpack.DecodeAnyRepresentation` | crates/warrenguard-edge/src/qpack.rs:124-188 | Any sequence of representations after any section prefix with zero insert count decodes to the meanings in order |
| `Qpack.DynamicTableRefused` | crates/warrenguard-edge/src/qpack.rs:125-130 | A section with any other insert count is refused, whatever follows |
| `Qpack.ChooseMeans` | crates/warrenguard-edge/src/qpack.rs:222-239 | The representation the encoder picks means the field it was picked for |
| `Qpack.FieldSectionRoundTrip` | crates/warrenguard-edge/src/qpack.rs:124-241 | Every list of fields decodes from its encoding, names and values, order and duplicates kept |
| `CryptoFrames.SkipVarint` | crates/warrenguard-ja4/src/frames.rs:70-73 | Moves past exactly one integer; past the end it reports truncation |
| `CryptoFrames.SkipRanges` | crates/warrenguard-ja4/src/frames.rs:38-41 | Any announced count of ACK ranges, however large, ends after at most as many rounds as there are bytes, with the specification's result |
| `CryptoFrames.SkipAckBody` | crates/warrenguard-ja4/src/frames.rs:31-47 | Moves past exactly an ACK body, with or without ECN counts, or fails as the specification does |
| `CryptoFrames.ReadCryptoBody` | crates/warrenguard-ja4/src/frames.rs:49-61 | Reads exactly one offset, length and data, or fails as the specification does |
| `CryptoFrames.CryptoSegments` | crates/warrenguard-ja4/src/frames.rs:19-67 | The frame loop computes the specification parser, error for error |
| `CryptoFrames.SkipAckFrame` | crates/warrenguard-ja4/src/frames.rs:31-47 | Every written ACK frame, of any number of ranges and any integer widths, is skipped exactly |
| `CryptoFrames.ReadCryptoFrame` | crates/warrenguard-ja4/src/frames.rs:49-61 | Every written CRYPTO frame gives its offset and data back |
| `CryptoFrames.ParseFrames` | crates/warrenguard-ja4/src/frames.rs:19-67 | Any sequence of PADDING, PING, ACK and CRYPTO frames parses to its CRYPTO segments in order |
| `CryptoFrames.ParsedIsFrames` | crates/warrenguard-ja4/src/frames.rs:19-67 | Conversely, whatever parses is a sequence of such frames, in some integer widths, with exactly those segments |
| `CryptoFrames.PayloadVectors` | crates/warrenguard-ja4/src/frames.rs:19-67 | One literal payload for each frame type and each error |
| `CryptoFrames.AckError` | crates/warrenguard-ja4/src/frames.rs:31-47 | An ACK body fails only by a cut integer, and is reported so |
| `CryptoStream.SortByOffset` | crates/warrenguard-ja4/src/frames.rs:88 | Sorted by offset, and a permutation |
| `CryptoStream.SortIsStable` | crates/warrenguard-ja4/src/frames.rs:88 | The segments of each offset keep their order of arrival |
| `CryptoStream.ReassembleClientHello` | crates/warrenguard-ja4/src/frames.rs:83-109 | The loops over payloads and sorted segments compute the specification |
| `CryptoStream.StitchSorted` | crates/warrenguard-ja4/src/frames.rs:90-108 | Over sorted segments, stitching succeeds exactly when all bytes up to the farthest end are covered, and every byte out was carried at its position |
| `CryptoStream.ReassembleExact` | crates/warrenguard-ja4/src/frames.rs:83-109 | Success if and only if the segments are not all empty and leave no gap; the result reaches the farthest end and each byte comes from a segment covering it; the error is always the missing hello |
| `CryptoStream.ReassembleStream` | crates/warrenguard-ja4/src/frames.rs:75-109 | Segments cut from one stream, overlapping, repeated and reordered, give back its covered front part exactly |
| `CryptoStream.ResultIsDecided` | crates/warrenguard-ja4/src/frames.rs:92-104 | Every byte of the result is that of a segment holding its position, no earlier-starting segment reaching it |
| `CryptoStream.FirstArrivalDecides` | crates/warrenguard-ja4/src/frames.rs:88-104 | Among the segments that could decide a byte, the one that arrives first does |
| `CryptoStream.OrderIndependentExact` | crates/warrenguard-ja4/src/frames.rs:83-109 | The result is the same in every order of arrival if and only if reassembly fails, or segments of equal offset carry equal bytes wherever no earlier-starting segment reaches |
| `CryptoStream.DistinctOffsetsTie` | crates/warrenguard-ja4/src/frames.rs:83-109 | Segments whose offsets differ may contradict each other and still give one result in every order |
| `CryptoStream.OrderIndependent` | crates/warrenguard-ja4/src/frames.rs:88-109 | Segments cut from one stream give one result in every order of the segments |
| `CryptoStream.OrderIndependentOutcome` | crates/warrenguard-ja4/src/frames.rs:83-109 | For any segments, contradicting or not, success and length do not depend on the order |
| `CryptoStream.ContradictionDependsOnOrder` | crates/warrenguard-ja4/src/frames.rs:88-104 | Two segments at offset 0 with different bytes: the first to arrive wins, so the two orders differ |
| `PayloadOrder.ResultIsFirst` | crates/warrenguard-ja4/src/frames.rs:88-104 | Each byte of the result is that of the first segment to arrive of those that decide it |
| `PayloadOrder.PermutedSegments` | crates/warrenguard-ja4/src/frames.rs:84-87 | Payloads in another order carry the same segments in another order |
| `PayloadOrder.FailingPayloadsExact` | crates/warrenguard-ja4/src/frames.rs:84-87 | When some payload does not parse, the result is the same in every order of payloads if and only if all that do not parse fail alike |
| `PayloadOrder.PayloadOrderExact` | crates/warrenguard-ja4/src/frames.rs:83-109 | The result is the same in every order of payloads if and only if those that do not parse fail alike, or all parse and there is a gap, or all parse and no two payloads decide a byte differently, each by its own first deciding segment |
| `PayloadOrder.ConsistentPayloads` | crates/warrenguard-ja4/src/frames.rs:75-109 | Payloads whose segments are cut from one stream give one result in every order |
| `PayloadOrder.ErrorDependsOnOrder` | crates/warrenguard-ja4/src/frames.rs:84-87 | A cut-off payload and one with a foreign frame: the first to arrive decides the error |
| `CryptoStream.HandshakeRoundTrip` | crates/warrenguard-ja4/src/frames.rs:19-109 | A hello cut into CRYPTO frames in any way, among any other frames, over any number of payloads in any order, is reassembled exactly |
| `Civil.ClosedForm` | crates/warrenguard-buildinfo/src/build_time.rs:68-80 | Counting days year by year under the Gregorian leap rule has a closed form, before and after 1970 |
| `Civil.YearOfEraExact` | crates/warrenguard-buildinfo/src/build_time.rs:72 | The year-of-era formula is the year for every day of the 400-year era |
| `Civil.MonthOfYear` | crates/warrenguard-buildinfo/src/build_time.rs:75-79 | The month and day formulas give a date that exists and lies as many days after the first of March as asked |
| `Civil.CivilIsCalendar` | crates/warrenguard-buildinfo/src/build_time.rs:68-80 | For every integer the result is a date that exists and whose day number, counted by the calendar, is the input |
| `Civil.CivilIncreases` | crates/warrenguard-buildinfo/src/build_time.rs:68-80 | Later days give later dates |
| `Civil.CivilInvertsCalendar` | crates/warrenguard-buildinfo/src/build_time.rs:68-80 | Every date of the calendar comes back from its day number |
| `Civil.StampRecombines` | crates/warrenguard-buildinfo/src/build_time.rs:49-63 | A stamp exists exactly for non-negative seconds, its parts are in range, and they recombine to the seconds |
| `PfPolicy.PfRuleSpecs` | crates/warrenguard-killswitch-os/src/macos.rs:137-219 | The rule list built push by push is the specification list |
| `PfPolicy.TunNames` | crates/warrenguard-killswitch-os/src/lib.rs:436-452 | Which interface names an install accepts, at both length bounds and outside the letters, digits, underscore and hyphen; and that some options of every shape are accepted |
| `PfPolicy.TunNameChars` | crates/warrenguard-killswitch-os/src/lib.rs:443-446 | The characters an interface name may hold, by code points |
| `PfPolicy.TunNameLength` | crates/warrenguard-killswitch-os/src/lib.rs:436-452 | A name is accepted if and only if it has 1 to 15 characters and each of them may stand in one |
| `PfAgreement.RulesAreThePolicy` | crates/warrenguard-killswitch-os/src/macos.rs:137-219 | For every packet, pf's first-quick-else-last evaluation of the rules passes exactly what the stated policy allows: loopback, the tunnel, the scoped carrier, and the LAN and DHCP exceptions when on |
| `PfAgreement.PermitsIsThePolicy` | crates/warrenguard-killswitch-os/src/macos.rs:345-374 | The flows derived from the rules permit exactly the open destinations, and the carrier only when it is not interface-scoped |
| `PfAgreement.EverywhereIsThePolicy` | crates/warrenguard-killswitch-os/src/macos.rs:137-219 | A state passes on every interface and for every owner exactly when its destination is open or the carrier is unscoped |
| `PfAgreement.StatesAgreeWithRules` | crates/warrenguard-killswitch-os/src/macos.rs:337-375 | For options an install accepts, the state table permits a flow if and only if the rules pass its packets on every interface and for every owner |
| `PfAgreement.KeptExactly` | crates/warrenguard-killswitch-os/src/macos.rs:406-423 | A state is kept if and only if both its ends are in 127.0.0.0/8 or ::1, as numeric ranges, or the rules pass it everywhere |
| `PfAgreement.LoopbackIsOnHost` | crates/warrenguard-killswitch-os/src/macos.rs:389-391 | The loopback test is membership in those ranges |
| `PfAgreement.LanRanges` | crates/warrenguard-killswitch-os/src/macos.rs:137-219 | The LAN nets the rules open are exactly the stated numeric ranges of both families |
| `PfAgreement.AgreementExact` | crates/warrenguard-killswitch-os/src/lib.rs:241-263 | Without validation the agreement holds if and only if an interface is set, or no uid is set, or every exit address is already an allowed LAN address: the flows ignore the uid |
| `PfAgreement.OwnerAloneDisagrees` | crates/warrenguard-killswitch-os/src/macos.rs:345-368 | Options with a uid and no interface, and a flow they keep that the rules block for another process |
| `PfAgreement.ConfirmedLeavesNoBypass` | crates/warrenguard-killswitch-os/src/macos.rs:452-489 | A purge is confirmed if and only if every survivor is readable and has both ends on the host, as those ranges, or is passed everywhere |
| `PfAgreement.OffTunnelIsScoped` | crates/warrenguard-killswitch-os/src/macos.rs:137-219 | A packet that passes outside loopback and the tunnel goes to an open destination, or is the carrier's own on its own interface |
| `PfAgreement.PartialLoadFailsClosed` | crates/warrenguard-killswitch-os/src/macos.rs:650-664 | A non-empty front part of the rules passes no packet that the whole list blocks |
| `PfAgreement.EmptyAnchorPasses` | crates/warrenguard-killswitch-os/src/macos.rs:650-664 | An anchor without rules blocks nothing |
| `PfLifecycle.ApplyRules` | crates/warrenguard-killswitch-os/src/macos.rs:638-669 | Succeeds exactly when every operation works; then the anchor, emptied first, holds exactly the rules. Otherwise it stops at the first failing operation: before any rule the anchor is untouched, and after one a flush follows that leaves it empty if it works and the rules that went in if not |
| `PfLifecycle.PrepareAnchor` | crates/warrenguard-killswitch-os/src/macos.rs:639-647 | Enable, register, empty, in that order, stopping at the first failure |
| `PfLifecycle.AppendRules` | crates/warrenguard-killswitch-os/src/macos.rs:648-668 | Into an emptied anchor: all rules in order, or a clean-up flush after the first that fails |
| `PfLifecycle.RollBackInstall` | crates/warrenguard-killswitch-os/src/macos.rs:673-703 | Flush, then disable only if pf was off; when they work the anchor is empty and the enable state is the original |
| `PfLifecycle.Preflight` | crates/warrenguard-killswitch-os/src/macos.rs:746-799 | Touches neither rules nor enable state; the outcome is decided by validation, then the two operations, then whether a bypass survived |
| `PfLifecycle.Confirm` | crates/warrenguard-killswitch-os/src/macos.rs:803-833 | Succeeds exactly when the purge works and leaves no bypass; otherwise rolls back |
| `PfLifecycle.Install` | crates/warrenguard-killswitch-os/src/macos.rs:742-856 | How far it gets is a function of validation, failing operations and purge reports. Success: pf on, exactly the intended rules in order, operations in the order snapshot, purge, load, purge, no bypass left. Refusal: rules and enable state untouched. Failed load: pf on unless enabling failed, the anchor as before, empty, or no more permissive than intended. Failed confirmation: the rollback runs, and if it works the anchor is empty and the enable state restored |
| `PfLifecycle.FailedLoadLeavesPfOn` | crates/warrenguard-killswitch-os/src/macos.rs:638-646 | On every host with pf off where registering the anchor is the first operation to fail, the install ends there with pf on |
| `PfLifecycle.FailedLoadExample` | crates/warrenguard-killswitch-os/src/macos.rs:638-646 | Such a host: one that has done nothing yet and fails its fourth operation |
| `PfLifecycle.InstallOrder` | crates/warrenguard-killswitch-os/src/macos.rs:638-856 | The order of operations: the enable state is read before it is set, the anchor emptied before the first rule, states purged before and after all rules |
| `PfLifecycle.RefusalOrder` | crates/warrenguard-killswitch-os/src/macos.rs:746-799 | An install refused before loading issued nothing for options it does not accept, and otherwise at most a read of the enable state and a purge |
| `PfLifecycle.Killswitch.Uninstall` | crates/warrenguard-killswitch-os/src/macos.rs:866-874 | Flushes and restores the enable state; fails exactly when the flush does; the guard is disarmed either way |
| `PfLifecycle.Killswitch.RestoreEnableState` | crates/warrenguard-killswitch-os/src/macos.rs:881-896 | Turns pf off only when it was off before the install |
| `PfLifecycle.Killswitch.Drop` | crates/warrenguard-killswitch-os/src/macos.rs:899-940 | Tears down as an uninstall would when still armed, and does nothing after one |
| `PfLifecycle.Session` | crates/warrenguard-killswitch-os/src/macos.rs:705-940 | Install, perhaps uninstall, then drop: exactly one teardown, and with working teardown operations an empty anchor and the original enable state |
| `Daita.Framework.Trigger` | crates/warrenguard-daita/src/daita.rs:334-349 | Records what the framework is handed; a disabled framework never acts |
| `Daita.DaitaState.ApplyAction` | crates/warrenguard-daita/src/daita.rs:642-698 | One action changes one machine's slot, as the specification says for its kind; what that is over whole lists and runs is stated below |
| `TimerRuns.ActionsDecide` | crates/warrenguard-daita/src/daita.rs:642-698 | After any list of actions, a machine's action timer is what the last action to set or cancel it left, armed as padding or as a block of its duration at its own timeout; the internal timer is the latest of the deadlines asked for since the last replacement or cancel; the block end is untouched |
| `TimerRuns.OthersUntouched` | crates/warrenguard-daita/src/daita.rs:642-698 | A list of actions creates slots exactly for the machines it names and leaves every other slot as it was |
| `TimerRuns.DrainLeavesInternal` | crates/warrenguard-daita/src/daita.rs:587-636 | Draining changes no internal timer and no set of machines |
| `TimerRuns.ActionLife` | crates/warrenguard-daita/src/daita.rs:587-698 | In every run: an armed timer does not fire before its deadline; the first drain at or after it fires it once, as a block exactly if it was armed as one, and clears it |
| `TimerRuns.BlockLife` | crates/warrenguard-daita/src/daita.rs:587-698 | In every run: a block begins when its timer fires, lasts for its duration through whatever else is drained, ends at the first drain at or after that, and then is gone; one of no duration ends at once |
| `Daita.ApplyAllKeeps` | crates/warrenguard-daita/src/daita.rs:642-698 | No action touches a block end, and an action deadline stays armed exactly when its kind is known |
| `Daita.ArmedBy` | crates/warrenguard-daita/src/daita.rs:642-698 | A deadline found after a list of actions was there before or was armed by one of them |
| `Daita.DaitaState.FireEvents` | crates/warrenguard-daita/src/daita.rs:509-515 | The framework sees the events once, and its answers are applied in order |
| `Daita.DaitaState.DrainSlot` | crates/warrenguard-daita/src/daita.rs:594-620 | One machine's slot is drained and every counter moves by what happened to it |
| `Daita.DaitaState.DrainSlots` | crates/warrenguard-daita/src/daita.rs:587-620 | In whatever order the map yields the machines, every slot is drained once; the ids, begins and ends are exactly those due |
| `Daita.DaitaState.FeedBack` | crates/warrenguard-daita/src/daita.rs:621-634 | One begin per machine that starts blocking, then at most one end; all answers are applied |
| `Daita.BatchesExact` | crates/warrenguard-daita/src/daita.rs:621-634 | The framework hears one batch per begin, in order, and then one for the end if there is one |
| `Daita.DrainedIsQuiet` | crates/warrenguard-daita/src/daita.rs:594-620 | After the first phase nothing is due |
| `Daita.DueWasArmedNow` | crates/warrenguard-daita/src/daita.rs:621-634 | Whatever is due after the feedback was armed by it, for this very instant |
| `Daita.DaitaState.DrainExpired` | crates/warrenguard-daita/src/daita.rs:587-636 | Returns the machines due on entry, once each; the framework hears exactly of the begins and of an end if any; nothing older stays due; ids returned equal paddings plus begins counted |
| `Daita.DaitaState.NextTimer` | crates/warrenguard-daita/src/daita.rs:574-579 | None exactly when nothing is armed; otherwise an armed deadline no later than any other |
| `Daita.DaitaState.SleepDeadline` | crates/warrenguard-daita/src/daita.rs:526-528 | Never later than an armed deadline, so no wake-up is missed |
| `Daita.Run` | crates/warrenguard-daita/src/daita.rs:412-441 | Over every run and every framework the metrics are exact counts, saturated: paddings plus begins are the ids returned, and begins are ends plus pending blocks plus blocks taken over by a later one |
| `MasqueAdmission.Record` | crates/warrenguard-masque/src/lib.rs:292-476 | A justified event keeps the history safe and moves the slot holders and the running verification by itself alone |
| `MasqueAdmission.StepInv` | crates/warrenguard-masque/src/lib.rs:292-476 | Every step of every request keeps the invariant |
| `MasqueAdmission.RunIsSafe` | crates/warrenguard-masque/src/lib.rs:292-476 | In every interleaving: a target is dialed only by a slot holder that named it, after the policy permitted it, on a connection with a completed verification; a UDP target is named only when the peer has announced datagrams; slots free plus held equal the cap |
| `MasqueAdmission.ArrivalExact` | crates/warrenguard-masque/src/lib.rs:337-365 | In every run a request that arrives gets a slot if and only if fewer than the cap are held, becomes a holder then, and changes nothing otherwise |
| `MasqueAdmission.LeaveMakesRoom` | crates/warrenguard-masque/src/lib.rs:337-365 | In every run a request that leaves holds no slot any more, and the next to arrive gets one |
| `MasqueAdmission.CanAlwaysDial` | crates/warrenguard-masque/src/lib.rs:337-432 | Progress: from every reachable state, a slot holder with a permitted target, over TCP or with datagrams announced, has a possible sequence of steps that ends in its dial |
| `MasqueAdmission.FirstDial` | crates/warrenguard-masque/src/lib.rs:292-432 | On a fresh connection with a slot to give, the seven steps from the announcement to the dial of a permitted target are possible, over TCP and over UDP |
| `MasqueAdmission.NothingAfterSuccess` | crates/warrenguard-masque/src/connection.rs:44-80 | After one success no verification starts or succeeds again on the connection |
| `MasqueAdmission.OneVerificationAtATime` | crates/warrenguard-masque/src/connection.rs:46-80 | Between two starts the first has ended: verifications never overlap |
| `MasqueAdmission.EndsOnBoundary` | crates/warrenguard-masque/src/lib.rs:499-507 | The admission ends on the next multiple of the whole seconds of the period, plus the grace, at least one second ahead |
| `MasqueAdmission.EndsOnPeriodExact` | crates/warrenguard-masque/src/lib.rs:499-507 | The end is a multiple of the period plus the grace at every instant if and only if the period is not zero and divides its whole seconds (one second if it has none) |
| `MasqueAdmission.EndOfPeriodExact` | crates/warrenguard-masque/src/lib.rs:499-507 | The end is the end of the current period plus the grace at every instant if and only if the period is a whole number of seconds |
| `MasqueAdmission.FractionalPeriodEndsEarly` | crates/warrenguard-masque/src/lib.rs:499-507 | With a period of one and a half seconds an admission at the epoch ends after one second, on no boundary |
| `MasqueAdmission.NeverLongerExact` | crates/warrenguard-masque/src/lib.rs:499-507 | The documented bound of one period plus the grace holds at all times if and only if the period is at least one second |
| `MasqueAdmission.SubSecondPeriodOutlives` | crates/warrenguard-masque/src/lib.rs:499-507 | A half-second period admits for a whole second |
| `EdgeAdmission.KeyShared` | crates/warrenguard-edge-server/src/lib.rs:83-92 | Two addresses share a bucket exactly when they are the same IPv4 address or IPv6 addresses of one /64 |
| `EdgeAdmission.FreeUndoesAcquire` | crates/warrenguard-edge-server/src/lib.rs:126-153 | Dropping the guard just taken restores the table exactly, with no empty entry left |
| `EdgeAdmission.PerIpConcurrency.TryAcquire` | crates/warrenguard-edge-server/src/lib.rs:126-137 | Grants and counts below the cap, and changes nothing at it |
| `EdgeAdmission.PerIpConcurrency.DropGuard` | crates/warrenguard-edge-server/src/lib.rs:140-153 | Counts down, and removes the entry at zero |
| `EdgeAdmission.EdgeAdmissionControl.Admit` | crates/warrenguard-edge-server/src/lib.rs:227-264 | Admitted exactly when the address is validated, the rate allows it, the source is below its cap and a permit is free; any refusal leaves counts and permits as they were; and the call is an attempt followed by the permit, or by a missed permit and the guard's release, of the interleaved system below |
| `EdgeAdmission.EdgeAdmissionControl.EndSession` | crates/warrenguard-edge-server/src/lib.rs:171-177 | Ending an admitted session is the return of its permit followed by the release of its guard, of the same system |
| `EdgeAdmission.StepInv` | crates/warrenguard-edge-server/src/lib.rs:227-264 | Every step of every session, in any order, keeps the accounts |
| `EdgeAdmission.RunIsAccounted` | crates/warrenguard-edge-server/src/lib.rs:94-264 | In every interleaving each source's count is its live guards and at most 64, no entry is zero, the counts sum to the sessions, and permits out of 1024 equal live sessions |
| `EdgeAdmission.MissedPermitLeavesNoTrace` | crates/warrenguard-edge-server/src/lib.rs:249-256 | A source counted but denied a permit is uncounted by its guard, leaving the state as before |
| `ConnectUdp.PercentEncode` | crates/warrenguard-masque/src/client.rs:275-286 | The loop computes the specification encoding |
| `ConnectUdp.PercentDecode` | crates/warrenguard-edge/src/masque.rs:214-230 | The index loop computes the specification decoder, including every refusal |
| `ConnectUdp.DecodeEncoded` | crates/warrenguard-masque/src/client.rs:275-286 | Decoding undoes encoding for every byte string, and the encoding has only unreserved bytes and percent signs |
| `ConnectUdp.PathRoundTrip` | crates/warrenguard-edge/src/masque.rs:171-210 | For every UTF-8 host, 16-bit port and password: the server parses the client's path to the same host and port and the password it accepts, if and only if the host is acceptable and the port is not zero |
| `ConnectUdp.CredentialArrives` | crates/warrenguard-edge/src/masque.rs:192-204 | A password of acceptable bytes arrives unchanged |
| `ConnectUdp.HostBytes` | crates/warrenguard-edge/src/masque.rs:184-191 | The bytes a host may hold, as ranges |
| `ConnectUdp.HostLength` | crates/warrenguard-edge/src/masque.rs:184-186 | A host of such bytes is acceptable if and only if it has 1 to 255 of them |
| `ConnectUdp.CredentialBytes` | crates/warrenguard-edge/src/masque.rs:199-203 | The bytes a credential may hold, as ranges |
| `Text.EncodedIsUtf8` | crates/warrenguard-edge/src/masque.rs:229 | The encoding of any Unicode scalar values passes the UTF-8 test |
| `Text.Utf8IsEncoded` | crates/warrenguard-edge/src/masque.rs:229 | Whatever passes it is the encoding of some scalar values |
| `ConnectUdp.HexDigits` | crates/warrenguard-edge/src/masque.rs:219-223 | Digits of both cases have their value, and no other byte has one |
| `ConnectUdp.EscapedBytes` | crates/warrenguard-masque/src/client.rs:275-286 | The bytes a path carries as they are, as ranges; any other is a percent sign and two upper-case digits |
| `ConnectUdp.PathBytes` | crates/warrenguard-masque/src/client.rs:193-199 | The path to the host "a b" with a port and a password, byte for byte |
| `ConnectUdp.AuthorityBytes` | crates/warrenguard-connect-proxy/src/head.rs:71-101 | The authorities a:443 and [::1]:443, byte for byte |
| `ConnectUdp.CredentialBehind` | crates/warrenguard-edge/src/masque.rs:192-198 | A credential behind other parameters is found, and of several the first counts |
| `ConnectUdp.AuthorityExact` | crates/warrenguard-masque/src/lib.rs:490-497 | What is dialed for every acceptable host: the host itself if and only if it does not hold both a colon and a closing bracket and does not, without a colon, begin with an opening one; what its own pair of brackets encloses, if it has such a pair and no colon; otherwise nothing |
| `ConnectUdp.BracketsAreTakenOff` | crates/warrenguard-connect-proxy/src/head.rs:71-81 | The host [a] is dialed as a, and [a]b is not dialed |
| `ConnectUdp.PlusEscapeExact` | crates/warrenguard-edge/src/masque.rs:214-230 | The decoder agrees with one that insists on two digits if and only if it refuses too or no escape has a plus sign; where they differ, what is decoded holds a byte no host may hold |
| `ConnectUdp.StrictTargetExact` | crates/warrenguard-edge/src/masque.rs:171-210 | For every path, with or without a query: the parser agrees with a strict one if and only if it refuses too or the port has no plus sign, and it accepts alike whatever the strict one accepts |
| `ConnectUdp.StrictAuthorityExact` | crates/warrenguard-connect-proxy/src/head.rs:71-101 | For every authority the same, on its port |
| `ConnectUdp.PlusEscapeAccepted` | crates/warrenguard-edge/src/masque.rs:219-223 | The escape %+A decodes, to a line feed |
| `ConnectUdp.PlusPortAccepted` | crates/warrenguard-edge/src/masque.rs:182 | The client's path for any host and port, without a query, reads the same with a plus sign before the port, +443 for one |
| `ConnectUdp.HostReachesDialer` | crates/warrenguard-connect-proxy/src/head.rs:71-101 | From the client's arguments to the server's dial: the path always parses, and what is dialed is as stated above |
| `Masque.TcpRequestArrives` | crates/warrenguard-masque/src/client.rs:141-157 | The field section of a CONNECT request classifies as that request with its authority and credential, an empty credential counting as none |
| `Masque.UdpRequestArrives` | crates/warrenguard-masque/src/client.rs:186-228 | End to end through frame search, field section, classification and path parser: the server gets the client's host, port, password and credential (an empty one counting as none), and the bytes after the head are left to the tunnel |
| `Masque.ClassifyUdp` | crates/warrenguard-edge/src/masque.rs:112-136 | The fields of a CONNECT-UDP request classify as such, with path, credential if not empty, and capsule support |
| `Masque.ClassifyTcp` | crates/warrenguard-edge/src/masque.rs:112-136 | The fields of a plain CONNECT classify as such, with authority and credential if not empty |
| `Masque.OtherMethod` | crates/warrenguard-edge/src/masque.rs:112-136 | Any method but CONNECT is no tunnel request, whatever follows |
| `Masque.OtherProtocol` | crates/warrenguard-edge/src/masque.rs:112-136 | A CONNECT with any protocol but connect-udp is none either |
| `Masque.BareConnect` | crates/warrenguard-edge/src/masque.rs:112-136 | A CONNECT alone has the empty authority and no credential |
| `Masque.CapsuleFlag` | crates/warrenguard-edge/src/masque.rs:130-134 | Capsules are understood if and only if the header says ?1 |
| `Masque.TemplateText` | crates/warrenguard-edge/src/masque.rs:21-33 | The fixed parts of the path template, spelled out |
| `Datagrams.DatagramRoundTrip` | crates/warrenguard-edge/src/masque.rs:237-251 | A datagram of any request stream reads back as its quarter stream id, the UDP context and its payload |
| `Datagrams.DatagramRoutes.Route` | crates/warrenguard-masque/src/connection.rs:151-165 | A datagram on the UDP context goes to the back of its own route's queue if there is room; anything else is dropped |
| `Datagrams.DatagramRoutes.Deliver` | crates/warrenguard-edge/src/masque.rs:237-244 | What one end encodes for a stream lands on that stream's route at the other end, and on no other |
| `Datagrams.EncodedIsFor` | crates/warrenguard-edge/src/masque.rs:237-251 | What one end encodes for a stream carries its payload for that stream and none for any other |
| `Datagrams.RunRoutes` | crates/warrenguard-masque/src/connection.rs:131-165 | Over any sequence of openings, closings, takes and arriving datagrams, malformed and foreign ones included, the shared table holds for every stream exactly what the steps that concern it leave |
| `Datagrams.RouteIsFifo` | crates/warrenguard-masque/src/tunnel.rs:84-115 | Since a route was opened, what its pump got and what waits is what was sent to its stream, in order: all of it up to 256 payloads, never more than 256 waiting, and exactly the first 256 if nothing was taken |
| `Datagrams.NotOpenIsAbsent` | crates/warrenguard-masque/src/connection.rs:131-165 | A route that was closed, or never opened, is absent until it is opened |
| `Datagrams.DatagramBytes` | crates/warrenguard-edge/src/masque.rs:237-244 | Stream 8 and payload 68 69 are the datagram 02 00 68 69 |
| `Xor.XorBitAt` | crates/warrenguard-edns-proxy/src/xor.rs:97 | Bit by bit the byte operation is exclusive or |
| `Xor.SameBits` | crates/warrenguard-edns-proxy/src/xor.rs:97 | Numbers with the same bits are the same, so those bits determine the byte |
| `Xor.KeyFrom` | crates/warrenguard-edns-proxy/src/xor.rs:52-73 | A padded key is refused exactly when it starts with zero; otherwise its length is the place of the first zero and its material the bytes before it |
| `Xor.KeyRoundTrip` | crates/warrenguard-edns-proxy/src/xor.rs:32-39 | The padded form of every key gives the key back |
| `Xor.XorObfuscator.Obfuscate` | crates/warrenguard-edns-proxy/src/xor.rs:94-100 | In place, the buffer becomes itself under the keystream from the current position, which advances by its length modulo the key |
| `Xor.KeystreamRepeats` | crates/warrenguard-edns-proxy/src/xor.rs:94-100 | Only the position within the key matters |
| `Xor.ChunkingIsIrrelevant` | crates/warrenguard-edns-proxy/src/xor.rs:75-100 | Chunk by chunk or all at once, a stream comes out the same |
| `Xor.PumpObfuscated` | crates/warrenguard-edns-proxy/src/server.rs:375-400 | One direction of a relayed connection outputs the whole stream under one keystream, however it was read |
| `Xor.ObfuscatorsCancel` | crates/warrenguard-edns-proxy/src/xor.rs:75-100 | A second obfuscator with the key restores the stream, even when it sees other chunk boundaries |
| `Xor.ToIpv6` | crates/warrenguard-edns-proxy/src/config.rs:95-110 | The array filled field by field spells the address that stands for the configuration |
| `Xor.PlainExact` | crates/warrenguard-edns-proxy/src/config.rs:130-142 | What every plain address decodes to, and that only port zero is refused |
| `Xor.XorExact` | crates/warrenguard-edns-proxy/src/config.rs:144-157 | What every obfuscated address decodes to, and that only port zero and then an empty key are refused |
| `Xor.WireLayout` | crates/warrenguard-edns-proxy/src/config.rs:113-157 | For every address, octet by octet: the type decides between plain, unsupported, obfuscated and unknown, and address and port are the octets stated, low octet first |
| `Xor.ConfigRoundTrip` | crates/warrenguard-edns-proxy/src/config.rs:91-128 | Under every prefix a configuration comes back from its address exactly when its port is not zero |
| `Xor.UnpackedRoundTrip` | crates/warrenguard-edns-proxy/src/config.rs:113-157 | Whatever decodes packs back into the address it came from, with only the bytes decoding ignores blanked |

## Left out

- Sockets, QUIC, TLS, task spawning, timeouts and real clocks: their outcomes are parameters of the model.
- Cryptography, credential verification and JA4 hashing: admission sees them only as predicates.
- The maybenot state machines behind DAITA: any answers are allowed, so the theorems hold for all of them.
- SETTINGS parsing, proxy-authorization decoding, the HTTP/1.1 CONNECT head and the WebTransport handshake: they would add only easy members.
- Replacement of malformed UTF-8 in request paths: paths are byte strings, and hosts are required to be UTF-8 as a Rust string is.
- The rendering of rules for pfctl and panics of blocking tasks: a rule is its specification, and an operation either works or fails without effect.
- The Linux and Windows killswitches: other back ends with other rule languages.
- The token-bucket arithmetic of the rate limiters and their idle eviction: whether the rate allows a session is a parameter.
- The text of the build stamp and 64-bit overflow of its arithmetic: dates are records and days are unbounded integers.
- 32-bit targets: lengths and offsets are those of a 64-bit `usize`, unbounded where the source cannot overflow.
- The timer that closes a connection when its admission ends: only the length of the admission is modelled.
- Mutexes and await points inside one operation: MasqueAdmission and EdgeAdmission interleave atomic steps on values, so poisoning and update in place by two tasks at once are not captured.
- SortByOffset: models the source's in-place stable sort on a sequence value, so update in place is not captured.
- FieldSectionRoundTrip: names and values must be shorter than 2^63 bytes, which every Rust vector is.
- UdpRequestArrives: the field section must fit the frame bound of 16384 bytes, as the server demands.
- HandshakeRoundTrip: covers the frame types the parser knows; any other frame type ends the parse with an error in the source and in the model.
