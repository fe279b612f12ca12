# ipinfo: the MaxMind DB reader and the DNS lookup, in Dafny

This project models the core of the `ipinfo` tool:

- **The MaxMind DB reader** (`src/mmdb.rs`).
  - Opening a database file finds the metadata map after the rightmost `AB CD EF "MaxMind.com"` marker in the file's last 128000 bytes. From that map it takes `node_count`, `record_size` and `ip_version`.
  - A query rewinds the reader and walks the binary search tree, one address bit per node.
  - When the walk ends at a data record, one value is decoded from the data section. This is `read_type`: control byte, extended type, size classes, pointers, maps, arrays and scalars.
- **The DNS A-record lookup** (`src/mmdb/dns.rs`), without its socket:
  - the query packet built for a domain;
  - the checks applied to the reply.

The model keeps the source's form:

- **Reader state.** The reader is a class, `MmdbReader.Reader`. It holds the file's bytes, which never change, and a cursor position that reads and seeks move.
  - `read_type`, `read_record`, `query_ip_uint` and `Mmdb::new` are methods on that cursor. They have the source's loops: the map and array loops, the bit loop and the marker scan.
  - Each method is proved to leave the cursor where a specification function of the file's bytes says, with the value that function computes: `MmdbDecode.Decode`, `MmdbTrie.RecordAt`, `MmdbTrie.WalkFrom`, `MmdbMetadata.LocateMetadata`.
  - The lemmas state the source's properties about those functions.
- **Pure code.** Metadata validation, `bytes_per_node`, record classification and DNS response parsing are functions.
- **DNS packet.** Building the query packet is a method that appends to a packet in a loop. It is proved equal to the function `Dns.QueryPacket`.

Modules:

| module | file | contents |
|---|---|---|
| Base | base.dfy | bytes, `Option`, `Result`, powers, big-endian numbers |
| MmdbValue | mmdb_value.dfy | `Type`, `MmdbError`, `Metadata`, `bytes_per_node` |
| MmdbDecode | mmdb_decode.dfy | `read_type` as functions, its properties, the header arithmetic as written |
| MmdbReader | mmdb_reader.dfy | the cursor and the imperative `read_type` |
| MmdbTrie | mmdb_trie.dfy | `read_record`, `RecordReadResult`, the tree walk |
| MmdbMetadata | mmdb_metadata.dfy | the marker scan and `MmdbMetadata::new` |
| Mmdb | mmdb.dfy | `Mmdb`: opening and the four queries |
| Dns | dns.dfy | `DnsError`, the query packet, the reply checks |

Modelling decisions:

- **Pointer budget.** A pointer chain is bounded by a `fuel` argument, because the source follows pointers without limit. Each pointer followed spends one unit. An exhausted budget is the model-only error `PointerChainTooDeep`. Maps and arrays need no budget: every element consumes at least one byte.
- **Panics.** A panic in the source becomes the model-only error `Panicked`. This covers byteorder's `read_uint` with 0 or more than 8 bytes, and `read_uint128` with more than 16.
- **Arithmetic.** It is unbounded. At four places the source adds or reads in a narrow width and gets a wrong result (src/mmdb.rs:371, 378, 379 and 512-514). There the decoder uses the corrected definitions `MmdbDecode.ExtendedTag`, `MmdbDecode.ResolveSize` and `MmdbDecode.DecodeS32`. Only the `*AsWritten` members model the source's wrap-around and panic; "## Findings" pairs them.
- **Data offsets.** A data record within 16 of the node count makes `selected_record - node_count - 16` wrap in u128 (src/mmdb.rs:197-199). The additions that follow wrap back, so the unbounded formula is what a release build computes. A debug build panics there instead.

## Model

| member | source | states |
|---|---|---|
| Base.BigEndian | src/mmdb.rs:492-508 | a big-endian number read from n bytes is below 256^n |
| Base.ToBigEndian | src/mmdb.rs:492-508 | writing a number below 256^n as n big-endian bytes reads back as that number |
| Base.BigEndianInjective | src/mmdb.rs:492-508 | two byte strings of one length with the same big-endian value are equal |
| MmdbValue.BytesPerNode | src/mmdb.rs:351-358 | success exactly for record sizes 24, 28, 32, with node size = record size / 4 (6, 7, 8); any other size is `InvalidMetadata("unsupported record_size")` |
| MmdbDecode.ReadBytes | src/mmdb.rs:476-477 | `read_exact` of n bytes succeeds iff n = 0 or n bytes remain, returns exactly those bytes and advances by n; a failure is `BadIo` with the cursor at the end |
| MmdbDecode.ResolveSize | src/mmdb.rs:375-385 | hints 0-28 are the size; 29, 30, 31 give 29 + u8, 285 + u16, 65821 + u24 big-endian, in the disjoint ranges [29,285), [285,65821), [65821,65821+2^24) |
| MmdbDecode.ExtendedTag | src/mmdb.rs:370-373 | no ensures: tag 0 escapes to 7 + the next byte, widened; ExtendedControl, ExtendedHeaderRoundTrip and InvalidTagsAfterHeader state its properties |
| MmdbDecode.ReadSize | src/mmdb.rs:375-385 | the size extension keeps the tag and stays within the data |
| MmdbDecode.ReadHeader | src/mmdb.rs:364-385 | a successful header read starts inside the data and ends after the control byte, within the data; reading at or past the end is `BadIo` with the cursor at the end; a pointer header's size is below 32 (PointerHeader: it is the raw hint) |
| MmdbDecode.ShortControl | src/mmdb.rs:364-385 | a control byte with top bits 2 to 7 has that tag and reads the size extension right after it, for any data |
| MmdbDecode.PointerHeader | src/mmdb.rs:364-385 | a control byte with top bits 001 is a one-byte pointer header whose size is its low five bits |
| MmdbDecode.ExtendedControl | src/mmdb.rs:364-385 | a control byte with top bits 000 takes 7 + the next byte as its tag and reads the size extension after both bytes |
| MmdbDecode.DecodeUnsigned | src/mmdb.rs:490-509 | size 0 is 0 with no read; 1 to `maxBytes` bytes succeed iff they remain, giving their big-endian value with the cursor past them, otherwise `BadIo` with the cursor at the end; more than `maxBytes` is the `read_uint` panic, with no read |
| MmdbDecode.ToSigned32 | src/mmdb.rs:511 | four bytes as two's complement: non-negative values are the bits, negative ones are the bits minus 2^32 |
| MmdbDecode.DecodeS32 | src/mmdb.rs:510-516 | tag 8 succeeds iff the size is 0, or at most 4 with the bytes present; size 0 is 0; sizes 1-3 are the big-endian value; size 4 is the i32 whose bits are the four bytes; missing bytes are `BadIo`; sizes over 4 are `InvalidData("bad s32 size")` with no read |
| MmdbDecode.DecodeNarrowed | src/mmdb.rs:490-501 | U16/U32: size 0 is 0; with 1-8 bytes present the big-endian value if it fits the width, otherwise `BadConversion` after the read; missing bytes are `BadIo`; more than 8 bytes is the `read_uint` panic |
| MmdbDecode.DecodeScalar | src/mmdb.rs:474-558 | the scalar tags never move the cursor backwards; the value of each tag is stated by RawScalars, FloatScalars, UnsignedScalars, S32Scalar, BooleanSizes, UnsupportedTypes and InvalidTags |
| MmdbDecode.ScalarAfterHeader | src/mmdb.rs:360-558 | after a header with any tag but pointer, map and array, the value is the scalar read after the header |
| MmdbDecode.InvalidTags | src/mmdb.rs:558 | tag 0 and every tag above 15 is `InvalidData("invalid data type specifier")`, with no read |
| MmdbDecode.InvalidTagsAfterHeader | src/mmdb.rs:370-558 | an extended tag above 15 is rejected with that error right after its header |
| MmdbDecode.S32Scalar | src/mmdb.rs:510-516 | tag 8 is DecodeS32 for every size |
| MmdbDecode.RawScalars | src/mmdb.rs:475-489 | strings and bytes of size n are exactly the next n bytes, with the cursor past them; missing bytes are `BadIo` |
| MmdbDecode.FloatScalars | src/mmdb.rs:481-557 | a double is the next 8 bytes and a float the next 4, whatever the size field; missing bytes are `BadIo` |
| MmdbDecode.UnsignedScalars | src/mmdb.rs:490-509 | size 0 is zero for U16, U32, U64, U128; U64 and U128 are the big-endian value of up to 8 and 16 bytes; U16 and U32 are that value when it fits, otherwise `BadConversion`; missing bytes are `BadIo`; more than 8 bytes is the panic for U16, U32 and U64, and more than 16 bytes for U128 |
| MmdbDecode.UnsignedRoundTrip | src/mmdb.rs:502-509 | any number written in n big-endian bytes reads back as U128 for n up to 16 and as U64 for n up to 8, with the cursor after them |
| MmdbDecode.NarrowedRoundTrip | src/mmdb.rs:490-501 | any number written in n big-endian bytes reads back as U32 for n up to 4 and as U16 for n up to 2 |
| MmdbDecode.S32RoundTrip | src/mmdb.rs:510-511 | any i32 written as its four two's-complement bytes reads back as that i32 |
| MmdbDecode.PointerValue | src/mmdb.rs:387-471 | pointer widths 0, 1, 2 name offsets in [0,2048), [2048,526336), [526336,526336+2^27), each width continuing where the previous ends; width 3 is an absolute 32-bit offset |
| MmdbDecode.PointerBias | src/mmdb.rs:411-435 | widths 1 and 2 add the number of offsets the narrower widths name (8 * 256 and 8 * 256 + 8 * 256^2); widths 0 and 3 add nothing |
| MmdbDecode.DataSectionOffset | src/mmdb.rs:397-400 | no ensures: the file position of a data-section offset, past the search tree and its 16-byte separator; PointerFollowed, PointerTarget and RecordAndPointerAgree state its properties |
| MmdbDecode.Decode | src/mmdb.rs:360-559 | a successful decode starts inside the data and consumes at least one byte |
| MmdbDecode.DecodePayload | src/mmdb.rs:387-558 | the payload after a control byte never moves the cursor backwards |
| MmdbDecode.DecodePointer | src/mmdb.rs:388-473 | a successful pointer decode leaves the cursor at or after where the pointer bytes start |
| MmdbDecode.DecodeEntry | src/mmdb.rs:519-527 | a map entry (string key, then value) consumes at least one byte |
| MmdbDecode.DecodeEntries | src/mmdb.rs:517-538 | the map case yields a `Map` and never moves backwards; what the map holds is stated by EntriesAsList and MapHoldsLastEntries |
| MmdbDecode.DecodeItems | src/mmdb.rs:540-546 | the array case yields an `Array` and never moves the cursor backwards |
| MmdbDecode.ItemsKeepPrefix | src/mmdb.rs:540-546 | the array case yields exactly `size` elements after those already read, and keeps those in order |
| MmdbDecode.ItemsAfterPrefix | src/mmdb.rs:540-546 | decoding after elements already read gives those elements followed by what decoding from an empty array gives, or the same error |
| MmdbDecode.ItemsAreDecodedValues | src/mmdb.rs:540-546 | an array of n > 0 elements succeeds iff its first element and the remaining n - 1 decode, and is the first value followed by the rest, in order |
| MmdbDecode.EncodeSize | src/mmdb.rs:375-381 | every size below 65821 + 2^24 has a hint and extension of the right length |
| MmdbDecode.SizeRoundTrip | src/mmdb.rs:375-381 | the size formulas read back every size they can express |
| MmdbDecode.EncodeHeader | src/mmdb.rs:364-381 | a header for a non-pointer tag is one to five bytes |
| MmdbDecode.SizeFieldRead | src/mmdb.rs:375-381 | a size extension at the cursor is read as the size it expresses, with the cursor past it |
| MmdbDecode.ShortHeaderRoundTrip | src/mmdb.rs:364-385 | a tag 2-7 written in the control byte, with any expressible size, reads back as that tag and size |
| MmdbDecode.ExtendedHeaderRoundTrip | src/mmdb.rs:364-385 | a tag 8-262 written as control byte plus type byte, with any expressible size, reads back as that tag and size |
| MmdbDecode.HeaderRoundTrip | src/mmdb.rs:364-385 | the header written for any tag 2-262 and any expressible size reads back as that tag and size, with the cursor just past it |
| MmdbDecode.PointerRestoresCursor | src/mmdb.rs:389-471 | after a pointer the cursor is exactly after the pointer's 1-4 bytes, whether or not the target decodes |
| MmdbDecode.PointerFollowed | src/mmdb.rs:393-471 | with metadata and budget left, a pointer yields the value decoded at bytes_per_node * node_count + 16 + its offset, with the cursor just after the pointer bytes |
| MmdbDecode.PointerTarget | src/mmdb.rs:393-471 | with metadata, a pointer's value is the value decoded at bytes_per_node * node_count + offset + bias + 16 |
| MmdbDecode.PointerWithoutMetadata | src/mmdb.rs:396-410 | with no metadata a pointer is `InvalidData("pointer addressed before metadata parsed")` and the cursor only passes the pointer bytes |
| MmdbDecode.ExtendedHeader | src/mmdb.rs:364-373 | a control byte with tag 0 and a small hint reads as extended tag 7 + next byte, two bytes long |
| MmdbDecode.BooleanSizes | src/mmdb.rs:549-553 | after any boolean header (every size, short or extended), size 0 is false, 1 is true, anything else is `InvalidData("invalid boolean")`, the cursor after the header |
| MmdbDecode.UnsupportedTypes | src/mmdb.rs:547-548 | after any header with tag 12 or 13, of any size, the decode fails with `NotImplemented("data cache container")` or `NotImplemented("end marker")` |
| MmdbDecode.EntriesKeepKeys | src/mmdb.rs:517-538 | decoding more map entries never loses a key already inserted |
| MmdbDecode.DecodeEntryList | src/mmdb.rs:519-527 | reading the entries as a list gives exactly `size` key/value pairs |
| MmdbDecode.EntriesAsList | src/mmdb.rs:517-538 | the map loop is the entry list inserted left to right into the map so far, or that list's error |
| MmdbDecode.InsertAllKeeps | src/mmdb.rs:530 | `insert` of entries with other keys leaves a key's presence and value alone |
| MmdbDecode.LastEntryWins | src/mmdb.rs:530 | a key maps to the value of its last entry: a later `insert` overwrites an earlier one |
| MmdbDecode.InsertAllKeys | src/mmdb.rs:530 | after the inserts, the keys are those of the map before and those of the entries |
| MmdbDecode.MapHoldsLastEntries | src/mmdb.rs:517-538 | a decoded map fails with its list's error, or holds exactly the keys read, each with the value of its last occurrence, the cursor after the last entry |
| MmdbDecode.ExtendedTagAsWritten | src/mmdb.rs:371 | `7u8 + byte` agrees with the widened tag for bytes below 249 |
| MmdbDecode.ExtendedTagWraps | src/mmdb.rs:371 | extended-type byte 250 wraps to tag 1, a pointer, instead of the invalid tag 257 |
| MmdbDecode.ResolveSizeAsWritten | src/mmdb.rs:375-385 | the u8/u16 size sums agree with the widened sizes for hints other than 29 and 30 |
| MmdbDecode.SizeOverflows | src/mmdb.rs:378-379 | sizes 256 (hint 29) and 65536 (hint 30) are read as 0 by the u8/u16 sums |
| MmdbDecode.DecodeS32AsWritten | src/mmdb.rs:510-516 | the signed type as written agrees with the corrected one for every size but 0 |
| MmdbDecode.ZeroSizeS32 | src/mmdb.rs:512-514 | a zero-size signed value as written aborts, while the format's value is 0 |
| MmdbReader.Reader.constructor | src/mmdb.rs:57 | a cursor over the file's bytes holds exactly those bytes and starts at position 0 |
| MmdbReader.Reader.Seek | src/mmdb.rs:58 | a seek moves the cursor to the given position, also past the end |
| MmdbReader.Reader.ReadExact | src/mmdb.rs:476-477 | the cursor read is the function ReadBytes |
| MmdbReader.ReadControl | src/mmdb.rs:364-385 | the control-byte reads compute ReadHeader and leave the cursor where it says |
| MmdbReader.ReadUnsigned | src/mmdb.rs:490-509 | the `read_uint` reads compute DecodeUnsigned |
| MmdbReader.ReadScalar | src/mmdb.rs:474-558 | the scalar cases compute DecodeScalar |
| MmdbReader.ReadType | src/mmdb.rs:360-559 | `read_type` computes Decode, value and final cursor |
| MmdbReader.ReadPointer | src/mmdb.rs:387-471 | the save, seek, decode and restore computes DecodePointer |
| MmdbReader.FollowPointer | src/mmdb.rs:401-405 | remembering the position, seeking to the target and decoding there, then seeking back: the value decoded at the target with one pointer less, and the cursor where it was |
| MmdbReader.ReadEntry | src/mmdb.rs:519-527 | one map entry computes DecodeEntry |
| MmdbReader.ReadMap | src/mmdb.rs:517-538 | the insertion loop computes DecodeEntries from the empty map |
| MmdbReader.ReadArray | src/mmdb.rs:540-546 | the push loop computes DecodeItems from the empty array |
| MmdbTrie.NodeRecords | src/mmdb.rs:143-172 | both records of a node are below 2^24, 2^28 or 2^32 for nodes of 6, 7, 8 bytes |
| MmdbTrie.Left28 | src/mmdb.rs:157-160 | the left record of a 7-byte node is below 2^28, with the high nibble of byte 3 on top of bytes 0-2 big-endian |
| MmdbTrie.Right28 | src/mmdb.rs:162-165 | the right record of a 7-byte node is below 2^28, with the low nibble of byte 3 on top of bytes 4-6 big-endian |
| MmdbTrie.PackNode | src/mmdb.rs:147-172 | two records are packed into a node of exactly the node size |
| MmdbTrie.Node28RoundTrip | src/mmdb.rs:153-167 | the shared middle byte of a 28-bit node splits back into both top nibbles: any two 28-bit records read back |
| MmdbTrie.NodeRecordsRoundTrip | src/mmdb.rs:147-172 | any two records of the node's width, packed, read back as that pair |
| MmdbTrie.Classify | src/mmdb.rs:190-201 | below node_count it is a traversal to record * bytes_per_node; equal is NoData; above is Data at bytes_per_node * node_count + 16 + (record - node_count - 16) |
| MmdbTrie.RecordAndPointerAgree | src/mmdb.rs:196-199 | a record and a pointer naming the same data-section offset name the same file position |
| MmdbTrie.RecordAt | src/mmdb.rs:138-202 | a record is read only with record size 24, 28 or 32, and the cursor ends one node further |
| MmdbTrie.Bit | src/mmdb.rs:109-113 | bit i of an address is set iff the address modulo 2^(i+1) is at least 2^i |
| MmdbTrie.WalkFrom | src/mmdb.rs:106-128 | with no bits left the walk finds nothing and does not move; a value found is the value decoded at some offset of the file |
| MmdbTrie.WalkDepth | src/mmdb.rs:108-126 | the walk reads at most one node per address bit |
| MmdbTrie.SameNetworkSameAnswer | src/mmdb.rs:108-126 | addresses agreeing on the bits the walk consumed get the same answer and read the same nodes |
| MmdbTrie.ReadRecord | src/mmdb.rs:138-202 | `read_record` on the cursor computes RecordAt, two half-node reads or one 7-byte read |
| MmdbMetadata.MarkerLength | src/mmdb.rs:48 | the marker is 14 bytes |
| MmdbMetadata.LastMarkerBelow | src/mmdb.rs:50-53 | the scan from the right finds the last marker start below a bound, or reports that none exists |
| MmdbMetadata.LastMarker | src/mmdb.rs:50-56 | the marker found occurs there and nowhere to its right; absence means it occurs nowhere |
| MmdbMetadata.RightmostMarkerChosen | src/mmdb.rs:50-53 | when the marker occurs several times, the rightmost occurrence is chosen |
| MmdbMetadata.FindMarker | src/mmdb.rs:50-53 | the `rposition` loop over the windows computes LastMarker |
| MmdbMetadata.TailStart | src/mmdb.rs:38-41 | the window is the last min(L, 128000) bytes |
| MmdbMetadata.Tail | src/mmdb.rs:38-46 | the tail is a suffix of the file of at most 128000 bytes, and the whole file when smaller |
| MmdbMetadata.MetadataFromValue | src/mmdb.rs:211-236 | accepted iff a map with `node_count` U32, `record_size` U16 and `ip_version` U16, taking those values; otherwise the first failing check, in that order, names the `InvalidMetadata` error |
| MmdbMetadata.MetadataAt | src/mmdb.rs:56-61 | a failed decode after the marker is that error; accepted metadata is a decoded map holding `node_count` U32, `record_size` U16 and `ip_version` U16 with exactly the metadata's values |
| MmdbMetadata.MetadataInTail | src/mmdb.rs:50-56 | no marker in the window is `MetadataNotFound` |
| MmdbMetadata.LocateMetadata | src/mmdb.rs:34-64 | a file shorter than the marker has no metadata |
| MmdbMetadata.ReadMetadata | src/mmdb.rs:50-61 | the scan, the seek past the marker and the decode with no metadata compute MetadataInTail of the window |
| MmdbMetadata.MetadataAfterRightmostMarker | src/mmdb.rs:38-61 | the metadata is decoded right after the rightmost marker of the window |
| MmdbMetadata.OnlyTailMatters | src/mmdb.rs:38-46 | files with the same last 128000 bytes have the same metadata |
| Mmdb.Ipv4Compatible | src/mmdb.rs:81-84 | no ensures: the IPv4-compatible IPv6 address ::a.b.c.d; CompatibleAddressTopBitsZero and CompatibleWalkGoesLeft state its properties |
| Mmdb.Lookup | src/mmdb.rs:106-128 | a walk over zero bits finds nothing at the root; a value found is the value decoded at some offset of the file |
| Mmdb.LookupV6 | src/mmdb.rs:92-104 | an IPv4 database gives `WrongDatabaseType` with the reader untouched; an IPv6 database walks 128 bits; other versions give `InvalidMetadata` |
| Mmdb.LookupV4 | src/mmdb.rs:74-90 | an IPv4 database walks 32 bits; an IPv6 database looks up the compatible address; other versions give `InvalidMetadata` |
| Mmdb.LookupIp | src/mmdb.rs:66-104 | each address family and database version pairs to its walk or its error, an IPv4 address in an IPv6 database as the compatible address |
| Mmdb.CompatibleAddressTopBitsZero | src/mmdb.rs:81-84 | bits 32-127 of the IPv4-compatible address are zero |
| Mmdb.CompatibleWalkGoesLeft | src/mmdb.rs:106-128 | while bits 127 down to 32 remain, each step of the walk for a compatible address reads the left record of its node and acts on it |
| Mmdb.SameNetworkSameLookup | src/mmdb.rs:106-128 | every address in the network a record stands for gets that record's answer |
| Mmdb.TopBit | src/mmdb.rs:108-113 | bit 31 of an IPv4 address is its top bit |
| Mmdb.TinyRoot | src/mmdb.rs:147-201 | the one-node database's root: no data on the left, file offset 22 on the right |
| Mmdb.TinyValue | src/mmdb.rs:474-480 | the string "hit" is decoded at offset 22 of the one-node database |
| Mmdb.TinyDatabaseLookup | src/mmdb.rs:106-128 | in the one-node database the top bit alone decides: 0 finds nothing, 1 finds "hit" |
| Mmdb.Database.constructor | src/mmdb.rs:10-13 | a handle holds the reader and the metadata |
| Mmdb.Database.New | src/mmdb.rs:34-64 | opening succeeds exactly with LocateMetadata's metadata and rewinds the reader; a failure is LocateMetadata's error |
| Mmdb.Database.QueryIpUint | src/mmdb.rs:106-128 | the bit loop computes the walk from the root: value and final cursor |
| Mmdb.Database.VisitNode | src/mmdb.rs:109-125 | one iteration of the bit loop: either it finishes with the walk's answer and cursor, or the rest of the walk from the child gives the same answer |
| Mmdb.Database.QueryIpv6 | src/mmdb.rs:92-104 | computes LookupV6 |
| Mmdb.Database.QueryIpv4 | src/mmdb.rs:74-90 | computes LookupV4 |
| Mmdb.Database.QueryIp | src/mmdb.rs:66-72 | computes LookupIp |
| Dns.Split | src/mmdb/dns.rs:69 | splitting at '.' gives at least one piece, none containing a dot |
| Dns.SplitPieces | src/mmdb/dns.rs:69 | splitting gives one more piece than the domain has dots |
| Dns.JoinExtendLast | src/mmdb/dns.rs:69 | extending the last piece by a byte extends the join by that byte |
| Dns.JoinSplit | src/mmdb/dns.rs:69 | the pieces joined with dots give back the domain |
| Dns.SplitAfterDot | src/mmdb/dns.rs:69 | a dot followed by a dot-free piece adds that piece |
| Dns.SplitNoDot | src/mmdb/dns.rs:69 | a dot-free domain is one piece |
| Dns.SplitJoin | src/mmdb/dns.rs:69 | dot-free pieces are exactly what splitting their join gives |
| Dns.U16Bytes | src/mmdb/dns.rs:43-64 | `write_u16` big-endian: two bytes, high then low |
| Dns.Labels | src/mmdb/dns.rs:69-76 | no ensures: each piece as its length byte followed by its bytes; LabelsLength, LabelsAppend and LabelsRoundTrip state its properties |
| Dns.LabelsAppend | src/mmdb/dns.rs:69-76 | writing one more piece appends its length byte and its bytes |
| Dns.LabelsLength | src/mmdb/dns.rs:69-76 | the labels take one byte plus the piece's length per piece |
| Dns.QueryPacket | src/mmdb/dns.rs:39-86 | fails with `DomainPartTooLong` iff some piece exceeds 255 bytes; otherwise 12 + sum(1 + piece length) + 1 + 4 bytes that start with the 12-byte header and end with the 5-byte terminator/QTYPE/QCLASS; the bytes between are stated by QueryLabels |
| Dns.QueryPacketFits | src/mmdb/dns.rs:39-86 | a domain whose pieces all fit is sent as exactly the header, the labels of every piece (empty ones included) and the trailer |
| Dns.QueryLabels | src/mmdb/dns.rs:66-77 | between the 12-byte header and the 5-byte trailer, a query holds exactly the labels of the domain's pieces, empty pieces included |
| Dns.TrailingDotQuery | src/mmdb/dns.rs:69-77 | "com." is sent as the header, 3 "com" 0, then a second zero length for the empty last piece, then 0 1 0 1 |
| Dns.TrailingDotPieces | src/mmdb/dns.rs:69 | splitting "com." at '.' gives "com" and an empty last piece |
| Dns.TrailingDotLabels | src/mmdb/dns.rs:69-76 | that empty piece is written as a single zero length byte |
| Dns.TrailingDotMisread | src/mmdb/dns.rs:69-77 | a reader ends the name at the first zero of that query, so the second zero is taken as the start of QTYPE |
| Dns.EncodeQuery | src/mmdb/dns.rs:39-86 | the sequential writes and the loop over pieces compute QueryPacket |
| Dns.LabelsRoundTrip | src/mmdb/dns.rs:69-77 | non-empty pieces are read back from their labels and the terminator |
| Dns.QueryNamesDomain | src/mmdb/dns.rs:39-86 | the domain can be read back from its query: header, labels joining to the domain, QTYPE and QCLASS |
| Dns.ExampleQuery | src/mmdb/dns.rs:66-86 | "example.com" is sent as the header, then 7 "example" 3 "com" 0 0 1 0 1 |
| Dns.Rcode | src/mmdb/dns.rs:98 | no ensures: the RCODE of byte 3; RcodeIsMask, ParseResponse and EmptyResponseRejected state its properties |
| Dns.RcodeIsMask | src/mmdb/dns.rs:98 | `resp[3] & 0x0F` on the byte's bits equals the RCODE, which is below 16 |
| Dns.AnswerCount | src/mmdb/dns.rs:103 | ANCOUNT is bytes 6 and 7 big-endian, 0 exactly when both are 0 |
| Dns.ParseResponse | src/mmdb/dns.rs:94-108 | too short (under 30 bytes) first, then a non-zero RCODE as `DnsErrorCode`, then zero answers as `NoRecordFound(domain)`; success iff none applies, with the address the last four bytes in order |
| Dns.AnswerResponse | src/mmdb/dns.rs:94-108 | a test reply, used by AnswerResolves: the query echoed with one A record appended, 16 bytes longer than the query |
| Dns.EmptyResponse | src/mmdb/dns.rs:94-108 | a test reply, used by EmptyResponseRejected: the query echoed with no answers and a chosen RCODE, as long as the query |
| Dns.AnswerResolves | src/mmdb/dns.rs:94-108 | any query answered with one A record resolves to that record's address |
| Dns.EmptyResponseRejected | src/mmdb/dns.rs:94-108 | a reply without answers is rejected with its RCODE, as no record, or as too short when the echoed query is under 30 bytes |

## Left out

- I/O in general. The `Read + Seek` source (a `BufReader` over the file) is modelled as an in-memory buffer with `Cursor` semantics: a failed read leaves the cursor at the end of the data. Failures of `seek` and `stream_position` do not arise.
- Mmdb.Database.New: reading the tail window is modelled as a read that cannot fail. The window always lies inside the file.
- Mmdb.Database.QueryIpUint: requires `numBits <= 128`, the widths its callers pass. A `u128` shifted by 128 or more overflows.
- Text encoding. Strings and map keys are the raw UTF-8 bytes read. The lossy UTF-8 conversion is not modelled, so two keys that differ only in invalid sequences are distinct here.
- `Double` and `Float` keep their 8-byte and 4-byte big-endian bit patterns. IEEE-754 decoding is not modelled.
- Pointer depth. Every member that follows pointers takes a `fuel` argument. A pointer cycle that recurses without end in the source ends here in `PointerChainTooDeep`.
- The u8 and u16 wrap-around at src/mmdb.rs:371, 378 and 379, and the zero-byte `read_uint` panic at src/mmdb.rs:512-514, are not part of the decoder: `Decode` uses the corrected sums and the zero case. The as-written behaviour is modelled only by the members listed under "## Findings". A debug build's overflow panic at those sums is not modelled.
- The `Display for Type` pretty-printer (src/mmdb.rs:258-349). It is output formatting only.
- The DNS socket: bind, connect, send and receive (src/mmdb/dns.rs:35-37, 88-91).
  - The reply is a parameter of `Dns.ParseResponse`, so the 512-byte receive buffer is not modelled.
  - `BindFailed`, `ConnectFailed`, `SendFailed` and `RecvFailed` are declared but never produced.
  - `WriteFailed` cannot happen when writing to a growing vector.
- `query_dns_for_domain` returns an `IpAddr`. Here the result is the IPv4 address it always wraps.
- Dns.QueryNamesDomain: stated only for domains without empty pieces. An empty piece (as in "a..b" or a trailing dot) is written as a zero length, which a reader takes as the end of the name.
- Dns.LabelsRoundTrip: stated only for non-empty pieces, for the same reason.
- The GUI, the command line and the downloader (src/ipinfo_gui.rs, src/ipinfo.rs, src/main.rs, src/downloader.rs) are not part of this model.

## Findings

Each row has a member that models the code as written, with a lemma that shows the discrepancy, and a corrected member that the rest of the model uses.

| source | as written | input that shows it | evidently intended | confidence | as-written member | corrected member |
|---|---|---|---|---|---|---|
| src/mmdb.rs:371 | `7u8 + reader.read_u8()?` adds in u8, wrapping for bytes 249-255 in a release build | control byte 0x00, extended-type byte 250: tag 1, decoded as a pointer | tag 257, rejected as an invalid data type | not executed; medium (only malformed data reaches it) | MmdbDecode.ExtendedTagAsWritten, MmdbDecode.ExtendedTagWraps | MmdbDecode.ExtendedTag, MmdbDecode.InvalidTagsAfterHeader |
| src/mmdb.rs:378 | `29 + reader.read_u8()?` adds in u8 before widening | a 256-byte string: hint 29, extension byte 227, read as size 0 | sizes 29-284 | not executed; high | MmdbDecode.ResolveSizeAsWritten, MmdbDecode.SizeOverflows | MmdbDecode.ResolveSize, MmdbDecode.SizeRoundTrip |
| src/mmdb.rs:379 | `285 + read_u16()?` adds in u16 before widening | a 65536-byte string: hint 30, extension bytes 0xFE 0xE3, read as size 0 | sizes 285-65820 | not executed; high | MmdbDecode.ResolveSizeAsWritten, MmdbDecode.SizeOverflows | MmdbDecode.ResolveSize, MmdbDecode.SizeRoundTrip |
| src/mmdb.rs:512-514 | sizes `0..=3` of the signed type call `read_uint(size)`, which panics for 0 bytes | control byte 0x00, extended-type byte 1: a zero-size signed 32-bit value, which aborts | the value 0, as for the other integer types | not executed; high | MmdbDecode.DecodeS32AsWritten, MmdbDecode.ZeroSizeS32 | MmdbDecode.DecodeS32 |
