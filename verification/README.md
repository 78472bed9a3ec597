# gtk-gnutella core helpers in Dafny

This project models four pieces of pure logic from gtk-gnutella, a Gnutella
servent written in C, and proves properties of the model.

- **DIME record codec** (`src/core/dime.c`). DIME is the attachment format
  of draft-nielsen-dime-02. A record has a 12-byte header: the version and the
  MB/ME/CF flags, the type_t and reserved nibbles, three big-endian 16-bit
  lengths and one big-endian 32-bit length. Four segments follow, each padded
  with zeros to a multiple of 4 bytes. The model covers:
  - building a record (`Dime.CreateRecord`);
  - parsing one record header (`Dime.ParseRecordHeader`);
  - the message loop that collects records up to the one carrying ME
    (`Dime.ParseRecords`);
  - the record setters.
- **Node macros** (`src/ui_core_interface_nodes_defs.h`). The model covers:
  - the hop-index clamp of the pong cache and the `pong_needed`/`pong_missing`
    invariant;
  - the status classes and the `NODE_F_*` flag bits;
  - the readable and established tests;
  - the message-queue accessors;
  - the query-forwarding rule;
  - the swift-mode timings.
- **glib helpers** (`src/lib/glib-missing.c`). The model covers:
  - insertion after a link in singly and doubly linked lists, over a heap of
    cells;
  - the bounded formatter `gm_vsnprintf`/`gm_snprintf` for each kind of
    platform vsnprintf;
  - the decimal parser `gm_atoul` on top of strtoul;
  - the file-name sanitiser `gm_sanitize_filename`.
- **URN hash extraction** (`src/lib/urn.c`). The model reads the SHA1 of
  `urn:sha1:` and `urn:bitprint:` URNs (with or without `urn:`), both
  digests of a bitprint, and the TTH of `urn:tree:tiger:`. It follows the
  code's order: case-insensitive prefix test, size guards, base32 first and
  base16 as a fallback, and separator checks. The base32 and base16 decoders
  follow sections 6 and 8 of RFC 4648 (module `Rfc4648`).

Modelling choices:
- Bytes are the integers 0 to 255 (`Bytes.byte`).
- C strings are sequences without NUL.
- `size_t` and `unsigned long` are 64 bits wide, and `int` is 32 bits wide.
- Heap allocation is a fresh cell number passed in by the caller.
- Each operation is a pure function. An error return becomes `None`.
- Each operation has a partner proved for all inputs: a round trip, an
  invariant it keeps, or a reference definition.

## Model

| member | source | states |
|---|---|---|
| Dime.Ceil4Aligned | src/core/dime.c:123-127 | dime_ceil gives a multiple of 4 that is at least v and below v + 4 |
| Dime.Ceil4Least | src/core/dime.c:123-127 | dime_ceil gives the least multiple of 4 not below v |
| Dime.TypeByte | src/core/dime.c:148 | header byte 1 holds the reserved nibble low; its high nibble is type_t's low nibble when the reserved value fits a nibble |
| Dime.HeaderFields | src/core/dime.c:133-153 | the filled header holds version 1 and the flags in byte 0, the nibbles in byte 1, and the four lengths big-endian at offsets 2, 4, 6 and 8 |
| Dime.CopyAndPad | src/core/dime.c:155-169 | the copy is the source followed by padding to dime_ceil of its size, 0 bytes for an empty source |
| Dime.PaddingIsZero | src/core/dime.c:164 | the padding bytes are zero |
| Dime.CreateRecord | src/core/dime.c:171-202 | the size is 12 plus the four padded segment lengths, a multiple of 4, returned whether or not bytes are asked for; bytes come back exactly when asked for, that many of them |
| Dime.ReceivedFlags | src/core/dime.c:190 | a created record carries MB exactly when first, ME exactly when last, and never CF |
| Dime.CreatedLayout | src/core/dime.c:191-197 | an encoded record is its header followed by the four segments at their padded offsets |
| Dime.SegmentsFit | src/core/dime.c:277-313 | the four successive truncation checks pass exactly when the whole padded record fits in the input |
| Dime.ParseRecordHeader | src/core/dime.c:245-321 | a parsed record spans at least the 12 header bytes and no more than the input |
| Dime.ParseRecordHeaderFails | src/core/dime.c:254-317 | parsing fails exactly on a short header, a version other than 1, or a padded segment running past the input |
| Dime.ParsedRecordValid | src/core/dime.c:259-275 | a parsed record has version 1 and lengths that fit its 16-bit and 32-bit fields |
| Dime.ParsedLengthAligned | src/core/dime.c:281-317 | the length a successful parse reports is a multiple of 4 |
| Dime.ParseCreatedRecord | src/core/dime.c:171-321 | round trip: a created record followed by anything parses back with its created size, its segments, MB/ME as asked, CF clear and version 1; reserved comes back as its low nibble, type_t as its low nibble when reserved fits a nibble, and the whole record as received when both fit |
| Dime.HeaderParserAdvances | src/core/dime.c:336-341 | every successful record parse consumes at least one byte and no more than the input, so the message loop terminates |
| Dime.ParsedMessageShape | src/core/dime.c:329-354 | a parsed message is non-empty, its last record carries ME and no earlier one does |
| Dime.ParseBlocks | src/core/dime.c:329-354 | blocks that each parse as one record, ME on the last only, parse as those records in input order, whatever follows |
| Dime.ParseBlocksUnclosed | src/core/dime.c:336-339 | records none of which carries ME run out of input and the whole list fails |
| Dime.ParseEncodedMessage | src/core/dime.c:323-360 | round trip for a closed message: its encoding followed by anything parses as its records |
| Dime.ParseUnclosedMessageFails | src/core/dime.c:323-360 | a message whose last record lacks ME fails to parse |
| Dime.MessageBeginNotEnforced | src/core/dime.c:343-348 | the loop as written accepts a message whose first record lacks MB |
| Dime.ParseRecordsStrict | src/core/dime.c:343-348 | with the MB test made on the first record, every accepted message begins with MB and agrees with the loop as written |
| Dime.ParseEncodedMessageStrict | src/core/dime.c:323-360 | the corrected loop still accepts every closed message that begins with MB |
| Dime.StrictRejectsUnbegunMessage | src/core/dime.c:343-348 | the corrected loop rejects every message whose first record lacks MB |
| Dime.SetData | src/core/dime.c:362-377 | the data is set exactly when its size is below 0xFFFFFFFF, and nothing else changes |
| Dime.SetId | src/core/dime.c:379-392 | for a C string id (its length is strlen), the id is set exactly when missing or shorter than 0xFFFF, the record then holds those bytes (none for a missing id), and nothing else changes |
| Dime.SetType | src/core/dime.c:394-409 | for a C string type, type and type_t are set exactly when the type is missing or shorter than 0xFFFF, the record then holds those bytes (none for a missing type), and nothing else changes |
| Dime.SetTypeUri | src/core/dime.c:411-415 | sets type_t to the URI value 2 under the same length limit |
| Dime.SetTypeMime | src/core/dime.c:417-421 | sets type_t to the MIME value 1 under the same length limit |
| Dime.SetRecordRoundTrip | src/core/dime.c:362-421 | a record assembled with the setters encodes, and parsing it gives back the id, type, data and type_t that were set |
| Nodes.CacheHopIdx | src/ui_core_interface_nodes_defs.h:67-69 | the index is at most MAX_CACHE_HOPS and at most the hop count, and equals a hop count that is in range |
| Nodes.CacheHopIdxIsMin | src/ui_core_interface_nodes_defs.h:67-69 | the clamp is the minimum of h and 6, monotone and idempotent |
| Nodes.NoPongsInvariant | src/ui_core_interface_nodes_defs.h:175-176 | a node needing no pongs satisfies pong_missing = sum of pong_needed |
| Nodes.PongInvariantBounds | src/ui_core_interface_nodes_defs.h:175-176 | under the sum invariant every pong_needed bucket is at most pong_missing, which fits the 8-bit counter |
| Nodes.BucketUpdateKeepsInvariant | src/ui_core_interface_nodes_defs.h:175-176 | changing one bucket keeps the sum invariant exactly when pong_missing moves by the same amount |
| Nodes.StatusPartition | src/ui_core_interface_nodes_defs.h:289-303 | connecting and connected are disjoint, removing is neither, every status is one of the three, and shutdown counts as connected |
| Nodes.BitIsSingle | src/ui_core_interface_nodes_defs.h:241-260 | each NODE_F_ mask is the single bit at its flag's position |
| Nodes.BitsDisjoint | src/ui_core_interface_nodes_defs.h:241-260 | two different flags share no bit |
| Nodes.MaskOfHas | src/ui_core_interface_nodes_defs.h:241-260 | a flag is set in the OR of a list of masks exactly when it is in the list, so the flags are independent booleans |
| Nodes.BitHas | src/ui_core_interface_nodes_defs.h:241-260 | a flag's own mask has that flag set and no other |
| Nodes.ReadableMeaning | src/ui_core_interface_nodes_defs.h:314-315 | NODE_IS_READABLE holds exactly when READABLE is set and NOREAD clear |
| Nodes.EstablishedMeaning | src/ui_core_interface_nodes_defs.h:317-319 | NODE_IS_ESTABLISHED holds exactly when WRITABLE and ESTABLISHED are both set |
| Nodes.PercentUsed | src/ui_core_interface_nodes_defs.h:321-322 | with a queue, the integer quotient of size * 100 by maxsize, at most 100 for a queue within its size; 0 without a queue |
| Nodes.QueueCount | src/ui_core_interface_nodes_defs.h:326-327 | the queue's count, 0 without a queue |
| Nodes.QueuePending | src/ui_core_interface_nodes_defs.h:329-330 | the queue's pending bytes, 0 without a queue |
| Nodes.AboveLowatNeedsQueue | src/ui_core_interface_nodes_defs.h:332-333 | above the low watermark exactly when there is a queue whose size exceeds it |
| Nodes.CanSendRule | src/ui_core_interface_nodes_defs.h:407-425 | non-queries always go out; a query goes out exactly when its hop count is below hops_flow and it is ours or has a route back; hops_flow 0 blocks every query |
| Nodes.SwiftTimings | src/ui_core_interface_nodes_defs.h:441-442 | grace exceeds period in every mode; a leaf gets more of both than any other mode, and all other modes get the same |
| GmLists.SListInsertAfter | src/lib/glib-missing.c:61-77 | one new cell holding the item, the head kept unless prepending, every cell but lnk unchanged, all items kept |
| GmLists.SListPrependCorrect | src/lib/glib-missing.c:65-68 | with lnk NULL the item becomes the new head of a well-formed list |
| GmLists.SListInsertAfterCorrect | src/lib/glib-missing.c:70-76 | inserting after position k gives a well-formed list with the same head and the item at position k + 1, every other item in order |
| GmLists.DListInsertAfter | src/lib/glib-missing.c:87-108 | one new cell holding the item, the head kept unless prepending, all items kept |
| GmLists.DListPrependCorrect | src/lib/glib-missing.c:91-94 | with lnk NULL the item becomes the head and the back links stay consistent |
| GmLists.DListInsertAfterCorrect | src/lib/glib-missing.c:96-107 | inserting after position k keeps forward and back links consistent, with the item at position k + 1 and the head unchanged |
| GmLists.DInsertAfterHeap | src/lib/glib-missing.c:96-105 | exactly lnk, its old successor and the new cell change, as the code's pointer updates say |
| GmFormat.StoredLength | src/lib/glib-missing.c:147-148 | after a NUL at position m the stored string is at most m long, exactly m when the copied text has no NUL |
| GmFormat.DoVsnprintf | src/lib/glib-missing.c:141-162 | every kind of vsnprintf stores a string and returns less than n |
| GmFormat.Vsnprintf | src/lib/glib-missing.c:170-210 | nothing is stored and 0 is returned exactly without a buffer or format, for a size not positive as ssize_t, or above INT_MAX; otherwise the result is below n |
| GmFormat.VsnprintfAcceptedSizes | src/lib/glib-missing.c:174-177 | the accepted sizes are exactly 1 to INT_MAX |
| GmFormat.VsnprintfTruncates | src/lib/glib-missing.c:141-162 | the result is the smaller of the full length and n - 1, and, for output without NUL, the buffer holds that many leading characters of the output and a NUL |
| GmFormat.FlavoursAgree | src/lib/glib-missing.c:141-162 | the C99, pre-C99 and strlcpy variants give the same result and buffer |
| GmAtoul.SkipSpaces | src/lib/glib-missing.c:313 | strtoul skips exactly the leading white space |
| GmAtoul.DigitRun | src/lib/glib-missing.c:313 | strtoul reads exactly the maximal run of decimal digits |
| GmAtoul.StrToUl | src/lib/glib-missing.c:313 | strtoul's value fits unsigned long and is ULONG_MAX on overflow |
| GmAtoul.GmAtoul | src/lib/glib-missing.c:303-329 | an error code is 0, EINVAL or ERANGE; any error comes with 0; EINVAL exactly when the end is the start |
| GmAtoul.AtoulNoDigits | src/lib/glib-missing.c:314-316 | EINVAL exactly when no digit follows the white space and sign |
| GmAtoul.AtoulRoundTrip | src/lib/glib-missing.c:313-322 | the decimal text of any unsigned long converts back to it with error code 0, ending after the digits |
| GmAtoul.AtoulOverflow | src/lib/glib-missing.c:318-320 | a value above ULONG_MAX gives ERANGE and 0 |
| GmAtoul.AtoulMinusOne | src/lib/glib-missing.c:313 | a minus sign negates in unsigned arithmetic: "-1" gives ULONG_MAX without error |
| GmAtoul.AtoulNegates | src/lib/glib-missing.c:313-322 | for every unsigned long v, a minus sign followed by the decimal text of v gives ULONG_MAX + 1 - v (0 for v = 0) without error, ending after the digits |
| GmSanitize.ReplaceMeaning | src/lib/glib-missing.c:422-439 | after replacement no byte offends; a byte changes exactly when it offended, and only to '_' |
| GmSanitize.ReplaceClean | src/lib/glib-missing.c:434-441 | a name with nothing to replace comes back unchanged |
| GmSanitize.ReplaceIdempotent | src/lib/glib-missing.c:422-439 | replacing twice is replacing once |
| GmSanitize.LastDot | src/lib/glib-missing.c:390 | strrchr finds the last '.' or reports there is none |
| GmSanitize.ExtStart | src/lib/glib-missing.c:389-402 | the extension starts at the last dot when it and its NUL are shorter than 256 bytes; otherwise there is none |
| GmSanitize.TruncateMeaning | src/lib/glib-missing.c:382-420 | a name under 256 bytes is kept; a longer one becomes shorter than 256: its start cut on a UTF-8 boundary, then the kept extension |
| GmSanitize.TruncateKeepsExtension | src/lib/glib-missing.c:407-415 | a long name with a short enough extension ends with that extension |
| GmSanitize.TruncateCString | src/lib/glib-missing.c:405-417 | truncation brings in no NUL |
| GmSanitize.SanitizeMeaning | src/lib/glib-missing.c:360-442 | the result is a C string shorter than 256 bytes with nothing left to replace; a short clean name comes back unchanged |
| GmSanitize.SanitizeIdempotent | src/lib/glib-missing.c:360-442 | sanitising a sanitised name changes nothing |
| Rfc4648.Decode | src/lib/urn.c:65 | the decoder succeeds exactly on text within the alphabet |
| Rfc4648.DecodeLength | src/lib/urn.c:65-67 | n characters decode to the whole bytes their bits make: floor(width * n / 8) |
| Rfc4648.EncodeLength | src/lib/urn.c:94-96 | an encoding has as many characters as the bits of the bytes need |
| Rfc4648.DecodeEncode | src/lib/urn.c:65-96 | round trip: decoding an encoding gives back the bytes, in both alphabets |
| Rfc4648.Base32TestVector | src/lib/urn.c:65 | BASE32("f") is "MY", padding aside |
| Rfc4648.Base16TestVector | src/lib/urn.c:94 | BASE16("f") is "66" |
| Urn.DecodeExactValid | src/lib/urn.c:65-67 | for text of the right length, decoding yields exactly the expected bytes iff every character is in the alphabet |
| Urn.ParseBase32Sha1 | src/lib/urn.c:52-70 | succeeds exactly when at least 32 characters are readable and the first 32 are base32, giving 20 bytes |
| Urn.ParseBase16Sha1 | src/lib/urn.c:81-99 | succeeds exactly when at least 40 characters are readable and the first 40 are base16, giving 20 bytes |
| Urn.UrnGetSha1 | src/lib/urn.c:107-139 | a SHA1 is found only after a case-insensitive "urn:sha1:" or "urn:bitprint:" and has 20 bytes |
| Urn.UrnGetSha1NoPrefix | src/lib/urn.c:251-279 | a SHA1 is found only after "sha1:" or "bitprint:" and has 20 bytes |
| Urn.UrnPrefixOptional | src/lib/urn.c:107-139 | urn_get_sha1 on a text beginning with "urn:" equals urn_get_sha1_no_prefix on the rest; without "urn:" it fails |
| Urn.Sha1ValueBase32 | src/lib/urn.c:128-130 | a base32 SHA1 is read back whatever follows it |
| Urn.Sha1ValueBase16 | src/lib/urn.c:128-138 | base32 is tried first: a base16 SHA1 is read back unless its first 32 characters also read as base32 |
| Urn.UrnGetSha1Base32 | src/lib/urn.c:118-130 | round trip: "urn:sha1:" and a base32 SHA1 give back the SHA1 |
| Urn.UrnGetSha1Bitprint | src/lib/urn.c:113-130 | round trip: a bitprint URN gives back its SHA1 |
| Urn.UrnGetBitprint | src/lib/urn.c:148-198 | both digests are found only after a case-insensitive "urn:bitprint:", with 20 and 24 bytes |
| Urn.UrnGetBitprintBase32 | src/lib/urn.c:168-197 | round trip: a base32 bitprint URN gives back both digests |
| Urn.UrnGetBitprintBase16 | src/lib/urn.c:173-197 | a base16 bitprint URN gives back both digests, except that it is refused when its first 32 SHA1 characters also read as base32 |
| Urn.UrnGetBitprintRefusesHex | src/lib/urn.c:173-188 | a well-formed base16 bitprint of all 'A's is refused |
| Urn.UrnGetBitprintFallback | src/lib/urn.c:173-188 | with the base16 reading tried whenever the base32 one is not followed by '.', digests are still found only after the prefix |
| Urn.UrnGetBitprintFallbackRoundTrip | src/lib/urn.c:168-197 | with that fallback, a bitprint URN in either alphabet gives back both digests |
| Urn.FallbackExtends | src/lib/urn.c:168-197 | the fallback gives the same answer wherever the code as written succeeds |
| Urn.UrnGetTth | src/lib/urn.c:206-238 | a TTH is found only after a case-insensitive "urn:tree:tiger" and has 24 bytes |
| Urn.UrnGetTthRoundTrip | src/lib/urn.c:216-237 | round trip: "urn:tree:tiger:" or "urn:tree:tiger/:" and a base32 TTH give back the TTH |

## Left out

- `html_view.c`, `hcache.h`, `g2_cache.h`, `version.c` and `bitzi.h` are UI glue or prototypes only. The node engine behind the node macros (ping acceptance, flow control, swift-mode callbacks, queue internals) is not part of this model: only its macros are present.
- `NODE_TX_COMPRESSION_RATIO` and `NODE_RX_COMPRESSION_RATIO` are not modelled: they are floating point.
- The remaining `NODE_*` accessors (`NODE_IS_INCOMING`, `NODE_IS_WRITABLE`, the peer-mode tests, the statistics counters) are plain field reads or increments. They are modelled only where another macro uses them.
- `route_exists_for_reply` is foreign code, so it is a boolean parameter of `Nodes.CanSend`. GTA_MSG_SEARCH (0x80) comes from a header that is not part of this model.
- Nodes.PercentUsed: does not model an overflow of `mq_size * 100` in C integer arithmetic. The product is taken as exact, and the queue functions' integer types are not part of this model.
- Dime.SetData: the data is a byte sequence, so a NULL pointer with a nonzero size cannot be expressed. The C code accepts that case: its check at src/core/dime.c:366-371 is compiled out.
- Dime.SetId and Dime.SetType take C strings. An id or type containing a NUL byte would be cut short by strlen in C; the model requires NUL-free bytes instead.
- Nodes.PongState: the 8-bit `pong_needed` and `pong_missing` counters are bytes, but their sum is an unbounded integer. The invariant can hold only while the sum stays below 256, which is what Nodes.PongInvariantBounds states.
- Memory management is not modelled: allocation, freeing, `dime_list_free` and logging of truncated records. The list functions take the new cell as a parameter.
- `gm_setproctitle`, `gm_savemain`, `g_string_append_len` and the `G_*LIST_FOREACH` macros are not modelled. They handle process memory or are glib 1 shims.
- The formatter is not modelled: the formatted output is a parameter. The model also leaves out the C99 vsnprintf's negative return on an encoding error.
- gm_atoul's `errno` save and restore and the NULL `endptr` case are not modelled. Neither has an observable effect on the result.
- GmSanitize.Sanitize: `locale_to_utf8_normalized` is not modelled. The name is taken as already converted.
- GmSanitize.Sanitize: `utf8_strlcpy` is modelled by its contract only: keep the longest prefix that fits and does not end inside a UTF-8 character. Invalid UTF-8 is not treated specially.
- Rfc4648.Decode: the base32 and base16 decoders (`base32.c`, `base16.c`) are not part of this model. They are implemented here per RFC 4648, with three choices:
  - lower case is accepted;
  - characters outside the alphabet are refused;
  - trailing bits beyond the last whole byte are dropped without checking that they are zero.
- `is_strcaseprefix` and `clamp_strlen` (from `misc.c`) are not part of this model. They are implemented in `CStrings` from their documented behaviour.
- The SHA1 and TTH sizes come from headers that are not part of this model. They use the standard values: 20, 32 and 40 for SHA1; 24, 39 and 48 for TTH.

## Findings

| source | as written | input that shows it | evidently intended | confidence | as-written member | corrected member |
|---|---|---|---|---|---|---|
| src/core/dime.c:343-348 | the MB test compares the start of the input with the read position after it has advanced past the record just parsed, so it never fires | one empty record with ME set and MB clear | the first record of a message must carry MB, as the FIXME warning says | high, not executed | Dime.MessageBeginNotEnforced | Dime.StrictRejectsUnbegunMessage |
| src/lib/urn.c:173-188 | base32 is tried on the first 32 characters, and base16 only when that fails; when a hex SHA1's first 32 characters are also valid base32, the base32 reading is followed by hex digits rather than '.', and the URN is refused | "urn:bitprint:" then 40 times 'A', '.', then 48 times 'A' | a well-formed base16 bitprint is read as base16, as the comment at lines 161-165 promises | medium, not executed | Urn.UrnGetBitprintRefusesHex | Urn.UrnGetBitprintFallbackRoundTrip |
