# A verified model of the Couchbase PHP client's native core

The PHP client is a C extension over libcouchbase. This project models the parts of it that compute
something themselves, and proves what they promise:

- **FastLZ**, the LZ77 compressor and decompressor bundled with the client. `FastLZFormat` gives the two
  wire formats and what any bytes decode to; `FastLZParse` says how an input is cut into operations;
  `FastLZ` joins the two (lossless, size bound, independence from the byte after the input);
  `FastLZChoices` tells which operations the compressor chooses; `FastLZReads` tells when decompression
  stays inside its block;
  `FastLZCompressor`, `FastLZDecompressor` and `FastLZLibrary` are the C functions, in place on arrays,
  each proved equal to those specifications.
- **The value transcoder** (`Transcoder`, `TranscoderRules`, `TranscoderMethods`): a PHP value to bytes and flags and back,
  with FastLZ inside.
- **Base 36 text** (`Base36`), in which CAS values travel through PHP.
- **Queue and set operations on a shared list** (`SharedList`, `SharedSet`, `SharedListClient`): two-request protocols of
  many clients, guarded by CAS.
- **The persistent connection pool** (`PoolSpec` as a state machine, `PoolHeap` on shared objects).
- **Mutation tokens** (`MutationState` on sequences, `MutationHistory` on what a query is told over every
  history, `MutationChain` as the linked chain).
- **Argument parsing** (`ParamParser`, `ParamIterator`, `ParamRules`) and **response lists** (`Responses`).

## Where the code and its documentation part

The model follows the code. In these places the promise fails, and the project proves exactly when it holds:

- `fastlz/fastlz.h:66-67` calls decompression memory safe. Writes and back references are; but match
  operands are read without looking at the end of the block (`fastlz/fastlz.c:442-461`), as in
  `FastLZReads.OperandBehindBlock`. `FastLZReads.ReadsBeyond` tells for all blocks exactly when that happens,
  from the block cut by its control bytes and lengths, and that otherwise what lies behind the block makes no
  difference. `DecodeFrom` takes all readable memory as an argument and has an outcome `OverRead` for reads
  beyond that, so its result covers whatever bytes follow.
- A compressed boolean is decoded by its length (`couchbase.c:768-774`), so a compressed `false` comes back
  as `true`: `Transcoder.CompressedFalseIsTrue`, and `Transcoder.BoolRoundTrip` for all cases.
- An empty string does not come back from FastLZ under a negative compression factor: `Transcoder.RoundTrip`.
- `queueRemove` on an empty list goes on to remove without a CAS (`src/couchbase/bucket.c:907-932`); an
  element added in between is taken but null is returned: `SharedList.LostElement`, and
  `SharedList.DeliveredIsTaken` says exactly in which runs
  nothing is lost.
- A mutation token's vbucket is compared with itself (`src/couchbase/mutation_state.c:37`), so a token can
  overwrite another vbucket's (`MutationState.VbucketLost`; `MutationState.AddKeepsOthers` says exactly when
  none is lost), and an older token added later is the one exported (`MutationState.StaleExport`;
  `MutationHistory.AlwaysToldNewest` says exactly in which histories a query is always told the newest).
- `pcbc_pp_begin` copies the call's arguments to an array of ten without counting them
  (`paramparser.c:92-105`); more give the outcome `Overflow` (`ParamIterator.State.Begin`).

## Assumptions

- FastLZ lengths are C ints, so inputs are shorter than 2^31 bytes. Level 2 may look at one byte past the
  input; the client always compresses PHP strings, which end with a zero byte.
- The size preamble is stored low byte first. FastLZ takes it as a C int, so 2^31 and above are negative room,
  and every operation is refused.
- JSON, PHP serialize, igbinary, zlib and number printing are arbitrary functions (`Transcoder.Codecs`); where
  a round trip needs one of them to be lossless on the value at hand, the lemma says so.
- Requests to the server are atomic, every mutation takes a CAS value never used before and never 0, and a
  mutation sent with CAS 0 is unconditional. List elements are compared by one equality and are not null.
- The clock is positive. Whether connecting and caching succeed is a parameter.

## Model

| member | source | states |
|---|---|---|
| FastLZFormat.HeaderRoundTrip | fastlz/fastlz.c:302-369 | for every legal length and distance the decoder recovers both from the header and stops exactly behind it, whatever follows; near distances never look like the far escape |
| FastLZFormat.ReadChainOfChain | fastlz/fastlz.c:318-320 | a level 2 chain of 255s is summed back to its length |
| FastLZFormat.WireInjective | fastlz/fastlz.c:306-369 | two operation lists with the same bytes are the same list |
| FastLZFormat.DecodeWire | fastlz/fastlz.c:429-548 | the layout of valid operations decodes to their expansion if that fits the output and is refused if not, reading nothing beyond the block |
| FastLZFormat.DecodeFrom | fastlz/fastlz.c:429-548 | on any bytes at all, a successful decoding is longer than what was there and never longer than maxout |
| FastLZParse.ScanRule | fastlz/fastlz.c:267-289 | the scan goes on to the first byte that differs from its back reference or to the limit, and the bytes before that one are equal |
| FastLZParse.TakeTurn | fastlz/fastlz.c:208-289 | a match found has a distance of at least 1 within the level's limit, covers equal bytes, and is long enough if far; every hash slot stays before the next position |
| FastLZParse.CopyBackOfRepeat | fastlz/fastlz.c:478-525 | copying a repeat byte by byte onto the bytes before it reproduces the input up to the repeat's end |
| FastLZParse.CopyOpsLossless | fastlz/fastlz.c:349-368 | a match split at 262 bytes still expands to the whole match |
| FastLZParse.ParseLossless | fastlz/fastlz.c:206-410 | from any position and any hash table the remaining operations are valid and expand the accounted input to the whole input |
| FastLZ.Lossless | fastlz/fastlz.c:130-162 | decompressing a compressed block gives the input if maxout has room for it and is refused otherwise, for both levels, all lengths and any bytes after the block |
| FastLZ.ParseSize | fastlz/fastlz.c:206-410 | from any position the remaining bytes are at most one more per 32 bytes of remaining input |
| FastLZ.SizeBound | fastlz/fastlz.c:179-417 | a block is at most n + ceil(n/32) bytes |
| FastLZ.GuardByteIrrelevant | fastlz/fastlz.c:371-375 | the block depends on the input alone, not on the byte after it that level 2 may hash |
| FastLZChoices.TurnRule | fastlz/fastlz.c:208-262 | a turn takes level 2's run, else the slot's candidate if and only if it is within the level's distance and agrees in three bytes (five if far), else a literal; the slot then remembers the position |
| FastLZChoices.MatchIsMaximal | fastlz/fastlz.c:264-289 | a match found is followed to the first difference or to two bytes before the end of the input, and covers exactly the equal bytes |
| FastLZChoices.SplitRule | fastlz/fastlz.c:349-368 | level 1 splits a match into copies of 262 and a last one of 3 to 264; level 2 never splits |
| FastLZChoices.LiteralsAreGrouped | fastlz/fastlz.c:376-410 | in every block a group of fewer than 32 literals is followed by a copy or nothing |
| FastLZChoices.TurnKeepsIndexed | fastlz/fastlz.c:221-231 | every hash slot remembers the first byte or an earlier position of its own hash |
| FastLZChoices.HashExamples | fastlz/fastlz.c:97-104 | the hash of six strings |
| FastLZChoices.BoundaryRule | fastlz/fastlz.c:371-375 | after a match its last two positions are remembered, and no other slot changes |
| FastLZChoices.ChainRule | fastlz/fastlz.c:318-320 | a length chain is k/255 times 255 and then the rest |
| FastLZChoices.CopyBytesRule | fastlz/fastlz.c:306-369 | the bytes of a copy by length and distance, in numbers |
| FastLZChoices.RunParse | fastlz/fastlz.c:206-410 | fifteen or more equal bytes become two literals, one match of all but the last three, and those |
| FastLZChoices.RunSize | fastlz/fastlz.c:206-410 | n equal bytes take 3 bytes per 262 at level 1, one per 255 at level 2, and at most ten more |
| FastLZChoices.RunBytes | fastlz/fastlz.c:179-417 | the ten bytes that 15 to 268 equal bytes compress to |
| FastLZCompressor.ScanRun | fastlz/fastlz.c:267-273 | the run scan, which compares one byte value, stops where the general scan does: at the first difference or the bound (ScanRule) |
| FastLZCompressor.ScanPair | fastlz/fastlz.c:275-289 | eight unguarded comparisons and a bounded loop stop at the first difference or the limit, as the general scan does (ScanRule), inside the input |
| FastLZCompressor.FindMatch | fastlz/fastlz.c:208-289 | match search and hash update in place are the specified turn |
| FastLZCompressor.UpdateBoundary | fastlz/fastlz.c:371-375 | two positions are hashed at the end of a match |
| FastLZCompressor.EmitChain | fastlz/fastlz.c:318-320 | the length loop writes exactly the chain and nothing else |
| FastLZCompressor.EmitCopy | fastlz/fastlz.c:307-369 | one copy is written exactly as encoded and nothing else changes |
| FastLZCompressor.EmitMatch | fastlz/fastlz.c:349-368 | a whole match, split at level 1, is written exactly as its operations |
| FastLZCompressor.CloseLiterals | fastlz/fastlz.c:291-297 | the back-patched count hits the group's own control byte, or the unused one is dropped |
| FastLZCompressor.EmitLiteral | fastlz/fastlz.c:382-390 | a literal joins the open group; a group of 32 is closed; the room bound is kept |
| FastLZCompressor.OneTurn | fastlz/fastlz.c:206-391 | one turn moves operations from still-to-come to written and keeps buffer, hash table and room invariants |
| FastLZCompressor.Finish | fastlz/fastlz.c:393-410 | left-over bytes become literals and the last group is closed |
| FastLZCompressor.CompressLevel | fastlz/fastlz.c:166-418 | the bytes written are exactly the specified block, and nothing beyond n + 1 + n/32 bytes is ever touched, transient count byte included |
| FastLZDecompressor.FillRun | fastlz/fastlz.c:478-487 | the run fill equals the byte-by-byte copy at distance 1 |
| FastLZDecompressor.CopyBytes | fastlz/fastlz.c:494-523 | the portable copy equals the byte-by-byte copy |
| FastLZDecompressor.CopyWords | fastlz/fastlz.c:500-520 | the unrolled 16-bit copy equals the byte-by-byte copy at any distance of 2 or more |
| FastLZDecompressor.ReadOperands | fastlz/fastlz.c:440-463 | length, distance and position read from a match header, with wrapping 32-bit sums and over-reads |
| FastLZDecompressor.DecompressLevel | fastlz/fastlz.c:420-549 | on any bytes the result is the specified outcome, output[maxout..] is untouched and the result is at most maxout |
| FastLZLibrary.Compress | fastlz/fastlz.c:130-138 | the block of level 1 below 65536 bytes, else of level 2, whose mark its first byte bears |
| FastLZLibrary.CompressLevel | fastlz/fastlz.c:154-162 | the requested level, and nothing at all for any other number |
| FastLZLibrary.Decompress | fastlz/fastlz.c:140-152 | the level is read from the first byte; unknown levels are refused; a negative maxout leaves no room |
| FastLZReads.OutcomeForetold | fastlz/fastlz.c:429-548 | on any block with nothing behind it, the outcome and its size are told by the cut into operations: one refused or literals cut short refuse it, a header cut short is read beyond the end, the rest decode |
| FastLZReads.HeaderCutShort | fastlz/fastlz.c:440-463 | a header is cut short exactly when the block ends within its length bytes, before its offset byte or within the far distance |
| FastLZReads.SameInside | fastlz/fastlz.c:429-548 | a block that is not read beyond its end decodes the same whatever follows it |
| FastLZReads.ReadsBeyond | fastlz/fastlz.c:140-152 | the decompressor reads beyond a block if and only if it is empty or ends inside a match header with no operation refused before; otherwise what follows makes no difference |
| FastLZReads.Decodes | fastlz/fastlz.c:140-152 | a block decodes if and only if it is cut whole with no operation refused, and then to the sum of its operations' sizes |
| FastLZReads.OperandBehindBlock | fastlz/fastlz.c:442-461 | a three-byte block whose result depends on the byte behind it |
| Transcoder.PreambleRoundTrip | couchbase.c:628-629 | the four-byte size comes back for every size below 2^32 |
| Transcoder.FieldsAreDisjoint | couchbase.c:647-652 | compressing sets the compression field and the private format and leaves the type readable |
| Transcoder.FlagsNeverZero | couchbase.c:452-673 | the encoder never emits flags 0 |
| TranscoderRules.PreparedRule | couchbase.c:467-575 | the bytes and flags, in numbers, of every kind of value before compression, and when there are none |
| TranscoderRules.CompressionRule | couchbase.c:577-662 | the compressed bit is set if and only if the length reaches the threshold and the compressor asked for is there, succeeds and pays by the factor; then size, data and flags are these, otherwise bytes and flags are the prepared ones |
| TranscoderRules.NeverLonger | couchbase.c:640-652 | with a factor of 1 or more the result is the prepared value or shorter |
| TranscoderRules.DecodingTable | couchbase.c:706-819 | the decoding of any bytes under any flags not compressed, in numbers: flags 0 may be JSON or a string, types 0 to 6, JSON, string and raw formats, and null for all others |
| TranscoderRules.DecodingCompressed | couchbase.c:706-744 | compressed data decodes as its plain data under the private format and its type; missing, failing and unknown compressors as listed |
| Transcoder.PackRoundTrip | couchbase.c:583-638 | what either compressor packs is unpacked to the data, except empty data under FastLZ |
| Transcoder.DecodeCompressed | couchbase.c:706-744 | a compressed value of any type is decoded by its type from its own data |
| Transcoder.RoundTrip | couchbase.c:452-825 | strings, null, arrays, objects and uncompressed numbers come back under every serialiser, compressor, threshold and factor if and only if the foreign code restores them, with exactly one exception |
| Transcoder.BoolRoundTrip | couchbase.c:768-774 | a boolean comes back if and only if it is true or was left uncompressed |
| Transcoder.CompressedFalseIsTrue | couchbase.c:768-774 | one compressed false that decodes to true |
| TranscoderMethods.BufferSuffices | couchbase.c:623-625 | max(66, n + n/20) always covers the room the compressor uses |
| TranscoderMethods.PackFastLZ | couchbase.c:615-634 | in a buffer of that size the compressed value, preamble and terminator are all in bounds |
| TranscoderMethods.BasicEncoder | couchbase.c:452-673 | the encoder as written equals the specified encoding |
| TranscoderMethods.BasicDecoder | couchbase.c:675-825 | the decoder as written equals the specified decoding |
| Base36.DecodeStr | src/couchbase/base36.c:19-41 | the wrapping Horner loop computes the base 36 value of the letters and digits modulo 2^64 |
| Base36.EncodeStr | src/couchbase/base36.c:43-58 | the backward loop in a 14-byte buffer writes the shortest base 36 text |
| Base36.LengthBound | src/couchbase/base36.c:46-56 | every 64-bit number has at most 13 digits, so none is cut off |
| Base36.RoundTrip | src/couchbase/base36.c:19-58 | every 64-bit number comes back from its text |
| Base36.TextRoundTrip | src/couchbase/base36.c:19-58 | a text comes back from its number if and only if it is canonical and its value is below 2^64 |
| Base36.DecodeIgnores | src/couchbase/base36.c:29-37 | two texts have the same digits, and so decode alike, if and only if they agree after folding case and dropping all but letters and digits |
| Base36.EncodeIsCanonical | src/couchbase/base36.c:43-58 | encoder output is lower case without a leading zero |
| Base36.AlphabetRule | src/couchbase/base36.c:45-56 | the digits are the characters of the literal alphabet |
| Base36.DigitRule | src/couchbase/base36.c:28-37 | exactly letters and digits count, each as the digit it is written for |
| Base36.TextOrder | src/couchbase/base36.c:19-58 | canonical texts of equal length are ordered as their values |
| Base36.CasRoundTrip | src/couchbase/base36.c:60-79 | a CAS value survives its trip through PHP |
| SharedList.RunKeepsInv | src/couchbase/bucket.c:790-941 | in every run of any clients, while a version lasts each client's memory of the list is accurate, and every finished removal told the truth |
| SharedList.RemovalsAreExact | src/couchbase/bucket.c:790-881 | in every run of any clients, a setRemove returning true took out exactly the first occurrence and kept the rest in order; one returning false changed nothing |
| SharedList.SameVersionSameDocument | src/couchbase/bucket/subdoc.c:149-155 | after any run, the same version means the same document |
| SharedList.QueueIsFifo | src/couchbase/bucket.c:884-941 | for every interleaving, initial and added elements in order are the taken elements followed by the reverse of the list; a result is exactly what its own removal took unless its lookup saw an empty list |
| SharedList.DeliveredIsTaken | src/couchbase/bucket.c:907-940 | in every run of any clients, the elements returned are exactly those taken, in order, if and only if no client that saw an empty list sends its remove to a list that has elements by then |
| SharedList.LostElement | src/couchbase/bucket.c:907-940 | a run in which an element is taken and null returned |
| SharedList.RunKeepsSet | src/couchbase/bucket.c:696-719 | with only set operations the list never gains a duplicate |
| SharedSet.SetAddRule | src/couchbase/bucket.c:696-719 | setAdd puts an absent value behind the others under a new CAS; a present value or a missing document changes nothing |
| SharedSet.SetMembership | src/couchbase/bucket.c:696-881 | after every run of set operations a value is in the list if and only if its last addition or successful removal was an addition, or without either it was there before |
| SharedSet.AddedStays | src/couchbase/bucket.c:696-881 | a value added is in the list after every further run unless a later setRemove of it returned true |
| SharedSet.MissingRule | src/couchbase/bucket.c:575-598 | without a document, additions create none and lookups and removals find nothing |
| SharedList.QueueRemoveAlone | src/couchbase/bucket.c:884-941 | undisturbed, the last element is taken and returned, or null on an empty list |
| SharedList.SetRemoveAlone | src/couchbase/bucket.c:790-881 | undisturbed, the first occurrence goes and the result is true; an absent value changes nothing |
| SharedList.FindIndex | src/couchbase/bucket.c:829-841 | the search loop finds the first occurrence or -1 |
| SharedList.SetExists | src/couchbase/bucket.c:752-784 | true if and only if the value is in the list |
| SharedListClient.QueueRemove | src/couchbase/bucket.c:884-941 | the requests in sequence, with the CAS through its text, whatever others do in between: undisturbed the last element is removed and returned, a conflict changes nothing, and after an empty lookup whatever is last is removed and null returned |
| SharedListClient.SetRemove | src/couchbase/bucket.c:790-881 | the requests in sequence remove the first occurrence, report absence, raise for a missing document, or, if others changed it in between, leave their document alone and return false |
| PoolSpec.KeyInjective | src/couchbase/pool.c:323-327 | different types, connection strings or hashes never share a key, even with bars in the connection string |
| PoolSpec.StepKeepsInv | src/couchbase/pool.c:199-218 | each step keeps references equal to holders, idle times right, every holder's own connection alive, and no connection under two keys |
| PoolSpec.PoolSafety | src/couchbase/pool.c:307-411 | after every run from a fresh process: the very connection a holder was given is live under its key, references count the live holders of that connection, it is idle exactly when unreferenced, and none serves two keys |
| PoolSpec.EvictionRule | src/couchbase/pool.c:394-410 | cleanup destroys a connection if and only if nobody holds it and its last release is more than 60 seconds ago |
| PoolSpec.SharingRule | src/couchbase/pool.c:329-371 | two objects hold the same connection if and only if all three parameters agree; a destroyed entry is replaced by a new connection |
| PoolSpec.HolderRule | src/couchbase/bucket_manager.c:523-531 | a manager comes to hold its bucket's connection, a freed object nothing, and no step changes what another object holds |
| PoolHeap.Pool.Get | src/couchbase/pool.c:307-372 | hit, establish, cache and failure paths give the specified slots, the caller gets the entry's own object, every other entry keeps its own and nothing is closed |
| PoolHeap.Pool.Share | src/couchbase/bucket_manager.c:523-531 | a manager adds one reference to its bucket's connection and changes no other |
| PoolHeap.Pool.Release | src/couchbase/bucket_manager.c:488-498 | a dying object drops one reference and changes no other |
| PoolHeap.Pool.SweepEntry | src/couchbase/pool.c:374-411 | an entry is destroyed only if it has expired, and no other connection is closed |
| PoolHeap.Pool.Cleanup | src/couchbase/pool.c:413-418 | visiting the entries in any order gives the specified sweep: exactly the expired connections are closed and every other entry keeps its own |
| MutationState.RunCovers | src/couchbase/mutation_state.c:31-64 | after any additions: no (sequence number, id) twice in a bucket, only added tokens, and every added token is matched or exceeded in its bucket |
| MutationState.LargestIsKept | src/couchbase/mutation_state.c:31-64 | a bucket's largest sequence number is the largest ever added to it |
| MutationState.AddTwice | src/couchbase/mutation_state.c:41-44 | adding a token twice is adding it once |
| MutationState.AddRule | src/couchbase/mutation_state.c:35-63 | nothing if a token of equal bucket, sequence number and id is there; else the last older one of the bucket is overwritten; else the token goes behind the others |
| MutationState.AddKeepsAll | src/couchbase/mutation_state.c:37-47 | an addition keeps all tokens if and only if it is redundant or nothing in its bucket is older, whatever the vbuckets |
| MutationState.AddKeepsOthers | src/couchbase/mutation_state.c:37-47 | an addition keeps the tokens of all other vbuckets if and only if it is redundant, finds nothing older in its bucket, or overwrites one of its own vbucket |
| MutationState.VbucketLost | src/couchbase/mutation_state.c:37 | the token of one vbucket is lost to another's |
| MutationState.ExportIsLast | src/couchbase/mutation_state.c:180-217 | a vbucket is exported with its last token in the chain, and only if it has one |
| MutationState.StaleExport | src/couchbase/mutation_state.c:180-217 | an older token added later is the one exported |
| MutationHistory.NewestIsLargest | src/couchbase/mutation_state.c:39-41 | the newest of a history is the largest sequence number ever added for the vbucket, and none if nothing was |
| MutationHistory.AddTells | src/couchbase/mutation_state.c:31-64 | an addition moves what a query is told of a vbucket to the newer of the two if and only if it is harmless: a condition on the chain's last and overwritten tokens |
| MutationHistory.AlwaysToldNewest | src/couchbase/mutation_state.c:31-217 | over every history of additions, a query is at every moment told the newest mutation of a vbucket if and only if every addition was harmless to it |
| MutationHistory.OneVbucket | src/couchbase/mutation_state.c:37-47 | with one vbucket whose newest token is last, an addition is harmless if and only if it is redundant, overwrites an older token, or is as new as all there are |
| MutationChain.State.Search | src/couchbase/mutation_state.c:35-47 | the walk finds an identical token or the last older one |
| MutationChain.State.AddToken | src/couchbase/mutation_state.c:31-64 | head, tail and count keep describing one acyclic chain whose tokens are the specified sequence |
| MutationChain.State.ExportForN1ql | src/couchbase/mutation_state.c:180-217 | the walk builds the specified export |
| ParamParser.ParseWritten | paramparser.c:114-164 | whatever names are written in whatever sections are read back with their kinds |
| ParamRules.SectionRule | paramparser.c:114-164 | names of the first section are required, of the second optional, of all later ones named, each read once in its place |
| ParamRules.AcceptedRule | paramparser.c:133-215 | which calls are accepted, by counting required and positional arguments |
| ParamRules.IdRule | paramparser.c:223-300 | the number of ids and each id: a text, a key, or the value under an integer key |
| ParamRules.OptionRule | paramparser.c:240-281 | an option is the id's own value under its name, else the positional argument passed or the value in the options array, else none |
| ParamIterator.State.Scan | paramparser.c:114-164 | the character loop collects the specified arguments, counts and positional values, and fails exactly on a first name other than id |
| ParamIterator.State.Begin | paramparser.c:90-216 | succeeds if and only if the arguments are acceptable, with every value bound to its common value; more than ten overflow the array |
| ParamIterator.State.Next | paramparser.c:234-300 | gives the next id with the options of ParamRules.OptionRule, or ends with the common ones |
| ParamIterator.Iterate | src/couchbase/bucket/get.c:91-131 | exactly as many turns as the key count announces, one per id, in order, each with its options as ParamRules.OptionRule gives them; nothing leaks between ids |
| Responses.FirstErrorIsEarliest | opcookie.c:51-53 | success if and only if every response succeeded, else the earliest failure |
| Responses.MappedIsLast | src/couchbase/bucket.c:1257-1275 | a multi-key result maps exactly the keys that got a response, each to its last |
| Responses.MappedCarries | src/couchbase/bucket/store.c:60-70 | in a multi-key result a key's last response stands as its CAS, or as its error code |
| Responses.SingleIsLast | src/couchbase/bucket/store.c:60-70 | a single-key result is the last response's CAS or error |
| Responses.Cookie.Push | opcookie.c:40-54 | the list stays one chain in order of arrival with its first error |
| Responses.Cookie.NextRes | opcookie.c:56-63 | iteration returns the pushed responses in order |
| Responses.Cookie.StoreResults | src/couchbase/bucket/store.c:49-80 | a single-key store fails exactly when a response failed; otherwise responses are entered in order |

## Left out

- Transcoder.Encode: under FastLZ, data of 2^31 bytes or more; the C code then passes a truncated length, which this model does not follow.
- TranscoderMethods.BasicEncoder: what follows when a serialiser fails; the C code then takes the length of a value that is no string. The model returns no result.
- Transcoder.RoundTrip: compressed numbers, which the C code parses from a buffer without a terminator.
- ParamParser.Fetch: PHP treats decimal key names as integers; argument names in specifications are never decimal.
- ParamIterator.State.Begin: specifications beyond the fixed numbers of arguments and characters, or whose first argument is not a required id; callers pass only constants within these. The same holds for ParamIterator.State.Scan.
- FastLZ inputs of more than 2^31 - 1 bytes and pointer wrap-around on 32-bit machines.
- The libcouchbase calls, network, HTTP, N1QL, view and search requests; PHP engine details; query builders, facets, user settings and authenticators, which are setters.
- Connection string normalisation, which rests on PHP's URL parser.
- The search export of mutation tokens, which keys by vbucket and id alone.
- The zlib and FastLZ functions exported to PHP next to the transcoder, and datainfo.h, which nothing uses.
