# Verified models of the Couchbase Ruby client

Dafny models of the self-contained cores of the client, with proofs of what they promise on every input, in every run or
in every interleaving. Code that loops or mutates is modelled by methods and classes proved equal to functions of their
inputs; concurrent code is modelled as transition systems whose runs are quantified over. Exceptions are the `Err`
case of a result.

| files | part of the client |
|---|---|
| `Base64`, `Base64Theorems`, `Base64Layout` | the Base64 codec, pretty-printing included (RFC 4648, sections 3.5 and 4) |
| `Leb128`, `Leb128Theorems` | unsigned LEB128 for 8, 16, 32 and 64 bits (section 7.6 of DWARF Version 4) |
| `SharedProvider` | the lazily created random provider: double-checked locking among any number of calls |
| `FanOut`, `MultiOps`, `MultiTheorems` | get, upsert and remove of many documents: validation, dispatch, collection, Ruby results |
| `TraceWriter` | the bounded backtrace writer |
| `Hex`, `Uuid` | hexadecimal and UUID text (section 3 of RFC 4122) |
| `Unique`, `SearchQuery`, `QueryTrees`, `MutationStates`, `QueryOptions` | de-duplicating builders, compound search queries and trees of them, mutation tokens, query settings |
| `Bits`, `Sequences`, `Wrappers` | shifts and bitwise operators on naturals, concatenation, option and result types |

Bytes are integers below 256. Shifts, `|` and `&` are defined bit by bit on naturals in `Bits`, and the methods use them where
the C++ does; truncation to a machine width is always written out.

Where code and comments disagree the model follows the code: `decode_quad` yields up to three bytes, not two; the constructor of
`Options::Query` can hold a scan level and a mutation state at once although each is said to override the other
(`ConsistencyExclusiveIff`); the example of `upsert_multi` passes a flat list, while the block takes each element apart as
a pair, so that a hash is taken for an id and the call raises (`FlatListRaises`); `to_hex` writes a prefix that `from_hex` refuses
(`PrefixIsRefused`); a directly built disjunction compares its minimum with its children before `uniq`
(`DisjunctionMeaningIff`).

## Model

| member | source | states |
|---|---|---|
| `Base64.CodemapAt` | ext/couchbase/platform/base64.cc:36-36 | each of the 64 entries of the lookup table is the alphabet character of that value |
| `Base64.CodeOfVal` | ext/couchbase/platform/base64.cc:36-63 | value and character determine each other, so table and `code2val` are a bijection |
| `Base64.EncodeTriplet` | ext/couchbase/platform/base64.cc:104-112 | the shifts and masks append the four sextets of the three bytes, whose meaning bit by bit is `CharactersSpellBits` |
| `Base64.EncodeRest` | ext/couchbase/platform/base64.cc:72-96 | one or two bytes give a quad with zero spare bits that ends in two or one `=` (61); any other count throws |
| `Base64.Encode` | ext/couchbase/platform/base64.cc:153-195 | the loop with its chunk counter produces the plain encoding, or in pretty mode one 64-character line per 48 bytes |
| `Base64.DecodeQuadBits` | ext/couchbase/platform/base64.cc:121-149 | joining sextets with `or` and cutting bytes out appends one, two or three bytes or throws, and returns how many |
| `Base64.DecodeText` | ext/couchbase/platform/base64.cc:197-232 | the offset loop equals decoding from the front, errors included, the first one winning |
| `Base64Theorems.PlainRoundTrip` | ext/couchbase/platform/base64.cc:153-232 | decoding the plain encoding of any byte string gives it back |
| `Base64Theorems.PrettyRoundTrip` | ext/couchbase/platform/base64.cc:153-232 | so does decoding the pretty-printed encoding, with newlines in between |
| `Base64Theorems.CanonicalForm` | ext/couchbase/platform/base64.cc:121-232 | decoding and re-encoding gives the text back if and only if it is canonical; the canonical texts are exactly the image of the encoder |
| `Base64Theorems.Acceptance` | ext/couchbase/platform/base64.cc:121-232 | `decode` succeeds if and only if the text is a sequence of white space and valid quads, and then yields the concatenation of their bytes |
| `Base64Theorems.Rejection` | ext/couchbase/platform/base64.cc:197-232 | which exception `decode` throws: for truncation if and only if one to three characters are left after valid units, for a bad character if and only if the next four are no valid quad |
| `Base64Theorems.DecodeHomomorphism` | ext/couchbase/platform/base64.cc:197-232 | text after an accepted prefix decodes as if alone: outputs concatenate, exceptions pass through |
| `Base64Theorems.SpaceBetweenQuads` | ext/couchbase/platform/base64.cc:214-219 | white space inserted at a quad boundary never changes the outcome |
| `Base64Theorems.QuadsDecodeAlike` | ext/couchbase/platform/base64.cc:121-149 | two quads decode alike if and only if they agree on the kept bits: exactly what the decoder forgets |
| `Base64Layout.CharactersSpellBits` | ext/couchbase/platform/base64.cc:72-112 | character k is the character that Table 1 of RFC 4648 gives for bits 6k to 6k+5 of the input, zero bits filling up, and the places left hold 61, which is `=` |
| `Base64Layout.AlphabetIsStandard` | ext/couchbase/platform/base64.cc:36-36 | the lookup table is Table 1 of RFC 4648, and every value is written as it says |
| `Base64Layout.NamedCharacters` | ext/couchbase/platform/base64.cc:129-215 | padding is 61, a newline 10, white space exactly 32 and 9 to 13, and the alphabet letters, digits, 43 and 47 |
| `Base64Layout.TestVectors` | ext/couchbase/platform/base64.cc:153-195 | "f", "foobar" and two bytes with the last two characters of the alphabet give `Zg==`, `Zm9vYmFy` and `+/8=` |
| `Base64Layout.PrettyLayout` | ext/couchbase/platform/base64.cc:153-195 | length 4n + ceil(n/16), newlines after every 64 characters and at the end and nowhere else, and the plain encoding once they are removed |
| `Leb128.DecodeNoThrow` | ext/couchbase/protocol/unsigned_leb128.h:48-72 | the shift-and-or loop returns the base-128 value up to the first stop byte modulo 2^bits and the bytes after it, or zero and a null view without one |
| `Leb128.Decode` | ext/couchbase/protocol/unsigned_leb128.h:85-96 | the throwing form succeeds if and only if there is a stop byte, with the value and the rest of the buffer |
| `Leb128.Skip` | ext/couchbase/protocol/unsigned_leb128.h:101-106 | what is left is exactly what follows the first stop byte |
| `Leb128.UnsignedLeb128.constructor` | ext/couchbase/protocol/unsigned_leb128.h:122-178 | every write stays inside the `maxSize` bytes and the bytes in use are the encoding |
| `Leb128.UnsignedLeb128.Fill` | ext/couchbase/protocol/unsigned_leb128.h:124-137 | the loop fills a zeroed buffer with the encoding |
| `Leb128.ShiftOrStep` | ext/couchbase/protocol/unsigned_leb128.h:58-58 | joining shifted bits with `or`, cut off at 64 bits and at the width, is addition modulo 2^bits |
| `Leb128Theorems.RoundTripWithSuffix` | ext/couchbase/protocol/unsigned_leb128.h:48-138 | for every width, value and suffix, decoding gives back the value and exactly the suffix, and skipping gives the suffix |
| `Leb128Theorems.PrefixFree` | ext/couchbase/protocol/unsigned_leb128.h:122-138 | no encoding is a prefix of the encoding of another value |
| `Leb128Theorems.StreamRoundTrip` | ext/couchbase/protocol/unsigned_leb128.h:48-138 | decoding a concatenation of encodings again and again gives the list of values with nothing left over |
| `Leb128Theorems.StreamInjective` | ext/couchbase/protocol/unsigned_leb128.h:48-138 | equal streams come from equal lists |
| `Leb128Theorems.BufferIsTight` | ext/couchbase/protocol/unsigned_leb128.h:174-177 | no encoding is longer than `maxSize` and the largest value needs all of it |
| `Leb128.WidthsAre` | ext/couchbase/protocol/unsigned_leb128.h:174-177 | the moduli of the four widths and their buffer sizes 2, 3, 5 and 10, as numbers |
| `Leb128Theorems.Minimal` | ext/couchbase/protocol/unsigned_leb128.h:122-138 | no shorter number decodes to the same value |
| `Leb128Theorems.ReencodeIff` | ext/couchbase/protocol/unsigned_leb128.h:48-138 | encoding the decoded value gives the consumed bytes back if and only if nothing was truncated and there is no superfluous zero byte |
| `Leb128Theorems.ErrorsIff` | ext/couchbase/protocol/unsigned_leb128.h:65-96 | both forms fail exactly on buffers without a stop byte |
| `SharedProvider.StepPreserves` | ext/couchbase/platform/random.cc:88-117 | every step of every call keeps the invariant, and none dereferences a null pointer |
| `SharedProvider.AtMostOneProvider` | ext/couchbase/platform/random.cc:88-100 | in every reachable state, throwing constructions included: at most one provider created and stored, one call in the locked region, one reader of the device |
| `SharedProvider.NeverReplaced` | ext/couchbase/platform/random.cc:91-100 | once stored, the provider is the same in every later state of the run |
| `SharedProvider.GetBytesIsSafe` | ext/couchbase/platform/random.cc:69-117 | a call whose constructor returned finds the provider, then and ever after, and all calls use the same one |
| `SharedProvider.NoDeadlock` | ext/couchbase/platform/random.cc:88-117 | every call can move or waits for a mutex whose owner can move |
| `SharedProvider.OwnStepsBounded` | ext/couchbase/platform/random.cc:91-100 | between any two moments of any run, the steps a call takes inside its constructor are paid for by the steps it had left |
| `SharedProvider.CallsFinish` | ext/couchbase/platform/random.cc:91-100 | in every run, however calls interleave, a constructor takes at most six steps, and after six it has returned or, only if the construction of the provider threw inside it, thrown |
| `SharedProvider.ThrowsIff` | ext/couchbase/platform/random.cc:91-100 | at every moment of every run a constructor has thrown, or is unwinding, if and only if `make_unique` threw inside it |
| `SharedProvider.FastPath` | ext/couchbase/platform/random.cc:91-100 | a call that begins once the provider is stored has returned after its first step and never holds the lock |
| `SharedProvider.LastMoveDecides` | ext/couchbase/platform/random.cc:69-117 | the last step a call took, and what the check read, say where the call is, at every moment of every run |
| `SharedProvider.StoredIff` | ext/couchbase/platform/random.cc:94-97 | the pointer is set if and only if some call has assigned to it, and a provider exists if and only if a construction succeeded |
| `SharedProvider.ConstructionMayThrow` | ext/couchbase/platform/random.cc:94-97 | a call that read null under the lock may construct or throw, and no other call may |
| `SharedProvider.FirstCallCreates` | ext/couchbase/platform/random.cc:88-100 | from the start, with nothing stored, there is a run in which a given call creates and stores the provider |
| `SharedProvider.LockIsReleased` | ext/couchbase/platform/random.cc:94-99 | steps of others leave the lock with its owner, who in every run has released it after four more steps of its own |
| `SharedProvider.RetryAfterThrow` | ext/couchbase/platform/random.cc:94-99 | after a construction that threw, the lock is released with the pointer null, and every such run has a continuation in which a given call that had not begun stores the provider and returns |
| `MultiOps.ExtractIds` | ext/couchbase/couchbase.cxx:1152-1189 | all document ids in order, or the exception of the first tuple that is not well formed |
| `MultiOps.ExtractIdContent` | ext/couchbase/couchbase.cxx:1191-1241 | likewise for id, content and flags |
| `MultiOps.ExtractIdCas` | ext/couchbase/couchbase.cxx:1243-1295 | likewise for id and CAS, 0 when nil |
| `MultiOps.TraverseIff` | ext/couchbase/couchbase.cxx:1163-1186 | extraction succeeds if and only if every tuple does, and then tuple by tuple |
| `MultiTheorems.ArrayRaises` | ext/couchbase/couchbase.cxx:1152-1189 | anything but an array is refused, so is an empty one, and otherwise the first tuple that cannot be read decides the exception |
| `MultiTheorems.IdTuples` | ext/couchbase/couchbase.cxx:1163-1186 | a tuple is read as an id if and only if it is the array of those three strings; otherwise its shape, or the first field that is no string, decides the exception |
| `MultiTheorems.ContentTuples` | ext/couchbase/couchbase.cxx:1202-1238 | likewise with content and flags, which must be a fixnum and fit in 32 bits, each with its own exception |
| `MultiTheorems.CasTuples` | ext/couchbase/couchbase.cxx:1254-1292 | likewise with a CAS, 0 for nil, otherwise an integer that fits in 64 bits |
| `FanOut.StepPreserves` | ext/couchbase/couchbase.cxx:1633-1658 | every step of the calling thread or the cluster keeps tuple, operation, promise and barrier aligned, and no promise is set twice |
| `FanOut.ExecutedIsBuiltPrefix` | ext/couchbase/couchbase.cxx:2144-2169 | at every moment of every run one request has been executed for each tuple of a prefix, as built from it; an exception comes from extraction, with nothing executed, or from building the next request |
| `FanOut.AllOrNothing` | ext/couchbase/couchbase.cxx:2144-2169 | if a build that fails for some tuple fails for the first, a job either never raises or never executes anything |
| `FanOut.NeverHalfSentIff` | ext/couchbase/couchbase.cxx:2154-2169 | no run raises after executing a request if and only if builds that fail, fail for the first tuple already |
| `FanOut.ResultsInRequestOrder` | ext/couchbase/couchbase.cxx:1637-1660 | whatever the order of completions, result i is the cluster's answer to the request of tuple i, and no callback is outstanding on return |
| `FanOut.AnyCompletion` | ext/couchbase/couchbase.cxx:1637-1643 | at every moment of every run each executed request is answered or pending, and each pending one may be completed next with any response |
| `FanOut.AnyOrder` | ext/couchbase/couchbase.cxx:1637-1660 | for every permutation of the requests and all responses there is a run that completes them in that order and returns the responses in request order |
| `FanOut.NeverStuck` | ext/couchbase/couchbase.cxx:1637-1658 | the calling thread can always move, or waits for a pending request whose completion lets it move |
| `FanOut.RunsAreBounded` | ext/couchbase/couchbase.cxx:1633-1660 | with n tuples every run has at most 4n + 3 steps |
| `MultiTheorems.GetMultiAccepts` | lib/couchbase/collection.rb:101-103 | requests are sent if and only if the cluster is open, the options parse and there are ids, all strings; request i is for id i in the collection `scope.name`, with the timeout if it is above 0; building never fails |
| `MultiTheorems.GetMultiRaises` | ext/couchbase/couchbase.cxx:1608-1664 | otherwise, which exception is raised and in which order of precedence |
| `MultiTheorems.GetMultiInOrder` | lib/couchbase/collection.rb:101-113 | entry i of what Ruby returns is made from the answer for id i, with that answer's error and message if and only if it failed |
| `MultiTheorems.GetMultiAllOrNothing` | ext/couchbase/couchbase.cxx:1608-1664 | one bad id anywhere and nothing is ever sent; otherwise the ids sent are a prefix of the ids given |
| `MultiTheorems.UpsertMultiExtracts` | lib/couchbase/collection.rb:333-338 | the pairs are extracted if and only if all are acceptable, each to its own id, blob and flags |
| `MultiTheorems.UpsertMultiRaises` | ext/couchbase/couchbase.cxx:2108-2151 | otherwise, which exception extraction raises, the first unacceptable pair deciding |
| `MultiTheorems.UpsertBuildFails` | ext/couchbase/couchbase.cxx:2154-2165 | inside the dispatch loop only the expiry can fail, and for all pairs alike |
| `MultiTheorems.UpsertMultiAccepts` | lib/couchbase/collection.rb:333-338 | requests are sent if and only if every pair is acceptable and the expiry fits; request i carries the first element of pair i as its key, the second as the transcoder encodes it, or as it is with flags 0; an expiry that does not fit fails at the first request |
| `MultiTheorems.UpsertMultiInOrder` | lib/couchbase/collection.rb:333-346 | entry i answers pair i: CAS, mutation token and that answer's error and message if and only if it failed |
| `MultiTheorems.FlatListRaises` | lib/couchbase/collection.rb:324-338 | the flat list of the documented example raises |
| `MultiTheorems.UpsertMultiAllOrNothing` | ext/couchbase/couchbase.cxx:2108-2184 | one bad pair and nothing is ever sent; nor with an expiry out of range, although that raises inside the dispatch loop |
| `MultiTheorems.RemoveMultiAccepts` | lib/couchbase/collection.rb:246-257 | requests are sent if and only if every id is a string or an id with an optional CAS; the CAS travels with its own id, 0 when absent; building never fails |
| `MultiTheorems.RemoveMultiRaises` | lib/couchbase/collection.rb:246-257 | otherwise, which exception is raised: Ruby's own for a bad kind of id even when the cluster is closed, then those of the binding |
| `MultiTheorems.RemoveMultiInOrder` | lib/couchbase/collection.rb:246-265 | entry i answers id i: CAS, mutation token and that answer's error and message if and only if it failed |
| `MultiTheorems.RemoveMultiAllOrNothing` | ext/couchbase/couchbase.cxx:2485-2552 | one bad id and nothing is ever sent |
| `TraceWriter.WriterRefinesTake` | ext/couchbase/platform/backtrace.c:166-181 | chunk by chunk the memory ends as one bounded print of the whole text: its first min(total, size-1) characters, NUL, the rest untouched; the flag is raised if and only if total >= size |
| `TraceWriter.ChunkingIsInvisible` | ext/couchbase/platform/backtrace.c:166-181 | however a text is cut into chunks, memory and verdict are the same |
| `TraceWriter.Context.constructor` | ext/couchbase/platform/backtrace.c:186-186 | a fresh context starts at offset zero without error |
| `TraceWriter.Context.MemoryCb` | ext/couchbase/platform/backtrace.c:166-181 | one callback writes one indented line, or nothing once the flag is up |
| `TraceWriter.Context.PrintBacktrace` | ext/couchbase/platform/backtrace.c:113-134 | one line `indent frame newline` for each frame but the first, in order, and with exactly 50 frames one more with the notice |
| `TraceWriter.PrintBacktraceToBuffer` | ext/couchbase/platform/backtrace.c:183-189 | the buffer holds those lines as far as they fit before a NUL and is unchanged elsewhere, no place from size on written; true if and only if all fitted |
| `Hex.FromHex` | ext/couchbase/platform/string_hex.cc:39-52 | the base-16 value of up to 16 digits, never truncated; longer text and other characters throw |
| `Hex.DigitsAre` | ext/couchbase/platform/string_hex.cc:26-37 | the sixteen digits in either case have their values, nothing else is a digit, and lower case is written |
| `Hex.HexRoundTrip` | ext/couchbase/platform/string_hex.cc:39-84 | the integer overloads of `to_hex` write `0x` and two digits per byte, which `from_hex` reads back without the prefix |
| `Hex.PrefixIsRefused` | ext/couchbase/platform/string_hex.cc:39-84 | with its prefix the text is always refused, for which reason depends on the size |
| `Uuid.FromString` | ext/couchbase/platform/uuid.cc:49-75 | accepts exactly the well-formed texts, fills the sixteen bytes from their own digits, and throws for the first bad place |
| `Uuid.LayoutIsComplete` | ext/couchbase/platform/uuid.cc:58-73 | hyphens and digit pairs together take up every place, and no two bytes share one |
| `Uuid.LayoutIs` | ext/couchbase/platform/uuid.cc:58-73 | the place of each byte's digits and the four hyphens, as numbers |
| `Uuid.ToString` | ext/couchbase/platform/uuid.cc:77-96 | two digits per byte and hyphens after bytes 4, 6, 8 and 10 |
| `Uuid.TextAt` | ext/couchbase/platform/uuid.cc:77-96 | every place of the text: the two digits of each byte and the hyphens |
| `Uuid.UuidTextIsWellFormed` | ext/couchbase/platform/uuid.cc:77-96 | what is printed is accepted by the parser |
| `Uuid.UuidRoundTrip` | ext/couchbase/platform/uuid.cc:49-96 | parsing a printed UUID gives back all sixteen bytes |
| `Uuid.UuidTextRoundTrip` | ext/couchbase/platform/uuid.cc:49-96 | printing a parsed text gives it back in lower case |
| `Uuid.SetVersion` | ext/couchbase/platform/uuid.cc:36-38 | the version nibble becomes 4 and nothing else changes |
| `Uuid.VersionIsPrinted` | ext/couchbase/platform/uuid.cc:36-38 | character 14 of the text is then 4 |
| `Unique.UniqOrder` | lib/couchbase/search_options.rb:679-690 | elements come in order of first appearance |
| `Unique.UnionRun` | lib/couchbase/mutation_state.rb:47-49 | a run of unions is one union with everything; duplicates in the start stay only if the run is empty |
| `MutationStates.MutationState.constructor` | lib/couchbase/mutation_state.rb:39-42 | the given tokens, each object once |
| `MutationStates.MutationState.Add` | lib/couchbase/mutation_state.rb:47-49 | the union with the given tokens |
| `MutationStates.MutationState.ToA` | lib/couchbase/mutation_state.rb:52-61 | one record per token, in order |
| `MutationStates.AddRun` | lib/couchbase/mutation_state.rb:47-61 | any run of `add` calls on an object leaves the tokens, and so the export, of a single `add` of all batches, in the same order |
| `SearchQuery.ConjunctionQuery.AndAlso` | lib/couchbase/search_options.rb:678-680 | union with the flattened arguments |
| `SearchQuery.DisjunctionQuery.OrElse` | lib/couchbase/search_options.rb:723-725 | union with the flattened arguments, minimum unchanged |
| `SearchQuery.BooleanQuery.AddMust` | lib/couchbase/search_options.rb:776-779 | only the "must" part grows |
| `SearchQuery.BooleanQuery.AddMustNot` | lib/couchbase/search_options.rb:782-785 | only the "must not" part grows |
| `SearchQuery.BooleanQuery.AddShould` | lib/couchbase/search_options.rb:788-791 | only the "should" part grows |
| `SearchQuery.BooleanQuery.SetShouldMin` | lib/couchbase/search_options.rb:770-773 | only the minimum changes |
| `SearchQuery.BooleanQuery.ToJson` | lib/couchbase/search_options.rb:794-805 | the parts serialised one by one equal the serialisation of the query's value |
| `SearchQuery.BuilderRuns` | lib/couchbase/search_options.rb:756-791 | after any run of builder calls each part holds its arguments without duplicates in order of first appearance, and the last minimum |
| `SearchQuery.BuilderSerialises` | lib/couchbase/search_options.rb:756-806 | exactly when the query's own checks fail, and otherwise exactly which non-empty parts are emitted, with at least `min` distinct "should" queries; children that raise themselves are `BuiltFailsIff` |
| `SearchQuery.BuilderMeaning` | lib/couchbase/search_options.rb:756-806 | whenever the query serialises, a document matches what is sent if and only if it satisfies every query given to `must`, none given to `must_not` and, if any was given to `should`, at least the last minimum of distinct ones |
| `SearchQuery.FlattenLaws` | lib/couchbase/search_options.rb:673-680 | nested arrays of arguments are flattened in order |
| `SearchQuery.ConjunctionMeaning` | lib/couchbase/search_options.rb:687-693 | a conjunction fails if and only if it is empty; what is emitted has the same queries, none repeated, in order of first appearance, the boost, and matches the same documents |
| `SearchQuery.DisjunctionSerialises` | lib/couchbase/search_options.rb:732-743 | exactly when a disjunction fails, repeated queries counting toward its minimum; what is emitted has the same queries, none repeated, in order |
| `SearchQuery.DisjunctionMeaningIff` | lib/couchbase/search_options.rb:732-743 | `uniq` preserves a serialisable disjunction for every document if and only if its minimum is at most one or no child is repeated |
| `SearchQuery.DuplicateDisjunctionFails` | lib/couchbase/search_options.rb:732-743 | the smallest example where it does not |
| `QueryTrees.DistinctIff` | lib/couchbase/search_options.rb:687-743 | the children of a compound query serialise if and only if each does, to one body per distinct child in order; otherwise the exception is that of a child |
| `QueryTrees.SerialiseFailsIff` | lib/couchbase/search_options.rb:687-806 | serialising a tree of queries fails if and only if it gets, at any depth, to a range without bounds, an empty conjunction or disjunction, a disjunction short of its minimum or a boolean query with three empty parts, and raises the exception for such a query |
| `QueryTrees.FirstRefusalIsRaised` | lib/couchbase/search_options.rb:687-806 | of several such queries the first one decides the exception, parents before children and children in order, whatever `uniq` leaves out |
| `QueryTrees.BodyShape` | lib/couchbase/search_options.rb:687-806 | what is sent for each kind of query: its distinct children in order with its own minimum, or its parts that are not empty |
| `QueryTrees.SerialiseMeaning` | lib/couchbase/search_options.rb:687-806 | with `uniq` at every level, every document matches what is sent if and only if it satisfies the tree, when each disjunction in it asks for at most one child or repeats none |
| `QueryTrees.BuiltFailsIff` | lib/couchbase/search_options.rb:756-806 | after any run of builder calls serialising fails if and only if nothing was given, or fewer distinct "should" queries than the minimum, or a given query that does not serialise |
| `QueryTrees.BuiltMeaning` | lib/couchbase/search_options.rb:756-806 | what `BuilderMeaning` says, with the given queries trees of their own |
| `QueryOptions.Query.New` | lib/couchbase/options.rb:1443-1465 | raises if and only if both kinds of parameters are given |
| `QueryOptions.Query.SetScanConsistency` | lib/couchbase/options.rb:1486-1489 | sets the level and clears the mutation state, parameters unchanged |
| `QueryOptions.Query.SetConsistentWith` | lib/couchbase/options.rb:1496-1499 | sets the mutation state and clears the level |
| `QueryOptions.Query.SetPositionalParameters` | lib/couchbase/options.rb:1504-1507 | sets the positional parameters and clears the named ones |
| `QueryOptions.Query.SetNamedParameters` | lib/couchbase/options.rb:1518-1521 | sets the named parameters and clears the positional ones |
| `QueryOptions.Query.ToBackend` | lib/couchbase/options.rb:1538-1560 | level, tokens and both kinds of parameters exported one for one; what is not set is not sent |
| `QueryOptions.NamedExport` | lib/couchbase/options.rb:1525-1527 | exported names are the names given, and of a symbol and a text with the same name the last entry counts |
| `QueryOptions.ParametersExclusive` | lib/couchbase/options.rb:1443-1521 | positional and named parameters are never both set, over any run of setters |
| `QueryOptions.LastSetterDecides` | lib/couchbase/options.rb:1486-1499 | over any run the last consistency setter decides both fields; without one they stay as constructed |
| `QueryOptions.LastParametersDecide` | lib/couchbase/options.rb:1504-1521 | likewise for positional and named parameters |
| `QueryOptions.ConsistencyExclusiveIff` | lib/couchbase/options.rb:1458-1499 | level and state are exclusive if and only if they were at construction or a consistency setter was called |
| `QueryOptions.ConstructorMayHoldBoth` | lib/couchbase/options.rb:1434-1459 | what the constructor returns for a mutation state and nothing else holds the default scan level beside it |

## Left out

- The network side: sessions, HTTP, DNS, configuration, retries and the cluster object; a response is any value the cluster may give.
- Parsing of option hashes (timeout, durability, expiry type): its outcome is a parameter of the multi-document operations.
- `rb_raise` inside extraction and returned exception objects are both an `Err`; an exception is its class and the reason, not its text.
- `cb_map_error_code`: an error entry carries the error code and a message, not the Ruby exception class chosen for it.
- A transcoder is any total function; one that raises would raise before anything is sent.
- Base64.Encode: pretty-printing an empty string reads the last character of an empty string, which is undefined in C++, and is excluded.
- Leb128.DecodeNoThrow: empty input and inputs whose decoding reaches an eleventh byte are undefined in C++ and are excluded.
- Memory effects of the unlocked read in `random.cc` weaker than sequential consistency, and the operating system's random source.
- TraceWriter.PrintBacktraceToBuffer: `snprintf` that fails, lengths above the range of `int`, and the description of addresses, which are given as text.
- `to_hex` of a byte string, whose output for bytes from 0x80 on depends on the signedness of `char`.
- The random bits of `uuid::random`, and the variant bits, which it does not set.
- Boosts, which affect neither failure nor matching. Query objects that contain themselves, whose serialisation does not end.
- Phrase queries, whose `uniq` drops repeated words, and the other query types, which are records; in a tree they are leaves, of which range queries without bounds raise.
- JSON text: bodies are values, and `JSON.dump` of a parameter is any function. Of `to_backend` only consistency and parameters are modelled.
- Assigning to `MutationState#tokens` directly.
- SCRAM and PLAIN authentication, crypto wrappers, logging, management APIs, Rails cache store and data structures.
