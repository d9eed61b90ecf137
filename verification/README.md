# XQDB core: a verified model

XQDB is a client for the kdb+/q IPC protocol, version 6. This project models the algorithms at its core
in Dafny and proves what they are relied on for.

- **Wire compression** (`Bytes`, `ByteLaws`, `LzTokens`, `LzReference`, `LzDecoder`, `LzEncoder`, `LzQuality`,
  `IpcFrame`). A compressed payload is a sequence of tokens laid out in groups of eight behind a flag byte.
  `LzTokens` says what a token sequence expands to, with the decoder's lagging hash window; the decoder and
  the encoder are each proved, as array programs, against functions over it, and the two meet in the round
  trip. The encoder's table, which uses 0 for "empty" and holds a pending pair, is related to the decoder's
  window by a simulation (`Tracks`) that is dropped where fewer than three bytes remain.
- **List scanning and the pipelined table receiver** (`KTypes`, `ListScanner`, `ListScan`, `Pipeline`,
  `EncodedLists`). The resumable scanner is a state machine proved to foretell the end of the whole list from
  any prefix. The receiver is a step system of a reader, a scanner and decode tasks under every interleaving.
- **Lossless values** (`QTree`, `QParser`, `QParserProofs`, `QValidator`, `QValues`, `QLaws`, `Operators`).
  Trees of q values with an encoding; a parser function; the validator object that refines it; and the
  constructors.
- **Columns and text** (`Utf8`, `Scalars`, `TextColumns`, `NestedDecoder`, `NestedLaws`, `CharRows`,
  `Interner`, `SeriesDecoder`). UTF-8 as in section 4 of RFC 3629, replacement of maximal subparts as in
  section 3.9 of the Unicode Standard, nested lists, the two paths for nested char rows, symbol lists, the
  caching interner, and the decoding of a whole delimited slice.
- **Connections and queues** (`ByteStream`, `BodyReader`, `Connection`, `ConnectionLaws`, `Connector`,
  `Abort`, `AbortLaws`, `CommandQueue`, `QueueLaws`, `Admission`). Streams with arbitrary chunking, the
  receive buffer, the connector's operations over whole runs, out-of-band abort, the native worker's ordered
  placeholders and its admission accounting.

The widths of `K_TYPE_SIZE`, the depth limit 64 and the tables of named primitives are those of
`crates/xqdb/src/types.rs`. Array programs and objects of the source are methods and classes here, each proved
against a function or a relation on values; the theorems are about those. The modules named `...Laws`, with
`LzReference`, `LzQuality`, `Scalars` and `EncodedLists`, say what those functions mean in other terms: bits, token
starts, scalar values, encoded values, and when an operation succeeds.

Two points on reading the theorems. Error values are kept where the source's callers can tell them apart and
merged otherwise: in the pipelined receiver and in the connector an error is only an error, since the source
itself reports different column errors in different schedules. `execute` queues notifications and `receive`
hands out whatever frame is next, so a stray response taken by `receive` is delivered like a notification; the
model does the same.

## Model

| member | source | states |
|---|---|---|
| `ByteLaws.XorIsBitwise` | crates/xqdb/src/serde6.rs:2271 | the hash of a pair has, bit by bit, the exclusive or of the two bytes |
| `ByteLaws.BitIsDigit` | crates/xqdb/src/serde6.rs:2177-2181 | flag `k` of a flag byte is its binary digit of weight two to the `k` |
| `ByteLaws.LittleEndianDigit` | crates/xqdb/src/serde6.rs:2307-2317 | byte `i` of a length is its digit of weight 256 to the `i` |
| `ByteLaws.FourBytes` | crates/xqdb/src/serde6.rs:422-439 | a four-byte field read as a number |
| `LzTokens.LengthBounds` | crates/xqdb/src/connector.rs:260-267 | any payload that spells tokens expanding to a body makes at most 121 bytes of each of its own and exceeds the body by at most one flag byte per eight bytes |
| `LzReference.WindowRemembers` | crates/xqdb/src/serde6.rs:2249-2276 | in every window that tokens lead to, a hash names the latest token start whose pair has it: a copied run hashes only its first pair, and a literal at the end is not hashed yet |
| `LzReference.LatestIsLast` | crates/xqdb/src/serde6.rs:2271 | that start is the last one with the hash |
| `LzReference.TokenAppends` | crates/xqdb/src/serde6.rs:2193-2247 | a literal appends its byte, a back-reference its length in bytes that repeat from where its hash points, even into themselves |
| `LzDecoder.DecodesExactlyCompressedForms` | crates/xqdb/src/serde6.rs:2166-2287 | the decoder accepts a payload with result `body` if and only if the payload spells some token sequence that expands to exactly `body`, every byte of it used |
| `LzDecoder.AcceptedPayloadBounds` | crates/xqdb/src/connector.rs:407-420 | every accepted payload is within the expansion ratio and the structural length bound |
| `LzDecoder.CopyRun` | crates/xqdb/src/serde6.rs:2211-2242 | an in-place run copy, overlapping or not, appends the periodic continuation of the output and leaves what precedes and follows it unchanged |
| `LzDecoder.DecompressTokens` | crates/xqdb/src/serde6.rs:2166-2287 | the loop over flags, hash table and output array computes the specified decoding, including its errors |
| `LzDecoder.Decompress` | crates/xqdb/src/serde6.rs:2119-2287 | the whole decompressor, with its prefix and length checks, agrees with the specified result |
| `LzEncoder.GreedyExpands` | crates/xqdb/src/serde6.rs:2354-2390 | the encoder's choice of tokens, made from the window alone, expands back to the body |
| `LzQuality.ChoosesLongestRun` | crates/xqdb/src/serde6.rs:2354-2390 | a back-reference is chosen exactly when the next pair repeats at its slot, and runs to 257 bytes, the end of the body or the first difference |
| `LzEncoder.LayoutSpells` | crates/xqdb/src/serde6.rs:2342-2394 | flag bytes and units laid out in groups of eight spell exactly the tokens |
| `LzEncoder.NextToken` | crates/xqdb/src/serde6.rs:2352-2391 | looking up before inserting the pending pair picks the token the specification picks, and keeps the table in step with the decoder's window after it |
| `LzEncoder.FillTokens` | crates/xqdb/src/serde6.rs:2333-2402 | the array program writes exactly the layout of the greedy tokens, within bounds, and gives up exactly when a group's 17-byte reserve does not fit |
| `LzEncoder.WriteLengthPrefix` | crates/xqdb/src/serde6.rs:2307-2317 | the mode byte and a 4- or 8-byte little-endian length |
| `LzEncoder.Compress` | crates/xqdb/src/serde6.rs:2319-2402 | the compressor returns the frame unchanged or its specified compressed form |
| `LzEncoder.CompressThenDecompress` | crates/xqdb/src/serde6.rs:2119-2402 | whenever the compressor changes a frame, decompressing its body gives the original body back |
| `LzQuality.CompressesExactlyWhatFits` | crates/xqdb/src/serde6.rs:2319-2346 | a frame is changed if and only if it has 2000 bytes and its tokens fit the scratch buffer, and is then at most half as long |
| `LzQuality.ConstantFramesShrink` | crates/xqdb/src/serde6.rs:2340-2402 | every frame of 2000 bytes or more with one repeated byte is compressed, to thirty bytes and a hundred and twentieth of its length at most |
| `LzQuality.PrefixIsExact` | crates/xqdb/src/serde6.rs:2307-2317 | the prefix takes four bytes exactly when 32 bits hold the length |
| `LzQuality.KnownBackref` | crates/xqdb/src/serde6.rs:3107-3114 | the payload of the text "ababab" that refers back to offset zero decompresses to it |
| `IpcFrame.CompressedFrameReadsBack` | crates/xqdb/src/connector.rs:576-645 | a plain frame after compression is no longer than before and decodes to the same kind and value body |
| `IpcFrame.GuardsRefuseNoLegalFrame` | crates/xqdb/src/connector.rs:533-615 | a compressed body is prepared if and only if plain decompression yields a value-sized body within the configured limit: the two pre-checks refuse nothing else |
| `IpcFrame.CheckedBodyLength` | crates/xqdb/src/connector.rs:342-360 | accepts exactly lengths of a header and at least two bytes |
| `IpcFrame.LengthFieldReadsBack` | crates/xqdb/src/connector.rs:289-297 | the 40-bit length field written into a header reads back as the length |
| `ConnectionLaws.LengthHeaderExactly` | crates/xqdb/src/connector.rs:289-297 | a length is written exactly when 40 bits hold it, and its five bytes read back as it |
| `ConnectionLaws.FrameDecodesExactly` | crates/xqdb/src/connector.rs:482-645 | a frame is accepted with a kind and body if and only if its header spells them and its length, and its body is the value or decompresses to it within the limit |
| `ListScanner.AdvanceForetells` | crates/xqdb/src/serde6.rs:1142-1337 | from any resumable state and any prefix, a scan step reports the end or error that the rest of the whole body determines, or a resumable state that leaves it unchanged; no end lies beyond the prefix |
| `ListScanner.OneShotIsListEnd` | crates/xqdb/src/serde6.rs:1112-1119 | scanning the whole body at once is the recursive definition of where a list ends |
| `ListScanner.ResumedScanAgrees` | crates/xqdb/src/serde6.rs:1122-1337 | for every chain of growing prefixes, the first conclusive answer is that of the one-shot scan, its end is within the prefix seen, and the whole body is always conclusive |
| `EncodedLists.ScannerFindsEncodedEnd` | crates/xqdb/src/serde6.rs:1112-1302 | wherever the encoding of a flat list, or of a list of flat lists of one type and empty lists, stands, the scanner finds it to end where the encoding ends |
| `EncodedLists.FixedListEndExactly` | crates/xqdb/src/serde6.rs:1156-1210 | a fixed-width list has an end if and only if its 32-bit count is not negative and its elements are there |
| `EncodedLists.ScannedSymbolsAreEncoded` | crates/xqdb/src/serde6.rs:1305-1327 | what the scanner takes for symbols is the encoding of that many symbols |
| `EncodedLists.ChildEndExactly` | crates/xqdb/src/serde6.rs:1212-1302 | a child is taken if and only if it has the list's type and its elements, or is an empty general list |
| `EncodedLists.FirstChildMustNest` | crates/xqdb/src/serde6.rs:1212-1302 | a nonempty nested list starts with a child of a nestable type |
| `ListScan.Scanner.Advance` | crates/xqdb/src/serde6.rs:1156-1210 | the scanner object's step has the specified outcome and, unless it fails, the specified fields |
| `ListScan.Scanner.AdvanceNested` | crates/xqdb/src/serde6.rs:1212-1302 | the nested loop with its partly scanned symbol child has the outcome of the specified nested step and, unless it fails, its fields |
| `ListScan.ScanSymbols` | crates/xqdb/src/serde6.rs:1305-1327 | the symbol loop consumes terminated symbols and reports how many are left |
| `Pipeline.NextKeepsInv` | crates/xqdb/src/pipeline.rs:48-127 | every step of reader, scanner or decode task keeps the invariant, and no published byte ever changes |
| `Pipeline.NoStateIsStuck` | crates/xqdb/src/pipeline.rs:84-106 | every state short of the end has a next step, even if the stream does not fail |
| `Pipeline.ScannerNeverStranded` | crates/xqdb/src/pipeline.rs:305-315 | once the reader is done, a waiting scanner is always let go |
| `Pipeline.EveryRunIsFinite` | crates/xqdb/src/pipeline.rs:220-315 | every step lowers a well-founded measure, so no schedule or chunking runs for ever |
| `Pipeline.RunKeepsInv` | crates/xqdb/src/pipeline.rs:142-213 | the invariant holds in every state of every run |
| `Pipeline.PipelineRefinesSequential` | crates/xqdb/src/pipeline.rs:142-315 | every ended run on a delivered frame gives exactly the table, or the failure, of the sequential table branch (crates/xqdb/src/serde6.rs:990-1037), with the same names and column slices |
| `EncodedLists.TableIsItsColumns` | crates/xqdb/src/serde6.rs:1025-1034 | a decoded table has the planned names and, in order, what each planned slice decodes to; there is none exactly when there is no plan or a column does not decode |
| `EncodedLists.EncodedTablePlan` | crates/xqdb/src/serde6.rs:990-1015 | the plan of an encoded table is its names and, in order, exactly the slices of its columns |
| `QParserProofs.ValidatesExactlyEncodings` | crates/xqdb/src/qvalue.rs:273-657 | bytes validate with tree `t` if and only if `t` is well formed, within the depth limit, and encodes to them |
| `QParserProofs.EncodingIsInjective` | crates/xqdb/src/qvalue.rs:273-657 | two well-formed trees within the depth limit with the same bytes are the same tree |
| `QLaws.TypeCodeIsFirstByte` | crates/xqdb/src/qvalue.rs:304-386 | the type code of every value is its first byte read as a signed number |
| `QLaws.LengthsByKind` | crates/xqdb/src/qvalue.rs:335-568 | the length reported is the elements of a list, the keys of a dictionary, the rows of a table, and one for atoms and functions |
| `QLaws.TableFlagIsInBytes` | crates/xqdb/src/qvalue.rs:273-295 | the table flag holds exactly of bytes that start as a table or as a dictionary keyed by one |
| `QLaws.DepthIsLongestWay` | crates/xqdb/src/qvalue.rs:570-578 | the depth reported is the length of the longest way down through a value's parts |
| `QLaws.TableIsFlippedDictionary` | crates/xqdb/src/qvalue.rs:441-497 | a table is written as the dictionary from its names to the list of its columns, behind two bytes |
| `QLaws.AcceptedFieldsAreLegal` | crates/xqdb/src/qvalue.rs:580-611 | an accepted value has attributes up to 4, booleans that are bits, counts below the 32-bit sign and depth up to 64 |
| `QLaws.ServerErrorIsReported` | crates/xqdb/src/qvalue.rs:304-333 | a body that carries a server error is reported as that error |
| `QLaws.WidthTable` | crates/xqdb/src/types.rs:12-12 | the element widths by type, the kinds that are values and the kinds that nest |
| `Operators.NamesReadBack` | crates/xqdb/src/types.rs:83-129 | an operator written by name is read back under that name, and exactly the names in the three tables are known |
| `Operators.KnownPrimitivesAreNamed` | crates/xqdb/src/qvalue.rs:523-537 | the validator takes exactly the opcodes that have a name, the null and the unfilled argument |
| `QParserProofs.ValueSound` | crates/xqdb/src/qvalue.rs:304-333 | what the parser accepts at any offset and depth is the encoding of a well-formed tree, ending where it says |
| `QParserProofs.ValueComplete` | crates/xqdb/src/qvalue.rs:304-497 | every encoding at any offset is accepted, so the count guards of remaining/2 and remaining/6 reject no value |
| `QValidator.Parser.ParseValue` | crates/xqdb/src/qvalue.rs:304-333 | the recursive object follows the parser function in result, position and maximal depth |
| `QValidator.Parser.ParseTypedList` | crates/xqdb/src/qvalue.rs:358-386 | the same for typed vectors and symbol vectors |
| `QValidator.Parser.ParseDictionary` | crates/xqdb/src/qvalue.rs:406-439 | the same for dictionaries, with the shape and count conditions |
| `QValidator.Parser.ParseTable` | crates/xqdb/src/qvalue.rs:441-497 | the same for tables, with equal column lengths |
| `QValidator.Parser.ParseLambda` | crates/xqdb/src/qvalue.rs:499-521 | the same for lambdas, whose source is a char vector |
| `QValidator.Validate` | crates/xqdb/src/qvalue.rs:273-295 | the metadata returned (type code, length, table flag, depth) is that of the tree, and server errors are passed on |
| `QValues.FromBytes` | crates/xqdb/src/qvalue.rs:43-71 | accepts exactly the encodings of well-formed trees within the depth limit and keeps the bytes |
| `QValues.AtomOf` | crates/xqdb/src/qvalue.rs:118-160 | succeeds exactly for value kinds with a fitting payload, with its error order, tree and metadata |
| `QValues.ListOf` | crates/xqdb/src/qvalue.rs:162-191 | succeeds exactly when the count fits 32 bits and every child leaves room for one level; tree and metadata come from the children |
| `QValues.DictionaryOf` | crates/xqdb/src/qvalue.rs:193-233 | succeeds exactly when the shapes pair, the counts match and both leave room for one level; tree and metadata come from the parts |
| `QValues.Adopt` | crates/xqdb/src/qvalue.rs:186-233 | the re-validation inside the constructors never fails on what they build |
| `Scalars.ValidExactlyEncodedText` | crates/xqdb/src/serde6.rs:338-352 | text is valid if and only if it is a concatenation of encoded Unicode scalar values |
| `Scalars.ReplacedPartIsMaximal` | crates/xqdb/src/serde6.rs:354-381 | what is replaced begins an encoding or is one byte, and with one byte more it would neither begin nor be one |
| `Scalars.LossyByParts` | crates/xqdb/src/serde6.rs:357-381 | an ill-formed part becomes U+FFFD and every encoded scalar value is kept |
| `Scalars.LossyDecodingIsTranscoding` | crates/xqdb/src/serde6.rs:338-352 | lossy decoding is transcoding and strict decoding accepts exactly valid text, unchanged |
| `Utf8.ValidSplitsAtBoundary` | crates/xqdb/src/serde6.rs:1741-1755 | where the second part does not begin with a continuation byte, a concatenation is valid exactly when both parts are |
| `Utf8.LossySplitsAtBoundary` | crates/xqdb/src/serde6.rs:357-381 | at such a boundary lossy transcoding is done part by part |
| `Utf8.LossyIsValid` | crates/xqdb/src/serde6.rs:357-381 | lossy transcoding always yields valid UTF-8 |
| `Utf8.LossyFixesValid` | crates/xqdb/src/serde6.rs:338-352 | it leaves a text unchanged exactly when the text is valid |
| `Utf8.TranscodeLossy` | crates/xqdb/src/serde6.rs:357-381 | the two-pass loop computes the transcoding and reserves exactly its length |
| `TextColumns.NestedCharValidExactly` | crates/xqdb/src/serde6.rs:1741-1755 | the concatenation check with the boundary check holds if and only if every row is valid UTF-8 |
| `TextColumns.LossyCommutesWithSplit` | crates/xqdb/src/serde6.rs:1531-1559 | transcoding and then splitting at NUL equals splitting and then transcoding, in number and content, for every payload and count |
| `TextColumns.SplitSymbolsValid` | crates/xqdb/src/serde6.rs:1531-1536 | a symbol payload is valid exactly when every symbol in it is |
| `EncodedLists.SplitsEncodedSymbols` | crates/xqdb/src/serde6.rs:1541-1559 | a payload of symbols splits into exactly those symbols |
| `EncodedLists.SplitIsEncoded` | crates/xqdb/src/serde6.rs:441-450 | whatever splits is the encoding of its symbols |
| `TextColumns.DecodeThenSplit` | crates/xqdb/src/serde6.rs:1531-1559 | decoding the payload once, strictly or lossily, gives the symbols decoded one by one |
| `NestedDecoder.DelimitedSliceIsList` | crates/xqdb/src/serde6.rs:1112-1302 | a slice the scanner delimits is, on its own, a list that ends at its last byte |
| `NestedDecoder.DecodeRows` | crates/xqdb/src/serde6.rs:1890-1957 | the row loop decodes all children up to where the scanner says they end, or fails for the stated reason |
| `NestedDecoder.FillsCapacity` | crates/xqdb/src/serde6.rs:1868-1882 | fixed-width children fill what remains after six header bytes each |
| `EncodedLists.ChildrenAreItems` | crates/xqdb/src/serde6.rs:1890-1957 | the children decoded from an encoded list are its items, in order, with their counts and payloads |
| `NestedLaws.OffsetsAreCumulative` | crates/xqdb/src/serde6.rs:1906-1921 | each offset is the one before it and the count of the child between them |
| `NestedLaws.PayloadBetweenOffsets` | crates/xqdb/src/serde6.rs:1938-1955 | the bytes between two scaled offsets are the payload of the child between them |
| `NestedLaws.SymbolsBetweenOffsets` | crates/xqdb/src/serde6.rs:1926-1937 | the symbols between two offsets are those of the child between them |
| `CharRows.DecodeCharRows` | crates/xqdb/src/serde6.rs:1783-1846 | on a well-formed list it returns the rows, gives up exactly when an invalid row comes before any row beyond the view limit, and fails exactly when such a row comes first; the rows fill the reserved payload |
| `CharRows.InvalidRowExactly` | crates/xqdb/src/serde6.rs:1741-1755 | the one-pass check on concatenated children fails exactly when some child is invalid |
| `CharRows.TranscodeRows` | crates/xqdb/src/serde6.rs:1759-1781 | every row becomes its own lossy text, unless all of them together outgrow the 32-bit offsets, exactly when it fails |
| `CharRows.FinishChars` | crates/xqdb/src/serde6.rs:2023-2038 | rows that validate as a whole are kept, others are refused or transcoded; every row returned is its text under the policy |
| `CharRows.FastPathAgreesWithGeneralPath` | crates/xqdb/src/serde6.rs:1741-1755 | the general path's one-pass check fails exactly on the lists with an invalid row, which the fast path gives up on |
| `CharRows.DecodeCharList` | crates/xqdb/src/serde6.rs:1883-2038 | fast path first, general path only where it gives up, whose check then fails: a well-formed char list gives each row's text under the policy, or the error for the one reason it is refused, and no reason holds of a list that is decoded |
| `SeriesDecoder.DecodeNested` | crates/xqdb/src/serde6.rs:1848-2038 | success means the slice is exactly one list and the result holds its children, filling the reserved payload exactly; a slice that is one list is refused only for the stated value-level reasons |
| `SeriesDecoder.SymbolsEndSplits` | crates/xqdb/src/serde6.rs:1305-1327 | the scanner's symbols end with the slice if and only if the payload splits into exactly that many symbols |
| `SeriesDecoder.DelimitedSymbolsSplit` | crates/xqdb/src/serde6.rs:1531-1559 | a delimited symbol list splits into its declared number of symbols, also after its text is decoded, under both policies |
| `SeriesDecoder.DelimitedPayloadFits` | crates/xqdb/src/serde6.rs:1368-1380 | the payload of a delimited fixed-width list is its count times its width |
| `SeriesDecoder.SplitStrings` | crates/xqdb/src/serde6.rs:1541-1559 | the splitting loop succeeds exactly on well-split text and its offsets cut out exactly the symbols |
| `SeriesDecoder.DecodeSymbols` | crates/xqdb/src/serde6.rs:1531-1559 | decoding the text once and splitting gives every symbol's own text, as ids or strings; a well-split payload is refused only for an invalid symbol or a full mapping |
| `SeriesDecoder.DecodeCharColumn` | crates/xqdb/src/serde6.rs:1484-1526 | each row is its byte's text under the policy; it fails exactly for a non-ASCII byte under the strict one |
| `SeriesDecoder.DecodeSeries` | crates/xqdb/src/serde6.rs:1339-1380 | success means the slice is exactly one list of a supported type, with the stated content; a slice that is one list meets no truncation or trailing-byte error |
| `EncodedLists.EncodedListIsList` | crates/xqdb/src/serde6.rs:1339-1380 | the encoding of a native list, without its type byte, is exactly one list of its count and payload |
| `SeriesDecoder.DecodeDelimited` | crates/xqdb/src/serde6.rs:1006-1024 | a column the scanner delimits is refused only for its type or its values, never for its structure |
| `Interner.WordsAreDistinct` | crates/xqdb/src/serde6.rs:520-546 | zero-padded eight-byte words tell NUL-free symbols apart |
| `Interner.SymbolInterner.Category` | crates/xqdb/src/serde6.rs:520-546 | the id is the shared mapping's, the mapping is asked exactly when the symbol was not asked before, and it fails only when the mapping refuses the symbol |
| `Interner.DecodeSymbolColumn` | crates/xqdb/src/serde6.rs:562-584 | ids are the shared mapping's, whatever other writers insert meanwhile, and each distinct symbol is asked once; it fails only on a payload that is not well split or when the mapping refuses a symbol |
| `ByteStream.Stream.ReadExact` | crates/xqdb/src/connector.rs:659-660 | succeeds exactly when that many bytes can be read, for any chunking and interruptions |
| `BodyReader.ReceiveBuffer.Reserve` | crates/xqdb/src/connector.rs:318-332 | the reserved capacity is entirely initialised |
| `BodyReader.ReceiveBuffer.ReleaseOversized` | crates/xqdb/src/connector.rs:336-340 | a buffer above the retention limit is dropped, any other is kept |
| `BodyReader.ReadMessageBody` | crates/xqdb/src/connector.rs:374-403 | succeeds exactly when the declared bytes arrive and takes no more; the whole capacity ends initialised, and at every point the capacity is within the starting capacity or eight times the bytes held |
| `BodyReader.ReadSome` | crates/xqdb/src/connector.rs:716-744 | one successful read appends a nonempty part of the body and no byte beyond it |
| `BodyReader.ReadRemaining` | crates/xqdb/src/pipeline.rs:220-249 | the reader of a pipelined body takes exactly the rest of the declared length |
| `Connector.EarlyChecksAreNotNew` | crates/xqdb/src/connector.rs:661-684 | the checks made on the prefix before reading refuse only frames that are refused anyway |
| `Connector.FillBody` | crates/xqdb/src/connector.rs:686-707 | the plain and the pipelined path both consume exactly the declared length and leave the buffer initialised; only a native table body is pipelined |
| `Connector.PipelinedBodyIsDecoded` | crates/xqdb/src/pipeline.rs:142-213 | where native decoding of a table body is the sequential table branch, every ended run of the receiver on a delivered body gives what decoding that body gives |
| `Connector.ReadIpcBody` | crates/xqdb/src/connector.rs:653-713 | for any chunking, succeeds exactly when a complete acceptable frame is next, takes exactly its bytes and yields its kind and value body |
| `Connector.Connector.ReadNextFrame` | crates/xqdb/src/connector.rs:1136-1167 | every framing failure and every synchronous request closes the connection; otherwise exactly one frame is taken |
| `Connector.Connector.DecodeFrameBody` | crates/xqdb/src/connector.rs:1171-1186 | the value is that of the frame's body on all three paths, and the buffer left is initialised and within the retention limit |
| `Connector.Connector.Execute` | crates/xqdb/src/connector.rs:1306-1349 | the object's `execute`, connecting when needed, is the specified operation on connection and queue, and keeps the buffer initialised |
| `Connector.Connector.ExecuteAsync` | crates/xqdb/src/connector.rs:1351-1363 | the same for `execute_async` |
| `Connector.Connector.Receive` | crates/xqdb/src/connector.rs:1119-1134 | the same for `receive`, which serves the queue before the connection |
| `Connector.Connector.Connect` | crates/xqdb/src/connector.rs:1199-1279 | the same for `connect`: an existing connection is kept, a new one must pass the handshake |
| `Connector.Connector.Shutdown` | crates/xqdb/src/connector.rs:1281-1295 | the same for `shutdown`, which drops no queued notification |
| `Connection.WholeFrameIsNext` | crates/xqdb/src/connector.rs:653-713 | a whole frame is recognised at the head of the input whatever follows it |
| `Connection.AwaitReplyTakes` | crates/xqdb/src/connector.rs:1325-1348 | waiting queues asynchronous frames in order up to the limit, then takes the response, refuses one frame too many, or meets no acceptable frame; the last two close the connection |
| `Connection.ExecuteTakesNextReply` | crates/xqdb/src/connector.rs:1315-1349 | an `execute` that is sent, on its connection or a newly dialled one, succeeds if and only if notifications that fit the queue and then a response head the input; it takes those frames only and returns that response's value |
| `ConnectionLaws.ReceiveTakesNextFrame` | crates/xqdb/src/connector.rs:1119-1134 | with nothing queued, `receive` succeeds if and only if a whole asynchronous or response frame is next; it takes that frame only and returns its value |
| `ConnectionLaws.ReceiveServesQueue` | crates/xqdb/src/connector.rs:1119-1122 | a queued notification is returned first and leaves the connection alone |
| `ConnectionLaws.ReceiveFailsClosed` | crates/xqdb/src/connector.rs:1136-1167 | a failed or aborted `receive` leaves the connection closed, and only those do |
| `ConnectionLaws.ConnectExactly` | crates/xqdb/src/connector.rs:1199-1279 | `connect` succeeds if and only if it is not aborted and there is a connection or a good dial, which is then the connection |
| `ConnectionLaws.ExecuteAsyncExactly` | crates/xqdb/src/connector.rs:1351-1363 | `execute_async` is done if and only if everything was sent and nothing aborted it; a failed write or an abort closes the connection |
| `ConnectionLaws.ExecuteUnsent` | crates/xqdb/src/connector.rs:1315-1325 | an `execute` that was not sent takes nothing and fails, and a failed write closes the connection |
| `ConnectionLaws.ShutdownExactly` | crates/xqdb/src/connector.rs:1281-1295 | `shutdown` succeeds if and only if there is a connection, closes it and keeps the queue |
| `ConnectionLaws.HandshakeExactly` | crates/xqdb/src/connector.rs:990-1004 | a dialled stream is used exactly when its first delivery starts with a version of at least one, which is all the handshake takes |
| `Connection.OperationAccounted` | crates/xqdb/src/connector.rs:1007-1349 | every operation that leaves the connection open took whole frames only; results and queue account for every frame; a frame is refused only by a full queue and lost only to an abort |
| `Connection.EveryRunKeepsInv` | crates/xqdb/src/connector.rs:1119-1349 | in every run an open connection stands on a frame boundary, the queue is within its limit, what `receive` returned followed by the queue is exactly the notifications in arrival order, and what `execute` returned is exactly the replies |
| `Connection.OnlyAbortsLoseFrames` | crates/xqdb/src/connector.rs:1325-1345 | in a run without aborts every asynchronous frame taken was delivered, is queued, or was refused by a full queue |
| `Abort.AbortRegistry.Attach` | crates/xqdb/src/connector.rs:72-90 | a stream is registered exactly when this operation still is |
| `Abort.AbortRegistry.Finish` | crates/xqdb/src/connector.rs:92-107 | finishing tells whether the operation was taken, and unregisters only itself |
| `Abort.AbortRegistry.TakeForAbort` | crates/xqdb/src/connector.rs:127-134 | an abort takes the registered operation and its stream in one step |
| `Abort.AbortRegistry.Begin` | crates/xqdb/src/connector.rs:167-182 | a new operation is registered under the next id, which wraps at 64 bits |
| `Abort.StepKeepsInv` | crates/xqdb/src/connector.rs:71-183 | every step of the connector or of an aborting thread keeps the invariant |
| `Abort.AbortedExactlyWhenAbortFell` | crates/xqdb/src/connector.rs:1007-1018 | in every run an operation finishes as aborted if and only if an abort fell between its begin and its finish, and then gives its connection up |
| `Abort.IdleAbortChangesNothing` | crates/xqdb/src/connector.rs:127-164 | an abort between operations changes nothing |
| `Abort.KeptConnectionIsNeverShut` | crates/xqdb/src/connector.rs:1191-1279 | no owed or performed shutdown ever concerns a kept connection or that of an operation not aborted, however late the shutdown comes |
| `AbortLaws.AttachingRegisters` | crates/xqdb/src/connector.rs:72-90 | an operation not aborted registers the stream it attaches or opens, an aborted one shuts it down |
| `AbortLaws.AbortReachesItsStream` | crates/xqdb/src/connector.rs:127-164 | in every run an abort of an operation with a registered stream owes that stream's shutdown until it is performed |
| `AbortLaws.OwedUntilPerformed` | crates/xqdb/src/connector.rs:127-164 | in every run an owed shutdown stays owed until it is performed, and a stream stays shut down |
| `AbortLaws.NoStreamLeaks` | crates/xqdb/src/connector.rs:1191-1279 | in every run each stream ever opened is in use or has been shut down |
| `AbortLaws.IdsDiffer` | crates/xqdb/src/connector.rs:167-182 | an operation's id differs from the next one's |
| `CommandQueue.CommandSlot.CommitCommand` | bindings/napi-xqdb/src/worker.rs:101-112 | a slot takes a command exactly while undecided and otherwise gives it back |
| `CommandQueue.CommandSlot.FailCommand` | bindings/napi-xqdb/src/worker.rs:124-142 | failing a slot closes it and hands over the command it held, if any |
| `CommandQueue.CommandSlot.TakeCommand` | bindings/napi-xqdb/src/worker.rs:144-157 | a decided slot yields its command once |
| `CommandQueue.StepKeepsInv` | bindings/napi-xqdb/src/worker.rs:905-1117 | every step of clients and worker keeps the invariant |
| `CommandQueue.AnswersAreUniqueAndOrdered` | bindings/napi-xqdb/src/worker.rs:918-945 | in every run no command is answered twice, and executed commands appear in reservation order whatever the order of commits |
| `CommandQueue.EveryCommandIsAnswered` | bindings/napi-xqdb/src/worker.rs:905-1117 | once the worker is gone, every command ever committed has been answered |
| `QueueLaws.AnsweredMeansExecuted` | bindings/napi-xqdb/src/worker.rs:918-945 | in every run, while the worker is not stopping, a command that was answered and whose slot was never cancelled has been executed |
| `QueueLaws.CommitIsHeld` | bindings/napi-xqdb/src/worker.rs:629-650 | an undecided slot holds the command committed to it, a cancelled one has it failed at once |
| `QueueLaws.HeldIsTaken` | bindings/napi-xqdb/src/worker.rs:144-157 | the worker takes a held command out of the slot it waits on |
| `QueueLaws.TakenIsExecuted` | bindings/napi-xqdb/src/worker.rs:934-945 | a taken command is answered, and executed unless the worker is stopping |
| `QueueLaws.ReservationIsQueued` | bindings/napi-xqdb/src/worker.rs:379-443 | a reservation is queued while there is room, and its permit given out |
| `QueueLaws.NoPermitWhileStopping` | bindings/napi-xqdb/src/worker.rs:379-443 | while stopping no permit is given out and the slot is closed |
| `QueueLaws.AbandonedSlotUnblocks` | bindings/napi-xqdb/src/worker.rs:165-207 | giving a permit up decides its slot, so that a worker waiting on it goes on |
| `QueueLaws.StopIsNoticed` | bindings/napi-xqdb/src/worker.rs:670-681 | a stop raises the flag whether or not its message finds room, and the worker then drains |
| `CommandQueue.NoCommandIsStranded` | bindings/napi-xqdb/src/worker.rs:209-243 | a command whose placeholder is gone is never left in its slot, and a late commit is answered at once |
| `CommandQueue.WorkerNeverStuck` | bindings/napi-xqdb/src/worker.rs:918-945 | a stopping worker, or one with a decided placeholder before it, can always go on |
| `CommandQueue.StoppingWorkerExits` | bindings/napi-xqdb/src/worker.rs:905-945 | in every run a stopping worker can go on until it is gone, and takes at most the steps its queue and hand need and five for each message that still arrives |
| `Admission.Admission.Reserve` | bindings/napi-xqdb/src/admission.rs:40-65 | succeeds exactly while running and below capacity, with a reservation of no bytes |
| `Admission.Admission.Charge` | bindings/napi-xqdb/src/admission.rs:136-159 | succeeds exactly when the sum of all charges stays within the byte capacity; a refused charge changes nothing |
| `Admission.Admission.Drop` | bindings/napi-xqdb/src/admission.rs:162-172 | gives back exactly one command and its bytes; the saturating subtractions never saturate |
| `Admission.Admission.Take` | bindings/napi-xqdb/src/admission.rs:91-112 | a permit of this connector yields its reservation, and is then spent |
| `Admission.Admission.Release` | bindings/napi-xqdb/src/admission.rs:114-126 | releasing drops an unspent reservation and does nothing to a spent permit |
| `Admission.Run` | bindings/napi-xqdb/src/admission.rs:40-172 | in every run of reserve, take, charge, release and drop the counters equal the live reservations and the sum of their charges, within capacity, and no permit yields its reservation twice |

## Left out

- Sockets, TLS, DNS, timeouts, thread spawning and input/output cancellation: a stream is a schedule of read results of any sizes, and time does not appear.
- Polars and Arrow construction, bitmaps and date conversions: in `Pipeline` column decoding is an arbitrary function of type and slice, and `Connection` takes value decoding as an arbitrary function of the body; `Pipeline.PipelineRefinesSequential` is what lets the pipelined path use the same function.
- The shared category mapping is a growing injective map from symbols to ids that refuses new symbols once it is full; its internals are not modelled.
- The file formats of `crates/xqdb/src/io.rs` and the length function and serializer of native values.
- Allocation failures: reservation succeeds, is exact, and no length overflows the address space; sequences are within what a slice can hold where a method says so.
- Message texts: errors are names, and errors that no caller tells apart share one.
- The public `send`, which is `execute_async` without connecting, `configure`, and protocol versions above 6, for which operations report that there is no connection.
- The message assembly of a request: whether it is refused, written or fails to be written is a parameter of an operation.
- The body of each native command, connection retries and reply conversion: executing a command is one step that may panic.
- Python and TypeScript facades, snapshots, Arrow capsules, benchmarks and option validation: these would only add easy members.
- Connection.EveryRunKeepsInv: settings are unchanged over a run; lowering the queue limit in between would break the bound on the queue.
- Connector.Connector.Execute: whether an abort fell is a parameter, since a sequential method has no other thread; `Abort` proves what that parameter is.
- Connector.FillBody: the pipelined body is read without the concurrent scanner; `Pipeline` models the two together, and `Connector.PipelinedBodyIsDecoded` connects their results.
- SeriesDecoder.DecodeSeries: the typed conversion of fixed-width payloads is an arbitrary check of type and payload, except for booleans and char columns; for nested lists it is left out, except for chars and symbols.
