# DCM to STL autoconverter, modelled in Dafny

This project models the byte-level core of the DCM to STL autoconverter and proves
properties of the model. The converter is a Windows tool that turns 3Shape DCM scan files
into STL meshes through a COM conversion service. Its reverse-engineering tools study the
DCM vertex and facet payloads against STL files of the same scan.

The model has three layers.

- **Common byte work.**
  - `Bytes`: bytes, zip-XOR, slicing, little- and big-endian integers, hex text.
  - `Collections`: sets, filters, counts.
  - `Canon`: first-occurrence vertex indexing, the `vertex_map`/`vertex_set` loops.
  - `Grouping`: grouping and duplicate counting.
  - `Pairing`: first-occurrence tables with their conflicts.
  - `RunLength`: maximal runs and their stable sort.
  - `Segmentation`: the facet payload split on the marker byte 9.
  - `StlLayout`: the STL container, meaning the ASCII sniff, the binary triangle walk and the 50-byte record.
- **The analysis tools.**
  - `DcmDecoder`: key derivation, decryption, STL vertex loading, and the `write_stl_binary` layout.
  - `XorKey` and `KnownPlaintext`: the known-plaintext attack.
  - `FacetDecoder`: face loaders, segment, gram and header statistics.
  - `Experimental`: runs, facet structure, XOR trials, the int16 guard.
  - `BatchPair`: per-pair records and batch statistics.
  - `DcmAnalyzer`: byte, nibble, marker and chunk statistics.
  - `SdxHarness`: mesh loading and the raw exports.
- **The application.**
  - `FileUtils`: the `.dcm` test, the output path, the target filter.
  - `Converter`: the `DcmConverter` class with discovery and the fault-tolerant conversion loop.
  - `Sdx`: the `SdxInterface` class around the COM object, with its error-code table.
  - `ModeRegistry`: the `Registry` class holding the conversion mode.

Python exceptions are modelled as `Result`/`Option` error values. The COM service, the
registry, the file system and the clock are outside the model: what they would answer is
passed in as parameters, for example the state `Execute()` returns, the number of polls
before `Finished`, whether a path is a file, and the directory walk. Vertex coordinates are
opaque 12-byte records. Vertex identity is an abstract key function, standing for the
rounded float triple.

Where the documentation and the code disagree, the model follows the code:

- The marker-9 segmentation drops empty segments. Rejoining the segments with the marker
  therefore does not give back the payload (`Segmentation.JoinDoesNotRestore`).
- The declared `base64_encoded_bytes` attributes are read but never compared with the
  decoded lengths (`DcmAnalyzer.ParseDcm`).
- `get_mode` wraps the error for a bad stored value a second time, in its own catch-all
  (`ModeRegistry.ReadMode`).
- Decryption success is `match_pct > 99.9`, stated on integers as `1000 * matches > 999 * length`.

## Model

| member | source | states |
|---|---|---|
| Bytes.ZipXor | tools/dcm_decoder.py:148 | the XOR of two byte strings is as long as the shorter one and holds the byte-wise XOR at every position |
| Bytes.ZipXorSelfInverse | tools/dcm_decoder.py:143-148 | XOR-ing one side of two equal-length payloads with their key gives back the other side |
| Bytes.LeI32 | tools/facet_decoder.py:288 | a little-endian int32 lies in the signed 32-bit range and is the unsigned value or that value minus 2^32 |
| Bytes.LeI16 | tools/dcm_decoder_experimental.py:255 | a little-endian int16 lies in the signed 16-bit range and is the unsigned value of the two bytes or that value minus 2^16 |
| Bytes.PackU32Le | tools/dcm_decoder.py:175 | the packed count is four bytes long |
| Bytes.PackU32LeRoundTrip | tools/dcm_decoder.py:175 | unpacking a packed uint32 gives the number back |
| Bytes.UnpackU32LeRoundTrip | tools/dcm_decoder.py:117 | packing the value of four bytes gives those four bytes back |
| Bytes.Hex | tools/batch_pair_analyzer.py:225 | the hex text has two characters per byte |
| Bytes.HexRoundTrip | tools/batch_pair_analyzer.py:225-235 | reading back hex text with `bytes.fromhex` gives the bytes it was made from |
| Bytes.IntString | src/dcm_to_stl/core/sdx_interface.py:162 | the decimal text of an integer is non-empty, made of digits with a leading minus sign exactly when the number is negative |
| Bytes.IntRoundTrip | src/dcm_to_stl/core/sdx_interface.py:162 | the decimal text of an integer determines the integer |
| Bytes.PyPrefix | tools/dcm_decoder_experimental.py:179 | a Python prefix `s[:n]`, with n possibly negative, is a prefix of s and no longer than s |
| Bytes.Slice | tools/dcm_decoder.py:126 | a Python slice `s[lo:hi]` has the length of the clamped interval |
| StlLayout.AsciiShape | tools/facet_decoder.py:74 | a file the sniff takes for ASCII starts with a case variant of `solid` and holds at least ten bytes |
| StlLayout.AsciiLocal | tools/facet_decoder.py:74 | only the first 1000 bytes decide the ASCII sniff |
| StlLayout.TriangleCount | tools/dcm_decoder.py:117 | the announced triangle count is below 2^32 |
| StlLayout.Corners | tools/dcm_decoder.py:123-133 | triangle t's corner records are the three 12-byte fields after its 12-byte normal, at offset 84 + 50t |
| StlLayout.Normals | tools/dcm_decoder.py:124 | triangle t's normal record is the 12-byte field at offset 84 + 50t |
| StlLayout.CornerList | tools/dcm_decoder.py:123-133 | the walk's corner list holds three records per announced triangle |
| StlLayout.ReadBinary | tools/dcm_decoder.py:117-133 | the binary walk succeeds exactly when the count is readable and every triangle up to the last corner fits; it then yields one normal and one face per triangle and the first-appearance vertex list; otherwise it reports the `struct.error` of the first short read |
| StlLayout.WalkCounts | tools/dcm_decoder.py:119-133 | after the walk there is one face and one normal per triangle, at most three vertices per triangle, and exactly one vertex per distinct corner key |
| StlLayout.WalkResolves | tools/facet_decoder.py:89-100 | every corner of every face indexes a vertex with that corner's key |
| StlLayout.PackVertices | tools/dcm_decoder.py:136-139 | the packed result is the kept records back to back, 12 bytes per vertex |
| StlLayout.Records | tools/dcm_decoder.py:159-161 | cutting data into records gives `len // 12` records, record i being bytes 12i to 12i + 12 |
| StlLayout.ConcatRecords | tools/dcm_decoder.py:159-161 | joining the records again gives the data without its tail of fewer than 12 bytes |
| StlLayout.RecordsOfConcat | tools/dcm_decoder.py:136-139 | cutting up the concatenation of 12-byte records gives the records back |
| DcmDecoder.DeriveXorKey | tools/dcm_decoder.py:143-148 | the key exists exactly when the payloads have equal length, is their byte-wise XOR, and a size mismatch reports both lengths |
| DcmDecoder.Decrypt | tools/dcm_decoder.py:151-156 | decryption succeeds exactly when the key is at least as long as the data, XORs byte by byte, and otherwise reports both lengths |
| DcmDecoder.DecryptIgnoresExtraKey | tools/dcm_decoder.py:156 | key bytes past the data length do not change the decryption |
| DcmDecoder.DeriveThenDecrypt | tools/dcm_decoder.py:143-156 | decrypting with the derived key gives the STL bytes, and the derived key is the only key of that length that does |
| DcmDecoder.DecryptVertices | tools/dcm_decoder.py:151-163 | the vertex list is the decrypted bytes cut into 12-byte records, with the same error as the decryption |
| DcmDecoder.DecryptVerticesRoundTrip | tools/dcm_decoder.py:143-163 | with the derived key there are `len // 12` vertices, equal to the STL records, and joined they give the STL bytes up to the last whole record |
| DcmDecoder.LoadStlVertices | tools/dcm_decoder.py:111-141 | loading succeeds exactly when the walk fits, and gives the first-appearance corner records back to back, 12 bytes per distinct key |
| DcmDecoder.KeptRecords | tools/dcm_decoder.py:128-131 | every kept vertex is a 12-byte record |
| DcmDecoder.AsciiEncode | tools/dcm_decoder.py:170 | ASCII encoding succeeds exactly when every character is below 0x80, and then keeps every character's code |
| DcmDecoder.FitHeader | tools/dcm_decoder.py:171 | the fitted header is 80 bytes: the text cut at 80, padded with zero bytes |
| DcmDecoder.HeaderBytes | tools/dcm_decoder.py:169-171 | an encodable name gives an 80-byte header |
| DcmDecoder.HeaderLayout | tools/dcm_decoder.py:169-171 | the header starts with the codes of `Decoded from DCM - ` and is zero after the name |
| DcmDecoder.TriangleBytes | tools/dcm_decoder.py:187-191 | a triangle record is 50 bytes long |
| DcmDecoder.FirstInvalid | tools/dcm_decoder.py:177-180 | the first face with an index out of range, all faces before it being valid |
| DcmDecoder.Triangles | tools/dcm_decoder.py:177-191 | one record per face, holding the up normal and the face's three vertices |
| DcmDecoder.WriteStlBinary | tools/dcm_decoder.py:166-191 | the writer's output is the header, the count and one record per face, and fails for a non-ASCII name, a count of 2^32 or more, or a face whose index is out of range (the first such face is named) |
| DcmDecoder.StlFileLength | tools/dcm_decoder.py:166-191 | the output is 84 + 50 bytes per face and announces the face count |
| DcmDecoder.StlFileReadsBack | tools/dcm_decoder.py:166-191 | reading the output back: it is not taken for ASCII, the walk succeeds, every normal is (0, 0, 1) and triangle t holds face t's three vertices |
| DcmDecoder.StlFileNotAscii | tools/dcm_decoder.py:169 | the header's first byte is `D`, so the output is never taken for ASCII |
| DcmDecoder.StlFileRecords | tools/dcm_decoder.py:177-191 | triangle t of the output holds the up normal and the vertices of face t |
| DcmDecoder.DecodeFacetsPlaceholder | tools/dcm_decoder.py:215-232 | the placeholder decodes no faces |
| DcmDecoder.PlaceholderWritesEmptyMesh | tools/dcm_decoder.py:215-232 | writing the placeholder's faces gives a bare 84-byte file |
| XorKey.PeriodBound | tools/known_plaintext_attack.py:83 | the largest length tried is at most 256 and at most half the data |
| XorKey.ShortestPeriodFrom | tools/known_plaintext_attack.py:83-95 | the first pattern length from a start up to the bound that the data repeats, and none when no length in range repeats |
| XorKey.ShortestPeriod | tools/known_plaintext_attack.py:79-97 | the reported pattern length is the shortest length in 1..min(256, len // 2) whose pattern the whole data repeats; no report means no length in range repeats |
| XorKey.FindRepeatingPattern | tools/known_plaintext_attack.py:79-97 | the search loop finds exactly that shortest period |
| XorKey.ShortDataHasNoPeriod | tools/known_plaintext_attack.py:83 | data of fewer than two bytes has no pattern |
| XorKey.PeriodDeterminesData | tools/known_plaintext_attack.py:87-90 | two equal-length data with the same period and the same first period are equal |
| XorKey.LongRuns | tools/known_plaintext_attack.py:118-133 | the run loop reports the first ten maximal runs longer than three bytes |
| XorKey.LongRunsAreRunsOfKey | tools/known_plaintext_attack.py:118-133 | every reported run is a maximal run of the key of at least four bytes, at most ten are reported, and they keep the key's order |
| XorKey.CountMatches | tools/known_plaintext_attack.py:383 | the match count is at most the shorter length |
| XorKey.CountMatchesEqual | tools/known_plaintext_attack.py:383-387 | every byte matches exactly when the two sequences are equal |
| XorKey.CycleDecrypt | tools/known_plaintext_attack.py:380 | byte i of the decryption is the data byte XOR the pattern byte at i mod the pattern length |
| XorKey.SucceedsBounds | tools/known_plaintext_attack.py:384-388 | a full match passes the 99.9 % threshold, and one miss in at most 1000 bytes fails it |
| XorKey.CheckPattern | tools/known_plaintext_attack.py:376-392 | a pattern check counts at most the STL length of matches and gives a key exactly when it succeeds |
| XorKey.CheckFullKey | tools/known_plaintext_attack.py:394-406 | the full-key check sets `full_key_works` exactly when every byte matches |
| XorKey.ValidateAsWritten | tools/known_plaintext_attack.py:375-406 | the validation as written checks a pattern exactly when a period was found, using the 64-byte sample |
| XorKey.Validate | tools/known_plaintext_attack.py:375-406 | the corrected validation checks a pattern exactly when a period was found, using the whole period |
| XorKey.PeriodDecryptRestores | tools/known_plaintext_attack.py:376-384 | decrypting with any period of the derived key gives the STL bytes back |
| XorKey.ValidateSucceeds | tools/known_plaintext_attack.py:375-406 | with the derived key, the corrected validation matches every byte, succeeds with a period and sets `full_key_works` without one |
| XorKey.Period65Shortest | tools/known_plaintext_attack.py:83 | the 130-byte example key has shortest period 65 |
| XorKey.TruncatedPatternRejectsPeriod65 | tools/known_plaintext_attack.py:376-388 | on that key the validation as written, which decrypts with the 64-byte sample kept at line 113, fails while the corrected one succeeds |
| XorKey.ShortPeriodValidationsAgree | tools/known_plaintext_attack.py:376-380 | a period of at most 64 bytes is its own 64-byte sample, so the validation as written and the corrected one give the same outcome |
| XorKey.ValidateAsWrittenSucceeds | tools/known_plaintext_attack.py:375-406 | when the derived key has no period in range or one of at most 64 bytes, the validation as written matches every byte, succeeds with a period and sets `full_key_works` without one |
| XorKey.AnalyzeXorKey | tools/known_plaintext_attack.py:100-142 | the analysis fails exactly on an empty key (`key[0]`), and otherwise reports the length, the distinct byte count, the shortest period with its first 64 bytes, and the long runs |
| KnownPlaintext.TryByteSubstitution | tools/known_plaintext_attack.py:145-170 | it is a substitution exactly when each DCM byte always meets the same STL byte; the table size is the number of distinct DCM bytes; the first 20 conflicts are reported; the table is given only without conflicts |
| KnownPlaintext.SubstitutionScan | tools/known_plaintext_attack.py:152-158 | the scan stores the first STL byte met for each DCM byte and records every later disagreement in order |
| KnownPlaintext.SubstitutionVerdict | tools/known_plaintext_attack.py:165-166 | no conflict is recorded exactly when the pairing is a function, and the table has one entry per distinct DCM byte |
| KnownPlaintext.SubstitutionSound | tools/known_plaintext_attack.py:152-158 | a conflict-free table maps each scanned DCM byte to its STL byte, and every conflict records a position, its DCM byte, the stored byte and a different STL byte |
| KnownPlaintext.DividingSizes | tools/known_plaintext_attack.py:178-180 | the block sizes tried are those of 8, 16, 32, 64 that divide the DCM length |
| KnownPlaintext.Blocks | tools/known_plaintext_attack.py:188-192 | block i is the slice from i times the size to the next multiple |
| KnownPlaintext.BlockConsistency | tools/known_plaintext_attack.py:185-199 | the block scan is consistent exactly when equal DCM blocks always meet equal STL blocks, and counts the distinct DCM blocks stored before the first conflict |
| KnownPlaintext.ReportBlockSize | tools/known_plaintext_attack.py:182-204 | the report of one block size is the scan of its blocks |
| KnownPlaintext.TryBlockCipherDetection | tools/known_plaintext_attack.py:173-206 | one report per dividing block size, in the order tried, each the scan of that size |
| KnownPlaintext.VertexKeys | tools/known_plaintext_attack.py:249-257 | the first min(100, len // 12) vertex keys, key i being the XOR of the two 12-byte windows at 12i |
| KnownPlaintext.KeyDiffs | tools/known_plaintext_attack.py:270-273 | one diff per consecutive pair of keys, the XOR of each key with the one before it |
| KnownPlaintext.Summarize | tools/known_plaintext_attack.py:259-279 | the distinct key count is the size of the key set; one shared key exactly when all keys agree and there is at least one; with more than one distinct key the number of distinct diffs; the diff pattern exactly when there are more than one distinct keys and at most five distinct diffs, and then it is the set of diffs |
| KnownPlaintext.DiffsRebuildKeys | tools/known_plaintext_attack.py:270-273 | a key XOR its next diff gives the next key |
| KnownPlaintext.ZeroDiffIffEqual | tools/known_plaintext_attack.py:272 | a diff is all zeros exactly when the two keys agree |
| KnownPlaintext.CollectVertexKeys | tools/known_plaintext_attack.py:251-257 | the key loop computes exactly the vertex keys |
| KnownPlaintext.ConsecutiveDiffs | tools/known_plaintext_attack.py:269-273 | the diff loop computes exactly the consecutive diffs |
| KnownPlaintext.AnalyzeVertexByVertex | tools/known_plaintext_attack.py:244-280 | the vertex report is the summary of the vertex keys |
| KnownPlaintext.Truncate | tools/known_plaintext_attack.py:298-303 | both payloads are cut to the shorter length, and payloads of equal length are kept |
| KnownPlaintext.AttackPayloads | tools/known_plaintext_attack.py:307-401 | on equal-length payloads the attack fails exactly when they are empty, and otherwise reports sizes, key facts, the substitution verdict, the vertex report, `pattern_hex` as the hex of the 64-byte sample of the shortest period, and the validation as written with that sample |
| KnownPlaintext.PerformAttack | tools/known_plaintext_attack.py:283-406 | the attack truncates, derives the key by XOR, fails only on empty payloads, and reports `ReportOf` the truncated payloads; when there is no period or the shortest period is at most 64 bytes its validation matches every byte and succeeds |
| KnownPlaintext.AttackRejectsPeriod65 | tools/known_plaintext_attack.py:368-388 | on the 130-byte key with period 65 and an all-zero STL payload the attack reports period 65, yet its validation fails and gives no key |
| RunLength.Repeat | tools/dcm_decoder_experimental.py:133-140 | a run of length n stands for n copies of its byte |
| RunLength.ExpandLength | tools/dcm_decoder_experimental.py:145-146 | the bytes a list of runs stands for number the sum of the run lengths |
| RunLength.Runs | tools/dcm_decoder_experimental.py:129-141 | the run list is empty exactly when the data is |
| RunLength.RunsMaximal | tools/dcm_decoder_experimental.py:129-141 | the runs are non-empty, neighbouring runs hold different bytes, and expanded they give back the data |
| RunLength.RunsStep | tools/dcm_decoder_experimental.py:135-140 | one more byte either lengthens the last run or opens a run of one, keeping the runs maximal |
| RunLength.RunsTotal | tools/dcm_decoder_experimental.py:144-146 | the run lengths add up to the data length |
| RunLength.RunsUnique | tools/dcm_decoder_experimental.py:129-141 | any maximal list of runs that stands for the data is the run list of the data |
| RunLength.RunsOfSnoc | tools/dcm_decoder_experimental.py:135-140 | the runs of one more byte, from the closed runs and the open one: the open run grows on an equal byte, else a new run opens |
| RunLength.InsertPoint | tools/dcm_decoder_experimental.py:150 | a run goes after every strictly longer run and before the first run that is not longer |
| RunLength.InsertSorted | tools/dcm_decoder_experimental.py:150 | inserting into a list sorted by descending length keeps it sorted and adds exactly that run |
| RunLength.SortByLengthSorted | tools/dcm_decoder_experimental.py:150 | `sorted(runs, key=lambda x: -x[1])` orders by descending length and is a permutation |
| RunLength.SortByLengthStable | tools/dcm_decoder_experimental.py:150 | the sort is stable: runs of equal length keep their order |
| RunLength.SortByLengthSize | tools/dcm_decoder_experimental.py:150 | the sort keeps the number of runs |
| RunLength.TopRunsAreLongest | tools/dcm_decoder_experimental.py:150 | the kept runs are a sub-multiset of the runs, and no run left out is longer than a run kept |
| RunLength.TopRunsSorted | tools/dcm_decoder_experimental.py:150 | the kept runs are sorted by descending length |
| Segmentation.BlockEnd | tools/facet_decoder.py:153-159 | the end of a marker-free stretch is the next 9 byte or the end of the data |
| Segmentation.SegmentsWellFormed | tools/facet_decoder.py:153-162 | no segment is empty or holds the 9 byte |
| Segmentation.SegmentsUpTo | tools/facet_decoder.py:153-162 | a marker-free stretch up to a marker or the end is one segment, if non-empty, followed by the segments after the marker |
| Segmentation.StripMarkers | tools/facet_decoder.py:153-162 | the payload with its markers removed is no longer and holds no marker |
| Segmentation.SegmentsFromConcat | tools/facet_decoder.py:153-162 | the segments of the data from a position hold exactly the non-marker bytes from there, in order |
| Segmentation.SegmentsConcat | tools/facet_decoder.py:153-162 | the segments hold exactly the non-marker bytes of the payload, in order |
| Segmentation.JoinDoesNotRestore | tools/facet_decoder.py:153-162 | rejoining the segments with the marker does not restore a payload with two markers in a row |
| Segmentation.SplitOnMarker | tools/facet_decoder.py:153-162 | the accumulator loop gives exactly the segments of the payload |
| Segmentation.MarkerPositions | tools/dcm_decoder_experimental.py:93 | the listed positions hold the 9 byte and increase |
| Segmentation.MarkerPositionsComplete | tools/dcm_decoder_experimental.py:93 | every 9 byte is listed |
| Segmentation.MarkerPositionsCount | tools/dcm_decoder_experimental.py:93 | there is one position per 9 byte |
| Segmentation.SplitAtMarkerPositions | tools/dcm_decoder_experimental.py:105-112 | the slicing loop over the marker positions gives the same segments as the accumulator loop |
| Segmentation.Gaps | tools/dcm_decoder_experimental.py:95 | one gap per pair of consecutive markers, each at least 1 and leading from one marker to the next |
| Segmentation.GapsSum | tools/dcm_decoder_experimental.py:95-97 | the gaps add up to the span from the first marker to the last |
| Segmentation.MinOf | tools/dcm_decoder_experimental.py:98 | `min` of a non-empty list is one of its elements and no larger than any |
| Segmentation.MaxOf | tools/dcm_decoder_experimental.py:99 | `max` of a non-empty list is one of its elements and no smaller than any |
| Segmentation.MarkerGapStats | tools/dcm_decoder_experimental.py:93-99 | gap statistics exist exactly with at least two markers; they count the markers, the sum telescopes to last minus first, and the minimum and maximum are gaps between consecutive markers that bound every such gap |
| Experimental.RunLengths | tools/dcm_decoder_experimental.py:144 | the run lengths in run order |
| Experimental.CollectRuns | tools/dcm_decoder_experimental.py:131-141 | the accumulator loop of `analyze_runs` computes exactly the maximal runs |
| Experimental.AnalyzeRuns | tools/dcm_decoder_experimental.py:129-151 | the run report of `analyze_runs` on non-empty data |
| Experimental.RunStatsCounts | tools/dcm_decoder_experimental.py:143-151 | the runs rebuild the data, their count is reported, their lengths add up to the data length, and the longest length is one run's and bounds all |
| Experimental.LongestRunLength | tools/dcm_decoder_experimental.py:148 | the maximum run length is a run's length and no run is longer |
| Experimental.RunStatsLongest | tools/dcm_decoder_experimental.py:150 | the kept runs are at most ten of the runs, sorted by descending length, with no run left out longer than a kept one |
| Experimental.RunStatsStable | tools/dcm_decoder_experimental.py:150 | the kept runs are the first ten of the stable sort, which keeps the order of runs of equal length |
| Experimental.FirstSegments | tools/dcm_decoder_experimental.py:120 | the first five segments, each cut to 20 bytes |
| Experimental.Probe | tools/dcm_decoder_experimental.py:83-88 | the header probe exists exactly with at least four bytes, reads two 32-bit words and flags a match with the facet count in either reading |
| Experimental.ProbeReadsFirstWord | tools/dcm_decoder_experimental.py:84-85 | the two readings are the first four bytes little- and big-endian |
| Experimental.AnalyzeFacetStructure | tools/dcm_decoder_experimental.py:71-126 | the analysis raises for two or more markers with a facet count of 0 and for empty data; otherwise it reports the probe, the gap statistics, the segment count and first segments when there are segments, and the run report |
| Experimental.SelfXorPairs | tools/dcm_decoder_experimental.py:179 | the self-XOR at shift k pairs every byte with the one k places later |
| Experimental.SelfXorTrials | tools/dcm_decoder_experimental.py:172-181 | each key size k of 1, 2, 4, 8, 16 is tried exactly when `len(data) > 2k`; the trials are in key-size order, each the self-XOR at that shift |
| Experimental.XorWithKey | tools/dcm_decoder_experimental.py:191 | decrypting with a repeating key XORs byte i with key byte i mod the key length |
| Experimental.ZeroKeyIsIdentity | tools/dcm_decoder_experimental.py:184-191 | the zero key leaves the data unchanged |
| Experimental.XorWithKeyTwice | tools/dcm_decoder_experimental.py:191 | decrypting twice with the same key gives the data back |
| Experimental.TryInt16Scheme | tools/dcm_decoder_experimental.py:242-262 | the int16 reading is taken exactly when the length is a multiple of 6; it counts `len // 6` vertices, compares with the expected count and samples the first ten triples |
| FacetDecoder.LoadFacesBinary | tools/facet_decoder.py:80-103 | the binary loader succeeds exactly when the walk fits, gives one face per triangle indexed by first occurrence of the corner key, and counts the distinct keys |
| FacetDecoder.LoadFacesAscii | tools/facet_decoder.py:106-136 | the ASCII loader gives one face per matched facet, indexed by first occurrence, and counts the distinct keys |
| FacetDecoder.LoadStlFaces | tools/facet_decoder.py:68-77 | the sniff picks the loader: for ASCII one face per matched facet, indexed by first occurrence, with the distinct-key count; for binary, success exactly when the walk fits, one face per triangle and the distinct corner-key count; every face index is below the vertex count |
| FacetDecoder.AllSegmentsWellFormed | tools/facet_decoder.py:151-165 | no collected segment is empty or holds the marker |
| FacetDecoder.Lengths | tools/facet_decoder.py:184 | the segment lengths in order |
| FacetDecoder.FirstBytes | tools/facet_decoder.py:192 | the first byte of every segment when none is empty |
| FacetDecoder.CollectSegments | tools/facet_decoder.py:151-175 | the sample loop collects every sample's segments in order and one line per sample with its segment and face counts |
| FacetDecoder.AnalyzeSegmentPatterns | tools/facet_decoder.py:139-195 | one line per sample; the segment counter and the distinct segment count; minimum and maximum lengths that are lengths of segments and bound all, or 0 without segments; the first-byte counter is the multiset of the segments' first bytes, none of them the marker |
| FacetDecoder.Digrams | tools/facet_decoder.py:251-252 | one digram per position but the last, the pair of bytes there |
| FacetDecoder.Trigrams | tools/facet_decoder.py:253-254 | one trigram per position but the last two, the triple of bytes there |
| FacetDecoder.GramTotals | tools/facet_decoder.py:249-254 | the digrams and trigrams of all samples number the windows of width 2 and 3 |
| FacetDecoder.CountGrams | tools/facet_decoder.py:246-254 | the counters hold exactly the digrams and trigrams of all samples |
| FacetDecoder.CountDigrams | tools/facet_decoder.py:251-252 | one sample's digrams are added to the counter |
| FacetDecoder.CountTrigrams | tools/facet_decoder.py:253-254 | one sample's trigrams are added to the counter |
| FacetDecoder.ProbeBound | tools/facet_decoder.py:294 | the probe tries at most 16 offsets, each with four bytes to read |
| FacetDecoder.LastOffset | tools/facet_decoder.py:294-299 | the last probed offset whose LE uint32 is the value, none matching after it; none when no offset matches |
| FacetDecoder.ProbeCounts | tools/facet_decoder.py:294-299 | the offset loop keeps the last offset matching the facet count and the last matching the vertex count |
| FacetDecoder.LongSamples | tools/facet_decoder.py:272-275 | the samples the header analysis keeps have at least 16 bytes |
| FacetDecoder.HeadersOf | tools/facet_decoder.py:272-301 | one header entry per kept sample |
| FacetDecoder.ValuesAt | tools/facet_decoder.py:309 | the byte at a position of every header long enough to have one |
| FacetDecoder.Constant | tools/facet_decoder.py:309-311 | a position is constant with value v exactly when every header has v there, and there is at least one header |
| FacetDecoder.ConstantIsSingleton | tools/facet_decoder.py:310 | the constant exists exactly when the values at the position form a one-element set, and it is the first value |
| FacetDecoder.ConstantsSound | tools/facet_decoder.py:307-312 | every listed pair is a constant position with its value, positions increasing |
| FacetDecoder.ConstantsComplete | tools/facet_decoder.py:307-312 | every constant position is listed with its value |
| FacetDecoder.ConstantPositions | tools/facet_decoder.py:307-312 | the position loop lists exactly the constant positions among the first 16 |
| FacetDecoder.HeaderFor | tools/facet_decoder.py:277-299 | the entry of one sample: its first 16 bytes and their hex, the first and second words, and the offset probes |
| FacetDecoder.CollectHeaders | tools/facet_decoder.py:272-301 | the sample loop gives the entries of the samples of at least 16 bytes |
| FacetDecoder.HeadersFromLong | tools/facet_decoder.py:272-301 | skipping short samples inside the loop is the same as keeping the long samples first |
| FacetDecoder.AnalyzeHeaderStructure | tools/facet_decoder.py:266-314 | one entry per sample of at least 16 bytes, in order; the constant positions exactly when there is an entry |
| FacetDecoder.TryDecodeFacets | tools/facet_decoder.py:317-343 | the payload is split into its segments and no faces are decoded |
| Canon.Firsts | tools/batch_pair_analyzer.py:184-192 | the vertices kept by the `vertex_set` loop: no key kept twice, and a key is kept exactly when some vertex carries it |
| Canon.FirstsFrom | tools/dcm_decoder.py:119-131 | every kept vertex is a vertex of the input |
| Canon.IndexOf | tools/sdx_test_harness.py:101-104 | the position stored in `vertex_map` for a key holds that key and no earlier position does |
| Canon.FaceIndex | tools/facet_decoder.py:94-98 | the index a corner receives points at a kept vertex with the corner's own key |
| Canon.FaceIndexPrefix | tools/facet_decoder.py:94-98 | a corner's index is fixed when it is met: later corners do not change it |
| Canon.FaceIndexFresh | tools/facet_decoder.py:95-97 | a key met for the first time is appended and receives the next free index |
| Canon.FaceIndexSame | tools/sdx_test_harness.py:101-104 | two corners get the same index exactly when their keys are equal |
| Canon.FirstsCount | tools/known_plaintext_attack.py:47-58 | the number of kept vertices is the number of distinct keys |
| Canon.FirstsAll | tools/known_plaintext_attack.py:47-58 | nothing is dropped exactly when no key repeats |
| Canon.FirstsPrefix | tools/dcm_decoder.py:119-131 | the vertices kept from a prefix are a prefix of those kept from the whole |
| Canon.Indices | tools/facet_decoder.py:94-98 | one index per corner |
| Canon.IndicesSnoc | tools/facet_decoder.py:94-98 | processing one more corner leaves the earlier indices unchanged |
| Canon.KnownVertex | tools/facet_decoder.py:95-98 | a key already in `vertex_map` reuses its stored index and adds no vertex |
| Canon.NewVertex | tools/facet_decoder.py:95-98 | a new key appends its vertex and receives the current vertex count |
| Canon.MapOkExtend | tools/facet_decoder.py:96 | storing a new key at the current vertex count keeps `vertex_map` consistent with the vertex list |
| Canon.AddVertex | tools/sdx_test_harness.py:101-104 | one step of the `vertex_map` loop: the vertex list becomes the first occurrences of the corners seen so far and the index returned is the corner's canonical index |
| Canon.AddFace | tools/sdx_test_harness.py:98-105 | the three corners of a face extend the vertex list and the index list by the face's canonical indices |
| Canon.IndexTriples | tools/sdx_test_harness.py:72-109 | the ASCII loader: the vertex list is the first occurrences of all corners and face t holds the canonical indices of corners 3t, 3t+1 and 3t+2 |
| Canon.IndexedFacesResolve | tools/facet_decoder.py:120-136 | every face entry is a valid vertex position holding the key of its corner |
| Canon.IndexedFacesShare | tools/facet_decoder.py:120-136 | two faces share a first vertex index exactly when their first corners have equal keys |
| Canon.Flatten | tools/sdx_test_harness.py:98-105 | three corners per face |
| Canon.FlattenAt | tools/sdx_test_harness.py:98-105 | corners 3t, 3t+1 and 3t+2 are the corners of face t |
| Canon.KeepFirsts | tools/batch_pair_analyzer.py:184-192 | the `vertex_set` loop returns exactly the first occurrences of the vertex keys |
| Grouping.Group | tools/batch_pair_analyzer.py:399-401 | a `defaultdict(list)` entry holds at most one value per record |
| Grouping.GroupMembers | tools/batch_pair_analyzer.py:399-401 | every record's value is in the group of its key, and a group holds only values of records carrying its key |
| Grouping.GroupNonEmpty | tools/batch_pair_analyzer.py:450-452 | a key has a non-empty group exactly when some record carries it |
| Grouping.GroupBy | tools/batch_pair_analyzer.py:399-401 | the `defaultdict(list)` loop: one entry per key carried by a record, keys in order of first appearance, each entry the values of its records in list order |
| Grouping.CountMixed | tools/batch_pair_analyzer.py:403-406 | `same_sig_different_key` is at most the number of groups and is zero exactly when no group holds two distinct values |
| Grouping.CountMixedGroups | tools/batch_pair_analyzer.py:403-406 | the counting loop returns the number of groups with more than one distinct value |
| Grouping.NoMixedIffKeyDeterminesValue | tools/batch_pair_analyzer.py:408-410 | the count is zero exactly when records with the same signature hash always have the same key hash |
| Grouping.Distinct | tools/batch_pair_analyzer.py:382 | a `Counter`'s keys: exactly the elements of the list, each once |
| Grouping.Duplicates | tools/batch_pair_analyzer.py:382-384 | the reported pairs are exactly the elements occurring more than once, with their counts, and no element is reported twice |
| Grouping.DuplicatesCount | tools/batch_pair_analyzer.py:382-385 | the number of reported pairs is the number of distinct elements occurring more than once |
| Grouping.DuplicatesEmpty | tools/batch_pair_analyzer.py:380-384 | no duplicate is reported exactly when all key hashes differ |
| Pairing.FirstPartnerGlobal | tools/known_plaintext_attack.py:153-157 | the value stored for a key when pair j is scanned is the value at the key's first occurrence |
| Pairing.NoConflictIffFunctional | tools/known_plaintext_attack.py:153-166 | the scan meets no conflict exactly when every byte value always maps to the same byte value |
| Pairing.FirstTable | tools/known_plaintext_attack.py:148-157 | `sub_table` holds exactly the byte values seen |
| Pairing.FirstTableSize | tools/known_plaintext_attack.py:167 | `table_size` is the number of distinct byte values |
| Pairing.FirstTableFunctional | tools/known_plaintext_attack.py:168 | under a functional pairing the table maps every byte to the byte it meets everywhere |
| Pairing.ConflictsSound | tools/known_plaintext_attack.py:154-155 | every recorded conflict is a real one: its position, byte, stored value and value met |
| Pairing.ConflictsEmpty | tools/known_plaintext_attack.py:166 | `is_substitution` holds exactly when no pair conflicts |
| Pairing.ScanStep | tools/known_plaintext_attack.py:152-157 | one step of the table-filling loop: the conflict test and the table update |
| Pairing.TableStep | tools/known_plaintext_attack.py:156-157 | the table after one step of the loop |
| Pairing.ConflictsSnoc | tools/known_plaintext_attack.py:154-155 | a seen key appends one conflict when its value differs and none otherwise |
| Pairing.FirstConflictFrom | tools/known_plaintext_attack.py:185-195 | the first conflicting position at or after a start, or the length |
| Pairing.FirstConflict | tools/known_plaintext_attack.py:185-195 | where a scan that stops at the first conflict stops: no conflict before it, one at it |
| Pairing.FirstConflictAt | tools/known_plaintext_attack.py:185-195 | the stopping point is determined by the conflicts alone |
| BatchPair.LoadStlVerticesRaw | tools/batch_pair_analyzer.py:139-198 | an ASCII file gives the packed first occurrences of its matched vertex records; a binary file loads exactly when its triangle walk fits and gives the packed first occurrences of its corners; either way 12 bytes per distinct vertex key |
| BatchPair.FailedRecord | tools/batch_pair_analyzer.py:266-290 | the record of a pair whose analysis raised carries the error and zero sizes |
| BatchPair.KeyXorSig | tools/batch_pair_analyzer.py:233-237 | the correlation string is empty exactly when the signature is empty or longer than the key, and is otherwise two hex digits per signature byte |
| BatchPair.KeyXorSigRecoversKey | tools/batch_pair_analyzer.py:235 | XORing the correlation string's bytes with the signature gives back the key prefix |
| BatchPair.PairKey | tools/batch_pair_analyzer.py:210-219 | the key is as long as the shorter payload and byte i is the XOR of the two payloads' byte i |
| BatchPair.AnalyzePair | tools/batch_pair_analyzer.py:201-290 | a loader failure or a non-hex signature gives an error record |
| BatchPair.AnalyzePairLoaded | tools/batch_pair_analyzer.py:210-263 | a loaded pair's record: signature hash, scan source and facet count copied from the metadata, facet bytes the facet payload's length, vertex bytes the shorter payload, vertex count its twelfths, a size-mismatch error exactly when the payloads differ in length, the key's digest, lower-case hex of the first 64 key and facet bytes, and a correlation string exactly when the signature fits the key |
| BatchPair.SucceededIff | tools/batch_pair_analyzer.py:362 | a record counts as successful exactly when the pair loaded with a readable signature and equal payload lengths, or a loader raised with an empty message |
| BatchPair.ProcessPairs | tools/batch_pair_analyzer.py:316-350 | one record per pair, in input order, each the analysis of its pair |
| BatchPair.Limit | tools/batch_pair_analyzer.py:498-499 | `pairs[:limit]`: a prefix, all pairs without a limit or with 0, the first `limit` pairs, or for a negative limit all but the last `-limit` |
| BatchPair.SuccessfulOf | tools/batch_pair_analyzer.py:362 | exactly the successful records |
| BatchPair.HashFigures | tools/batch_pair_analyzer.py:374-384 | the number of distinct key hashes and the repeated hashes with their counts |
| BatchPair.KeyStatistics | tools/batch_pair_analyzer.py:371-452 | every aggregate of the report: key-hash figures, the signature-to-key grouping and its mixed count, the prefix counters and the grouping by scan source |
| BatchPair.AnalyzeDatabase | tools/batch_pair_analyzer.py:353-456 | successes plus errors is the total, and the statistics are computed exactly when some record succeeded |
| BatchPair.UniqueKeysBound | tools/batch_pair_analyzer.py:376-384 | there are never more distinct keys than successful records, duplicates are listed exactly when some key repeats, and each with its true count |
| BatchPair.SameSignatureSameKey | tools/batch_pair_analyzer.py:403-410 | "all files with the same SignatureHash have the same key" is reported exactly when that holds |
| BatchPair.BySourceCovers | tools/batch_pair_analyzer.py:450-452 | every successful record is in the group of its scan source |
| BatchPair.BySourceSeparates | tools/batch_pair_analyzer.py:450-452 | a scan-source group holds only successful records of that source |
| DcmAnalyzer.ParseDcm | tools/dcm_analyzer.py:70-110 | the reported payload sizes are the decoded payloads' lengths, not the declared attributes |
| DcmAnalyzer.CountBelowAdd | tools/dcm_analyzer.py:136 | adding a byte raises the count below k by one exactly when the byte is below k |
| DcmAnalyzer.LowCountIsFilter | tools/dcm_analyzer.py:136 | `sum(counter[i] for i in range(10))` is the number of bytes with values 0 through 9 |
| DcmAnalyzer.ByteRange | tools/dcm_analyzer.py:112-147 | the 256 byte values |
| DcmAnalyzer.UniqueBytesBound | tools/dcm_analyzer.py:115 | there are at most 256 distinct byte values |
| DcmAnalyzer.ByteDistribution | tools/dcm_analyzer.py:112-147 | empty data raises; otherwise the total, the byte counter, between 1 and 256 distinct values, the least and greatest byte, and the number of low bytes |
| DcmAnalyzer.HighNibble | tools/dcm_analyzer.py:186 | `(b >> 4) & 0x0F` is the byte divided by 16 |
| DcmAnalyzer.LowNibble | tools/dcm_analyzer.py:187 | `b & 0x0F` is the byte modulo 16 |
| DcmAnalyzer.Nibbles | tools/dcm_analyzer.py:185-189 | two nibbles per byte, each below 16 |
| DcmAnalyzer.NibblesRecombine | tools/dcm_analyzer.py:185-189 | the two nibbles of a byte recombine into it |
| DcmAnalyzer.NibbleHistogram | tools/dcm_analyzer.py:185-189 | the counter loop counts exactly the nibbles of the data |
| DcmAnalyzer.NibbleCounts | tools/dcm_analyzer.py:185-190 | the counter holds two entries per byte, each below 16 |
| DcmAnalyzer.AnalyzeEdgebreakerPatterns | tools/dcm_analyzer.py:150-193 | the first 16 bytes, the positions of every byte 9, the marker distances exactly when there are two markers or more, and the nibble counter |
| DcmAnalyzer.MarkerDistances | tools/dcm_analyzer.py:177-181 | every distance is at least one and together they span the first marker to the last |
| DcmAnalyzer.Chunks | tools/dcm_analyzer.py:242-243 | 25 chunks, chunk i the four bytes at offset 4i |
| DcmAnalyzer.AnalyzeVertexEncoding | tools/dcm_analyzer.py:196-245 | the total, the lower-case hex of the first 32 bytes, and, exactly when there are 100 bytes or more, the number of distinct 4-byte chunks among the first 25 that occur more than once |
| DcmAnalyzer.RepeatedChunksMeaning | tools/dcm_analyzer.py:241-245 | no repeated chunk is counted exactly when the 25 chunks are pairwise different |
| SdxHarness.DropLeadingNul | tools/sdx_test_harness.py:119 | a suffix with only NULs removed in front and no NUL left at its head |
| SdxHarness.DropTrailingNul | tools/sdx_test_harness.py:119 | a prefix with only NULs removed behind and no NUL left at its end |
| SdxHarness.StripNul | tools/sdx_test_harness.py:119 | `strip('\x00')`: a slice of the input with only NULs cut on either side and none left at either end |
| SdxHarness.StripNulIdempotent | tools/sdx_test_harness.py:119 | stripping twice strips nothing more |
| SdxHarness.BinaryName | tools/sdx_test_harness.py:118-119 | the binary mesh's name: ASCII bytes only, at most 80 |
| SdxHarness.ParseStlBinary | tools/sdx_test_harness.py:112-148 | parses exactly when the triangle walk fits; one face per declared triangle, each naming the first-occurrence vertices of its corners |
| SdxHarness.FacetCorners | tools/sdx_test_harness.py:93-97 | the three corners of each matched facet |
| SdxHarness.ParseStlAscii | tools/sdx_test_harness.py:68-109 | one face and one normal per matched facet; the vertices are the first occurrences of the corners and each face holds its corners' indices |
| SdxHarness.LoadStl | tools/sdx_test_harness.py:151-166 | the sniff picks the parser: for ASCII the mesh of `ParseStlAscii` on the matched facets (name, one normal per facet, first-occurrence vertices, indexed faces); for binary, success exactly when the walk fits, with the header name and the walk's normals, vertices and faces; float parsing of the ASCII tokens is abstracted |
| SdxHarness.ExportVertexData | tools/sdx_test_harness.py:212-218 | the vertex records one after another, 12 bytes each |
| SdxHarness.PackFace | tools/sdx_test_harness.py:225 | `struct.pack('<III', …)` is 12 bytes |
| SdxHarness.PackedFaces | tools/sdx_test_harness.py:224-225 | one 12-byte record per face |
| SdxHarness.FaceBytesLength | tools/sdx_test_harness.py:221-227 | the face table is 12 bytes per face |
| SdxHarness.DecodeFaces | tools/sdx_test_harness.py:221-227 | reading a face table back: face t from bytes 12t to 12t+12 |
| SdxHarness.DecodePackedFace | tools/sdx_test_harness.py:225 | a packed face decodes to itself |
| SdxHarness.FaceChunkDecodes | tools/sdx_test_harness.py:221-227 | the 12 bytes of face t decode to face t |
| SdxHarness.FaceBytesRoundTrip | tools/sdx_test_harness.py:221-227 | decoding the exported face table gives back the faces |
| SdxHarness.ExportFaceData | tools/sdx_test_harness.py:221-227 | the export succeeds exactly when every index fits 32 bits, and then writes the face table |
| SdxHarness.StlSizes | tools/sdx_test_harness.py:239-244 | the STL-side sizes: 12 bytes per vertex and per face |
| SdxHarness.ExportsHaveStatedSizes | tools/sdx_test_harness.py:212-244 | the compared sizes are the lengths of the two exports |
| FileUtils.LastIndex | src/dcm_to_stl/core/file_utils.py:30 | the last position holding one of the given characters, or -1 when none does |
| FileUtils.TailShape | src/dcm_to_stl/core/file_utils.py:30 | the last path component is a suffix free of separators, preceded by a separator when it is not the whole path |
| FileUtils.DirectoryAndTail | src/dcm_to_stl/core/file_utils.py:48-49 | a path is its directory part followed by its last component, and the directory part is empty or ends in a separator |
| FileUtils.ExtensionAtLastDot | src/dcm_to_stl/core/file_utils.py:30 | an extension starts at the last dot of the last component |
| FileUtils.ExtensionUnique | src/dcm_to_stl/core/file_utils.py:30 | a path has at most one extension |
| FileUtils.SplitExt | src/dcm_to_stl/core/file_utils.py:30 | `os.path.splitext`: root and extension concatenate to the path; an extension is the one the path has, and an empty one means the path has none, leading dots of the last component not counting |
| FileUtils.AsciiLower | src/dcm_to_stl/core/file_utils.py:30 | `str.lower` on each character |
| FileUtils.LowerKeepsPunctuation | src/dcm_to_stl/core/file_utils.py:30 | lowering changes no separator and no dot |
| FileUtils.DcmNameExtension | src/dcm_to_stl/core/file_utils.py:30 | a `.dcm` name has its extension at its last four characters |
| FileUtils.DcmExtension | src/dcm_to_stl/core/file_utils.py:30 | the lowered extension is `.dcm` exactly when the path ends in `.dcm` in any case after a last component with a non-dot character before it |
| FileUtils.IdentifyDcm | src/dcm_to_stl/core/file_utils.py:21-32 | returns the path exactly when it names a DCM file, and nothing otherwise |
| FileUtils.StlOutputPath | src/dcm_to_stl/core/file_utils.py:35-49 | the output ends in `.stl`; a path without extension gets `.stl` appended; a DCM path has its last four characters replaced by `.stl` |
| FileUtils.OutputSameDirectory | src/dcm_to_stl/core/file_utils.py:42 | the output lies in the input's directory |
| FileUtils.OutputNotDcm | src/dcm_to_stl/core/file_utils.py:35-49 | an output path never names a DCM file |
| FileUtils.OutputExtension | src/dcm_to_stl/core/file_utils.py:35-49 | the output's extension is `.stl` exactly when the input's last component has a non-dot character |
| FileUtils.ExtensionStemInTail | src/dcm_to_stl/core/file_utils.py:48 | a path with an extension has a non-dot character in its last component |
| FileUtils.Basename | src/dcm_to_stl/core/file_utils.py:70 | `os.path.basename`: a separator-free suffix, preceded by a separator or a drive colon when it is not the whole path |
| FileUtils.BasenameAfterSep | src/dcm_to_stl/core/file_utils.py:70 | the basename of a directory plus a name is the name |
| FileUtils.FilterTargetFiles | src/dcm_to_stl/core/file_utils.py:52-71 | keeps, in order, exactly the files whose basename is a target; no targets keep nothing |
| FileUtils.ScanIsDcm | src/dcm_to_stl/core/file_utils.py:45-46 | `/path/to/scan.dcm` names a DCM file |
| FileUtils.OutputPathExample | src/dcm_to_stl/core/file_utils.py:45-46 | `/path/to/scan.dcm` gives `/path/to/scan.stl` |
| FileUtils.FooBarBasenames | src/dcm_to_stl/core/file_utils.py:63-64 | the basenames of the documented example files |
| FileUtils.FilterExample | src/dcm_to_stl/core/file_utils.py:63-66 | the documented filtering example gives `['/a/b/foo.dcm']` |
| Converter.DcmFiles | src/dcm_to_stl/core/converter.py:74-77 | the walked files that name DCM files, in walk order |
| Converter.Discovered | src/dcm_to_stl/core/converter.py:73-85 | mode '0' gives every DCM file, mode '1' the DCM files whose basename is a target, in walk order; any other mode is an error |
| Converter.DiscoverOutcome | src/dcm_to_stl/core/converter.py:70-85 | a missing directory is an error; otherwise what discovery gives |
| Converter.FileOutcome | src/dcm_to_stl/core/converter.py:98-109 | a missing input is an error; otherwise the conversion's outcome, which succeeds exactly when attached and the service returns 0 |
| Converter.SucceedsMeansOk | src/dcm_to_stl/core/converter.py:140-146 | a file is counted exactly when its conversion raises nothing |
| Converter.ConvertedCountSplit | src/dcm_to_stl/core/converter.py:139-146 | the count over a list is the sum of the counts over its parts |
| Converter.AllConverted | src/dcm_to_stl/core/converter.py:139-146 | every file is counted exactly when every conversion succeeds |
| Converter.DirectoryOutcome | src/dcm_to_stl/core/converter.py:125-162 | discovery errors propagate; no files gives 0; the count is the number of files converted without error and never more than found; with an attached interface it never fails, and otherwise only when attaching fails, with the attach error |
| Converter.CountSnoc | src/dcm_to_stl/core/converter.py:142 | one more file raises the count by one exactly when it converts |
| Converter.DcmConverter.constructor | src/dcm_to_stl/core/converter.py:45-46 | the converter holds its mode and targets |
| Converter.DcmConverter.Create | src/dcm_to_stl/core/converter.py:31-47 | any mode but '0' and '1' is refused with its message; missing targets become the empty list |
| Converter.DcmConverter.DiscoverFiles | src/dcm_to_stl/core/converter.py:58-85 | the directory walk filtered as `DiscoverOutcome` says |
| Converter.DcmConverter.ConvertFile | src/dcm_to_stl/core/converter.py:87-109 | the outcome of `FileOutcome`, with the four options set for the input and its STL path when attached and the input exists |
| Converter.DcmConverter.ConvertAll | src/dcm_to_stl/core/converter.py:139-159 | every file is tried, a failing one skipped, and the count is the number converted; the handle is unchanged |
| Converter.DcmConverter.ConvertDirectory | src/dcm_to_stl/core/converter.py:111-162 | the result is `DirectoryOutcome` of the discovery, using a passed interface when it is attached; the passed interface stays attached |
| Converter.DcmConverter.ConvertFound | src/dcm_to_stl/core/converter.py:135-162 | a non-empty discovery converted on the passed attached interface or on a fresh connection that is detached afterwards |
| Converter.ConvertDirectorySimple | src/dcm_to_stl/core/converter.py:165-181 | a bad mode is refused; otherwise the directory converted on a fresh connection |
| Sdx.KnownCodes | src/dcm_to_stl/core/sdx_interface.py:143-159 | the codes with a message of their own are -1 and 1 through 14 |
| Sdx.HandleError | src/dcm_to_stl/core/sdx_interface.py:134-162 | every message starts with `COM Error <code>: ` and continues with the code's text, or `Unknown error code: <code>` |
| Sdx.CodeOfMessage | src/dcm_to_stl/core/sdx_interface.py:162 | the code can be read back from the message |
| Sdx.HandleErrorInjective | src/dcm_to_stl/core/sdx_interface.py:134-162 | different codes give different messages |
| Sdx.Repeat | src/dcm_to_stl/core/sdx_interface.py:122-124 | n copies of the progress message |
| Sdx.ConversionOutcome | src/dcm_to_stl/core/sdx_interface.py:108-132 | not attached is an error; state 0 succeeds with one "converting..." per poll and then "Converted: <input>"; any other state raises its error message |
| Sdx.Configured | src/dcm_to_stl/core/sdx_interface.py:112-115 | the four options set to the given formats and files, every other option kept |
| Sdx.AttachAsWritten | src/dcm_to_stl/core/sdx_interface.py:40-45 | as written: succeeds exactly when creating the object and `Attach()` both succeed, but keeps the new object even when `Attach()` fails |
| Sdx.FailedAttachLooksAttached | src/dcm_to_stl/core/sdx_interface.py:40-45 | a failed `Attach()` leaves a fresh wrapper reporting itself attached |
| Sdx.AttachOutcome | src/dcm_to_stl/core/sdx_interface.py:31-45 | as intended: on success the object is returned and kept, and on failure the error carries the cause and the wrapper keeps its state |
| Sdx.AttachedIffSucceeded | src/dcm_to_stl/core/sdx_interface.py:57-64 | after the intended attach the wrapper reports itself attached exactly when the attach succeeded or it was attached before |
| Sdx.AttachResultsAgree | src/dcm_to_stl/core/sdx_interface.py:40-45 | the written and the intended attach return the same result and differ only in the handle kept after `Attach()` raised |
| Sdx.SdxInterface.constructor | src/dcm_to_stl/core/sdx_interface.py:28-29 | a new wrapper is detached |
| Sdx.SdxInterface.Attach | src/dcm_to_stl/core/sdx_interface.py:31-45 | the new state and result are `AttachAsWritten`: a created object is stored and its options start empty even when `Attach()` then raises, leaving the wrapper attached |
| Sdx.SdxInterface.Detach | src/dcm_to_stl/core/sdx_interface.py:47-55 | the wrapper ends detached whether or not `Detach()` raises; a detached wrapper is left unchanged |
| Sdx.SdxInterface.SdxObject | src/dcm_to_stl/core/sdx_interface.py:76-88 | the object while attached, else the "Not attached" error |
| Sdx.SdxInterface.ConvertFile | src/dcm_to_stl/core/sdx_interface.py:90-132 | the result is `ConversionOutcome`, the four options are set when attached, and the handle does not change |
| ModeRegistry.Initialized | src/dcm_to_stl/config/registry.py:19-38 | the key ends up holding a mode; a stored mode is kept, otherwise '0' is written; no other value changes |
| ModeRegistry.Written | src/dcm_to_stl/config/registry.py:89 | the mode holds the value written and no other value changes |
| ModeRegistry.ReadMode | src/dcm_to_stl/config/registry.py:41-68 | a missing key or value reads '0', '0' or '1' reads as stored, and any other stored value is an error with the doubly wrapped message |
| ModeRegistry.AfterRead | src/dcm_to_stl/config/registry.py:63-66 | reading initialises a key without a mode and leaves one with a mode alone |
| ModeRegistry.SetOutcome | src/dcm_to_stl/config/registry.py:71-96 | a mode other than '0' or '1' is refused with the store untouched; a valid mode is written |
| ModeRegistry.ToggleOutcome | src/dcm_to_stl/config/registry.py:99-118 | a read error propagates with the store left as the read left it; otherwise the opposite mode is returned and written |
| ModeRegistry.InitializeIdempotent | src/dcm_to_stl/config/registry.py:19-38 | initialising twice is initialising once |
| ModeRegistry.SetThenGet | src/dcm_to_stl/config/registry.py:71-96 | a mode that was set reads back, and reading it changes nothing |
| ModeRegistry.WriteAfterInitialize | src/dcm_to_stl/config/registry.py:91-94 | the retry after initialising writes what a write into the missing key would |
| ModeRegistry.ToggleFlips | src/dcm_to_stl/config/registry.py:99-118 | after a toggle the store reads back the opposite mode, which is what the toggle returned |
| ModeRegistry.DoubleToggle | src/dcm_to_stl/config/registry.py:99-118 | two toggles give back the mode read before them and restore a key that held a mode |
| ModeRegistry.Registry.constructor | src/dcm_to_stl/config/registry.py:10-11 | the registry holds the given key |
| ModeRegistry.Registry.InitializeRegistry | src/dcm_to_stl/config/registry.py:19-38 | the key becomes `Initialized` of its old contents |
| ModeRegistry.Registry.GetMode | src/dcm_to_stl/config/registry.py:41-68 | returns `ReadMode` of the old contents and leaves `AfterRead` of them |
| ModeRegistry.Registry.SetMode | src/dcm_to_stl/config/registry.py:71-96 | result and new contents are `SetOutcome`, including the retry on a missing key |
| ModeRegistry.Registry.ToggleMode | src/dcm_to_stl/config/registry.py:99-118 | result and new contents are `ToggleOutcome` |

## Left out

- Shannon entropy, percentages, averages and ratios are floating-point and are not modelled. This covers `calculate_entropy`, the entropy of `analyze_byte_distribution`, the entropies of `try_xor_decrypt`, `bytes_per_facet` and the compression ratios.
- Float interpretation is not modelled. This covers rounding to 6 decimals, `struct` float decoding, `analyze_float_transformation`, `analyze_mesh` and the float samples of `analyze_vertex_encoding` and `try_vertex_decodings`. Vertices are opaque records and identity is a key function.
- The harness's tolerance-based `Vertex.__eq__`/`__hash__` is not modelled: it is not an equivalence relation. An exact key function takes its place.
- Library calls are not modelled: base64 decoding, XML parsing, the md5 digest (passed in as an opaque function), `try_decompress` and the regular-expression tokenising of ASCII STL. The ASCII loaders receive the matched vertex records, or the matched facets, as input.
- File and console I/O are not modelled: `open`/`write`/`print`, JSON dump and load, `os.walk`/`list_files`, `find_pairs_in_directory`, `generate_report`, and `save_key_file`. The key files written by `process_pairs` under `--save-keys` are also left out.
- `os.path.abspath` in `convert_file` is not modelled: it depends on the working directory. The model passes the input path and `get_stl_output_path` of it.
- `Counter.most_common` is not modelled, and neither are the top-N lists built on it (the facet byte distribution and the pattern counters' top 10). The statistics are stated as full multisets and counts.
- `FileUtils.Basename`: a bare UNC root such as `\\server\share` is not split off as a drive; drive letters are.
- `SdxHarness.LoadStl`, `FacetDecoder.LoadStlFaces`, `BatchPair.LoadStlVerticesRaw`: their ASCII branch always succeeds, whereas the source can raise there. The number pattern also matches tokens such as `1e` or `-`, on which `float()` raises `ValueError` (tools/sdx_test_harness.py:93-96, tools/facet_decoder.py:126-128, tools/batch_pair_analyzer.py:188). `struct.pack('<fff')` raises `OverflowError` on values beyond the float32 range (tools/batch_pair_analyzer.py:196). And the batch loader compares vertices by their value rounded to six decimals before packing to float32, so two vertices with different keys can give the same 12-byte record, while the model packs one record per key. Floating point is not modelled, so the ASCII branches take already-parsed records or facets and an abstract key.
- `FileUtils.AsciiLower`: only ASCII letters are lowered, whereas `str.lower` also lowers other letters. An extension equal to `.dcm` after lowering contains only ASCII anyway.
- `Bytes.FromHex`: the whitespace that `bytes.fromhex` skips is not accepted.
- `Converter.DcmConverter.ConvertDirectory`: progress callbacks and their messages are not modelled. The branch on the passed interface tests `is_attached` rather than also the object's truthiness.
- `Converter.DcmConverter.ConvertFound`: this is the part of `convert_directory` after a non-empty discovery, split off as its own method.
- `Sdx.SdxInterface.ConvertFile`: the `Finished` polling loop is given as the number of polls that read false; `time.sleep` is not modelled.
- `ModeRegistry.Registry`: registry failures other than a missing key or value are not modelled (access denied, a non-string value). The store holds strings only.
- `ModeRegistry.Registry.ToggleMode`: the third branch of `toggle_mode` cannot be taken, because `get_mode` only returns '0' or '1', so it is not modelled.
- `XorKey.LongRuns` and `Experimental.AnalyzeRuns` require non-empty data. Their callers, `XorKey.AnalyzeXorKey` and `Experimental.AnalyzeFacetStructure`, return the error that `data[0]` raises on empty input.
- `DcmDecoder.FirstInvalid`, `DcmDecoder.WriteStlBinary`: face indices are natural numbers, so Python's negative indices down to `-len(vertices)`, which `mesh.vertices[i]` accepts and wraps, are not modelled; the only caller passes the empty face list of the placeholder decoder.
- `KnownPlaintext.PerformAttack`: promises a full match only when the shortest period is at most 64 bytes, because the program validates with the 64-byte sample (see "## Findings"); the block-cipher check is not run inside the attack. The source only prints its outcome and leaves it out of the result record; `KnownPlaintext.TryBlockCipherDetection` models it on its own.
- The GUI, the CLI driver, the re-export modules, `config/settings.py` and `config/target_config.py` are outside this model.

## Findings

| source | as written | input that shows it | evidently intended | confidence | as-written member | corrected member |
|---|---|---|---|---|---|---|
| tools/known_plaintext_attack.py:113 | the repeating pattern is cut to its first 64 bytes, and the validation at lines 376-380 decrypts with the cut pattern, taking its length as the period | a 130-byte key with byte 1 at positions 0 and 65 and 0 elsewhere (true period 65), with an all-zero STL payload | validate with the whole period, which always reproduces the STL bytes | not executed | XorKey.TruncatedPatternRejectsPeriod65 | XorKey.ValidateSucceeds |
| src/dcm_to_stl/core/sdx_interface.py:41-42 | the new dispatch object is stored in `_sdx` before `Attach()` is called | `Attach()` raising on a fresh wrapper: `attach` raises `SDXError`, yet `is_attached` then holds | keep the handle only once `Attach()` succeeded | not executed | Sdx.FailedAttachLooksAttached | Sdx.AttachedIffSucceeded |

The attack (`KnownPlaintext.PerformAttack`) and the wrapper's `Sdx.SdxInterface.Attach` follow the program as written; `KnownPlaintext.AttackRejectsPeriod65` shows the first flaw at the level of the attack's report, and `Sdx.AttachResultsAgree` shows that the second one changes only the handle kept, not what `attach` returns.
