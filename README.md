# Compression portal server: a Dafny model

The compression portal is an Express server (`server/app.js`). A client uploads
a file with `POST /api/compress` or `POST /api/decompress`. Multer stores the
upload in the `uploads` directory under a key made from the current time and
a sanitised copy of the client's file name. The handler then does four things:

1. It validates the request. For compress, that means the algorithm; for
   decompress, it infers the algorithm from the file name.
2. It reads the upload and runs one of three codecs: gzip, deflate or brotli.
3. It writes the result into the `processed` directory under a derived name.
4. It deletes the upload.

`GET /api/download` serves a staged file by name and deletes it once the
transfer completes.

The model has six modules:

- `Wrappers`: `Option` and `Result`.
- `Text`: the JavaScript string operations the handlers call (`includes`,
  `join`, decimal numerals of `Date.now()`), each with a reference meaning:
  for example, `includes` is a left-to-right search that agrees with the
  existence of an occurrence. It also holds `EndsWith`, the meaning of the
  `$`-anchored regular expression of the decompress handler, and
  `AsciiUpper`, the reference that the contract of the table's labels uses.
- `Codecs`: the algorithm table, its keys and labels, and the stats each
  entry reports. The zlib routines are uninterpreted function values. The
  decompressor may reject its input with a message.
- `Naming`: every name the server builds.
  - the upload key;
  - `path.parse(...).name` for POSIX paths;
  - the compress and decompress output names;
  - the prioritised algorithm detection.
- `Lifecycle`: the two directories as maps and the reply errors with their
  exact texts. Each handler is a pure step function that returns the reply
  together with the writes and unlinks it performs, in order. Lemmas cover:
  - failures leave the upload in place;
  - outputs overwrite one another;
  - downloads are single-use.
- `Portal`: class `Server`. Its two map fields change in place. Its methods
  are multer's upload and the three handlers, written step by step as the
  handlers are. Each method is proved to agree with its step function, and a
  ghost journal records the order of the writes and unlinks.

## Model

| member | source | states |
|---|---|---|
| Text.IndexOfFrom | server/app.js:171-173 | the search result is the first occurrence at or after the start, and "none" means no occurrence from there on |
| Text.Includes | server/app.js:171-173 | `includes` answers true exactly when the text occurs somewhere in the name |
| Text.Decimal | server/app.js:30 | the numeral of the timestamp is non-empty, made of digits, and has no leading zero |
| Text.ParseDecimalInvertsDecimal | server/app.js:30 | reading the timestamp's numeral back gives the timestamp |
| Text.DecimalInjective | server/app.js:30 | two timestamps have the same numeral exactly when they are equal |
| Text.EndsWithMeansSuffix | server/app.js:176 | a name matches a pattern anchored with `$` exactly when it is some text followed by the pattern's text, and that text is unique |
| Text.Join | server/app.js:142 | the joined keys start with the first key, and their length is the keys' lengths plus one separator per gap |
| Text.AsciiUpper | server/app.js:42 | the reference upper-casing used to state the labels keeps the length of the key |
| Codecs.Label | server/app.js:35-119 | the stats label is the table key in capitals: GZIP, DEFLATE, BROTLI |
| Codecs.ParseAlgorithm | server/app.js:35-119 | an own-key lookup in the table succeeds exactly for gzip, deflate and brotli, and finds the entry with that key |
| Codecs.KeysAreExactlyTheAlgorithms | server/app.js:35-119 | every algorithm's key is in the table and looks up to that algorithm, and every table key looks up to some algorithm |
| Codecs.RunCompress | server/app.js:35-119 | the output is the codec's output; the stats carry the upper-case label, originalSize as the input length and compressedSize as the output length |
| Codecs.RunDecompress | server/app.js:35-119 | succeeds exactly when the codec does, and otherwise rejects with the codec's message; on success the stats carry the label, compressedSize as the input length and decompressedSize as the output length |
| Naming.ReplaceDisallowed | server/app.js:29 | the replace is one-for-one: same length; each character is kept if in `[a-zA-Z0-9.-]`, otherwise it becomes `_` |
| Naming.SanitizeUploadName | server/app.js:29 | the sanitised name has length min(30, original length) and only `[A-Za-z0-9._-]` characters; kept characters are unchanged and the others are `_` |
| Naming.SanitizeUploadNameIdempotent | server/app.js:29 | sanitising a sanitised name changes nothing |
| Naming.UploadKey | server/app.js:30 | the storage key `timestamp_sanitised` contains only `[A-Za-z0-9._-]` and never a `/` |
| Naming.UploadKeyCollision | server/app.js:29-30 | two uploads get the same key exactly when they have the same timestamp and the same sanitised name |
| Naming.TrimTrailingSlashes | server/app.js:146 | the result is a prefix of the path that does not end in `/`, and only slashes were removed |
| Naming.LastSegment | server/app.js:146 | the last segment is a slash-free suffix of the path, preceded by a `/` when it is not the whole path |
| Naming.BaseName | server/app.js:146 | `path.parse(...).base` contains no `/` |
| Naming.LastDot | server/app.js:146 | finds the last `.` of the base name, or reports that there is none |
| Naming.ParsedName | server/app.js:146 | `path.parse(...).name` contains no `/` |
| Naming.Stem | server/app.js:146 | the base name without its last extension has no `/` when the base name has none |
| Naming.StemShape | server/app.js:146 | the stem is a prefix of the base name; it is shorter exactly when the base has a dot other than a leading one and is not `..`, and then it is cut at the last dot |
| Naming.ParsedNameShape | server/app.js:146 | the parsed name is a prefix of the base name; it is shorter exactly when the base has a dot other than a leading one and is not `..`, and then it is cut at the last dot |
| Naming.BaseNameWithoutSlash | server/app.js:146 | a name without `/` is its own base name |
| Naming.LastSegmentWithoutSlash | server/app.js:146 | a name without `/` is its own last segment |
| Naming.CompressBase | server/app.js:146 | the base of a compress output name has at most 20 characters and no `/` |
| Naming.CompressBaseShape | server/app.js:146 | the base is the first min(20, length) characters of the parsed name |
| Naming.Marker | server/app.js:171-176 | the marker of an algorithm is `.` followed by its table key |
| Naming.SuffixIsCompressedThenMarker | server/app.js:147 | the literal table `CompressedSuffix` is `_compressed` followed by the marker of the algorithm's key |
| Naming.CompressedSuffixShape | server/app.js:147 | the suffix `_compressed.<key>` has length 12 + key length and a single `.`, which opens the marker; its only `_` is its first character |
| Naming.CompressOutputName | server/app.js:146-147 | the output name is the base followed by `_compressed.<key>`; it has at most 20 base characters and contains no `/` |
| Naming.CompressOutputNameCollision | server/app.js:146-149 | two compress requests stage under one name exactly when they use the same algorithm and their originals have the same truncated base, so a repeat overwrites |
| Naming.DetectAlgorithm | server/app.js:171-174 | gzip iff the name contains `.gzip`; deflate iff it contains `.deflate` but not `.gzip`; brotli iff `.brotli` and neither of the others; no algorithm iff none of the three |
| Naming.TrailingMarker | server/app.js:176 | reports a known extension that the name ends with, or that it ends with none |
| Naming.AtMostOneTrailingMarker | server/app.js:176 | a name ends with at most one of `.gzip`, `.deflate`, `.brotli` |
| Naming.StripKnownExtension | server/app.js:176 | a trailing known extension is removed, exactly once; a name without one is kept whole |
| Naming.DecompressOutputName | server/app.js:176-177 | the name ends in `_decompressed.txt`, and its base is the original minus exactly its trailing known extension, or the whole original when it has none |
| Naming.CompressAndDecompressNamesDiffer | server/app.js:147-177 | a compress output name never equals a decompress output name |
| Naming.LastCharOfCompressOutputName | server/app.js:147 | a compress output name ends with the last letter of its algorithm's key |
| Naming.LastCharOfDecompressOutputName | server/app.js:177 | a decompress output name ends with `t` |
| Naming.DecompressNameOfCompressName | server/app.js:146-177 | decompressing a compress output strips exactly the algorithm extension: `<base>_compressed_decompressed.txt` |
| Naming.CompressOutputNameSplitsAtMarker | server/app.js:146-147 | the compress output name is `<base>_compressed` followed by `.<key>` |
| Naming.StripOwnMarker | server/app.js:176 | stripping a name built as prefix plus marker gives back the prefix |
| Naming.MarkerOccursInCompressedPart | server/app.js:147-173 | a marker in a compress output name lies inside the base or is the algorithm's own extension |
| Naming.DetectCompressOutputName | server/app.js:146-173 | detection recovers the algorithm of a compress output, unless the base already holds a marker that detection tries first |
| Naming.OwnMarkerInCompressOutput | server/app.js:146-173 | a compress output name contains its own algorithm's marker |
| Naming.NoOutrankingMarkerInCompressOutput | server/app.js:146-173 | when the base holds no marker ranked before the algorithm's, neither does the compress output name |
| Naming.DetectByRank | server/app.js:171-174 | detection returns the algorithm whose marker occurs when no marker ranked before it occurs |
| Naming.GzipInBaseWinsDetection | server/app.js:146-171 | when the truncated base contains `.gzip`, every compress output of the file is detected as gzip |
| Naming.DetectionMissesAlgorithmOfCompressOutput | server/app.js:146-172 | the deflate output of `f.gzip.txt` is detected as gzip |
| Naming.ParsedNameOfGzipTxt | server/app.js:146 | `path.parse("f.gzip.txt").name` is `f.gzip` |
| Lifecycle.ApplyAll | server/app.js:149-150 | effects applied in order that touch only `uploads` leave `processed` unchanged, and those that touch only `processed` leave `uploads` unchanged |
| Lifecycle.ApplyAllConcat | server/app.js:149-150 | applying two runs of effects one after the other is applying their concatenation |
| Lifecycle.Apply | server/app.js:149-150 | a write or unlink in one directory leaves the other directory unchanged |
| Lifecycle.Status | server/app.js:195-221 | the failure status is 404 exactly for a missing download, and 500 for every other failure |
| Lifecycle.AvailableListing | server/app.js:142 | the table keys joined with `, ` are `gzip, deflate, brotli` |
| Lifecycle.Message | server/app.js:139-203 | the invalid-algorithm text is `Invalid algorithm: <key>. Available: gzip, deflate, brotli`; the not-found text ends with the name asked for; a codec failure carries the codec's own message |
| Lifecycle.RequestedKey | server/app.js:140 | an absent `algorithm` field defaults to `gzip`, which the table accepts; a present field is taken as given |
| Lifecycle.ReceiveUpload | server/app.js:26-33 | with no file part there is no upload and no effect; otherwise the part is written to `uploads` under the upload key of the current time and its name |
| Lifecycle.ChooseAlgorithm | server/app.js:140-143 | an absent field selects gzip; a key is accepted exactly when it is in the table, and is otherwise rejected with that key |
| Lifecycle.ChooseAlgorithmAsWritten | server/app.js:141-145 | as written, a key is accepted as the table does; an inherited member name passes the check and then fails with "is not a function" |
| Lifecycle.InheritedMemberEscapesValidation | server/app.js:141-145 | for `constructor`, the error as written differs from the invalid-algorithm error that lists the keys |
| Lifecycle.CompressStep | server/app.js:137-163 | missing file, then invalid algorithm, then unreadable upload are the error exits, each without effects; success happens exactly otherwise and writes the codec output under the compress name, then unlinks the upload; the stats hold the label and sizes |
| Lifecycle.DecompressStep | server/app.js:165-193 | missing file, unreadable upload, undetectable algorithm and codec failure, in that order, are the error exits, each without effects; success writes the decompressed output under the decompress name, then unlinks the upload |
| Lifecycle.DownloadStep | server/app.js:195-221 | a missing or empty name fails with "Filename required"; a name not in `processed`, looked up verbatim, fails with "File not found"; otherwise the file's bytes are served and, once delivered, the file is unlinked |
| Lifecycle.TransformEffectsOnStores | server/app.js:149-150 | write-then-unlink sets the output in `processed`, removes the upload, and changes nothing else |
| Lifecycle.CompressOutcome | server/app.js:148-161 | after a compress request, a failure leaves both directories as they were; a success adds exactly the output and removes exactly the upload |
| Lifecycle.DecompressOutcome | server/app.js:178-191 | the same for a decompress request |
| Lifecycle.FailedCompressKeepsUpload | server/app.js:137-163 | after multer and a failed compress handler, the upload is still stored with the bytes sent, and the failure was an invalid algorithm |
| Lifecycle.FailedDecompressKeepsUpload | server/app.js:165-193 | after multer and a failed decompress handler, the upload is still stored, and the failure was detection or the codec |
| Lifecycle.RepeatedCompressOverwrites | server/app.js:146-150 | two compress requests for one name and algorithm both succeed under the same name: the second output replaces the first, no new name is added, and both uploads are removed |
| Lifecycle.RestagingOverwrites | server/app.js:149-150 | two stagings under one name leave the second output and remove both uploads |
| Lifecycle.CompressSucceeds | server/app.js:144-150 | with a stored upload and a valid key, compress succeeds, and afterwards the directories are exactly the old ones with the output added and the upload removed |
| Lifecycle.DownloadIsSingleUse | server/app.js:206-212 | a delivered download removes exactly that file, and asking for it again gives "File not found" |
| Lifecycle.UndeliveredDownloadKeepsFile | server/app.js:206-207 | a transfer that did not complete changes nothing |
| Lifecycle.CompressThenDownloadTwice | server/app.js:146-212 | the name a compress request replies with ends in `_compressed.<key>`; downloading it serves the compressed bytes, and a second download gives "File not found" |
| Lifecycle.StagedFileDownloadsOnce | server/app.js:197-212 | a staged file is served once with its contents and is then not found |
| Portal.Server.constructor | server/app.js:20-24 | the server starts on the two directories as they already are, with an empty journal |
| Portal.Server.ReadFile | server/app.js:144 | reading gives a file's contents exactly when it exists |
| Portal.Server.WriteFile | server/app.js:149 | a write sets one entry of one directory and appends itself to the journal |
| Portal.Server.UnlinkFile | server/app.js:150 | an unlink removes one entry of one directory and appends itself to the journal |
| Portal.Server.Receive | server/app.js:26-33 | multer's upload agrees with `ReceiveUpload`: it stores the part under its upload key and leaves `processed` alone |
| Portal.Server.Stage | server/app.js:149-150 | the output is written first, then the upload is unlinked, and nothing else changes |
| Portal.Server.Compress | server/app.js:137-163 | the handler's reply, new directories and journal are those of `CompressStep`; a failure changes nothing, and a success adds the output and removes the upload |
| Portal.Server.Decompress | server/app.js:165-193 | the handler's reply, new directories and journal are those of `DecompressStep`; a failure changes nothing, and a success adds the output and removes the upload |
| Portal.Server.Download | server/app.js:195-221 | the handler agrees with `DownloadStep`: `uploads` never changes, and `processed` loses the file exactly when it was served and delivered |
| Portal.Server.PostCompress | server/app.js:137-163 | the upload, then the handler; on failure the upload remains with the bytes sent and `processed` is unchanged |
| Portal.Server.PostDecompress | server/app.js:165-193 | the same for decompress; the only failures left after the upload are detection and the codec |

Helper lemmas, which the rows above rely on and which need no row of their
own: `Naming.LastCharOfKey`, `Naming.FirstCharOfKey`, `Naming.LastCharOfSuffix`,
`Naming.MarkerShape`, `Naming.OccursAtChar`, `Naming.OccursInPrefix`,
`Naming.OccursInSuffix` and `Naming.MarkerEndsSuffix`.

## Left out

- The zlib gzip, deflate and brotli routines, with their level and quality settings, are uninterpreted. So no round trip or compressed size is claimed.
- Compression is modelled as total; a failure of the compressor itself is not modelled.
- The `ratio` and `savings` stats are not modelled. They are floating-point divisions formatted with `toFixed`.
- Express, cors and multer wiring is not modelled: routing, JSON bodies, `res.download` streaming, the `/` and `/api/health` endpoints, `app.listen`, logging and creating the directories at startup.
- `Date.now()` is a parameter `now`. Its numeral is written as for integers; time values of 10^21 and above, which JavaScript writes in exponent form, are not modelled.
- The 2000 ms delay before a delivered file is deleted is not modelled. The deletion happens as soon as delivery succeeds, so a request that interleaves with the delay is not covered.
- Files are maps from names to bytes. `path.join` normalisation is not modelled, and names containing `/` or `..` do not reach other directories. In the source, a download name or a decompress name such as `../x.gzip` could escape `processed`; a compress output name never holds a `/`.
- Naming.ParsedName: the POSIX root prefix quirk of Node's `path.parse` is not modelled; for a path such as `/..`, Node reports `.` as the name.
- Strings are sequences of characters rather than UTF-16 code units. So `substring(0, 30)` and `substring(0, 20)` do not split surrogate pairs here as they can in JavaScript.
- Naming.SanitizeUploadName: the replace at server/app.js:29 has no `u` flag, so JavaScript turns a character outside the Basic Multilingual Plane into `__` (one per code unit) where the model writes one `_`; the length min(30, length) is then counted in different units for such names.
- A query parameter `file` or a body field `algorithm` that is not a single string (an array, say) is not modelled.
- Lifecycle.Message: the unreadable-upload text names only the key; Node's message carries the full path under `uploads`.
- Lifecycle.CompressStep: this step, `Portal.Server.Compress`, `Portal.Server.PostCompress` and `Lifecycle.FailedCompressKeepsUpload` apply the corrected key check `Lifecycle.ChooseAlgorithm`. For an inherited member name such as `constructor` they reply with the invalid-algorithm error, where the source reads the upload and then fails with "algorithms[algorithm].compress is not a function"; the source's behaviour is modelled by `Lifecycle.ChooseAlgorithmAsWritten` (see Findings).
- Write and unlink failures (permissions, full disk) are not modelled. Neither is multer's own failure to store a part.
- Concurrency between requests is not modelled; each request runs to completion before the next.

## Findings

| source | as written | input that shows it | evidently intended | confidence | as-written member | corrected member |
|---|---|---|---|---|---|---|
| server/app.js:141 | `!algorithms[algorithm]` also accepts names the table object inherits from `Object.prototype`, so the request goes on to call `algorithms[algorithm].compress` and fails with "algorithms[algorithm].compress is not a function" | a compress request with `algorithm=constructor` (likewise `toString`, `__proto__`, `hasOwnProperty`) | reject every key outside gzip, deflate, brotli with "Invalid algorithm: constructor. Available: gzip, deflate, brotli" | not executed | Lifecycle.InheritedMemberEscapesValidation | Lifecycle.ChooseAlgorithm |
