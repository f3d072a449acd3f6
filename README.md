# StarTimes video download pipeline, modelled in Dafny

This project models the core of `StarTimes-Video-Download-Tool-inti.py`. That core is the pipeline that turns
an HLS playlist into one `combined.mp4`:

- **`download_m3u8`**, parsing half: computes the base URL and finds the inline `STAR-INIT-DATA`. The
  `#EXT-X-MAP:` attribute comes first, then the legacy `#EXT-STAR-INIT-DATA:` line. It also scans the segment
  list with `re.finditer`.
- **`decrypt_string`**: applies the character filter, strict Base64 decoding (`b64decode(validate=True)`) and
  zlib decompression with a fallback over window settings. `DecryptString` is the code as written, and
  `save_init_mp4_from_base64` is modelled on it. `DecryptCorrected` is the same pipeline with the fallback the
  design evidently intends (see "## Findings").
- **`Downloader.download_segment` and `download_segments`**: per-segment retries; complete files from an earlier
  run (larger than 1024 bytes) are skipped; the thread pool runs the tasks; the files present at the end are
  collected.
- **`save_init_mp4_from_base64`, `generate_file_list` and `combine_files_python`**: write `init.mp4`, write
  `input.txt` (segments sorted by the numeric key of their names) and concatenate the listed files.

Modules, one file each:

| Module | What it models |
|---|---|
| `Wrappers`, `Bytes` | Option and Result types; bytes |
| `PyText` | `str.isspace`, `\s` and `strip` |
| `Base64` | the filter; CPython's strict `a2b_base64` state machine; an RFC 4648 section 4 encoder as its partner |
| `InitPayload` | `decrypt_string` |
| `Manifest` | the playlist parse |
| `SegmentNames` | `f"{idx:06d}.m4s"` and `numeric_key` |
| `StableSort` | `list.sort(key=...)` |
| `Storage` | the script directory, as a `Disk` object |
| `Download` | the download stage |
| `Assembly` | the three steps after the download |

How the model stands in for things it cannot run:

- **Network:** the response to the GET of segment `idx` on attempt `a` is a parameter, `fetch(idx, a)`. It is
  one of three outcomes: no response, a body cut off after some chunks, or a complete body.
- **zlib:** `inflate(wbits, data)` stands for `zlib.decompress(data, wbits=wbits)`.
- **URL library calls:** `urlparse` is represented by its output. `urljoin` is a parameter.
- **Glob:** the glob's result is a listing whose order is left open.
- **Thread pool:** the pool is a `schedule`, any order in which the submitted tasks happen to run. The proofs
  hold for every schedule.

The main results:

- **Init data:**
  - Strict Base64 decoding accepts exactly the canonically padded texts and never truncates.
  - It inverts the encoder, even with foreign characters before the text, after it and at any one point inside
    it, because the filter removes them (`NoisyEncoding`).
- **Regular expressions:** each regex model returns exactly the match Python's engine picks (`SearchMapIsLeftmostMatch`,
  `ExtinfAtComplete`). The `finditer` scan misses no match (`ScanFindsEveryMatch`).
- **Segment names:**
  - Every segment file name reads back, through `numeric_key`, as its index (`NumericKeyOfSegment`).
  - The sort is ordered, is a permutation of its input and is stable; under that key it restores download order
    (`SortRestoresOrder`).
- **Downloads:**
  - Whatever the schedule, each segment file ends as `TaskFile` says.
  - No other file changes.
  - The counters equal the number of tasks and the number of failed submitted tasks (`DownloadSegments`).
  - A rerun with the same responses changes nothing (`RerunChangesNothing`). A file of at most 1024 bytes is
    fetched again, so with different responses it may change.
- **Assembly:**
  - `input.txt` reads back as the list that was written (`ListRoundTrip`).
  - When the download directory holds exactly the segment files, the combined output is `init.mp4` followed by
    every segment in index order (`CombinedInDownloadOrder`).

Where the code and the design description of the program disagree, the model follows the code:

- `combine_files_python` skips when `combined.mp4` exists, even when it is empty.
- A failed segment increments both `completed` and `failed`.
- A segment is only found on the line after an `#EXTINF:<duration>,` line, and only when its name ends in `.m4s`.
- There is no DRM key-identifier extraction in the code.

## Model

| member | source | states |
|---|---|---|
| PyText.StripFramed | StarTimes-Video-Download-Tool-inti.py:155 | `strip()` removes exactly the whitespace framing a text: whitespace, then a text with non-space ends, then whitespace, strips to that text |
| PyText.StripBlank | StarTimes-Video-Download-Tool-inti.py:369 | a line strips to the empty string if and only if it is all whitespace, which is exactly when `if line.strip()` drops it |
| PyText.StripNoSpace | StarTimes-Video-Download-Tool-inti.py:369 | a text without whitespace is left unchanged by `strip()` |
| PyText.Strip | StarTimes-Video-Download-Tool-inti.py:155 | `str.strip()`: never longer than its input, and a non-empty result has no whitespace at either end; `StripFramed`, `StripBlank` and `StripNoSpace` characterise it fully |
| Base64.Clean | StarTimes-Video-Download-Tool-inti.py:90 | the filter never lengthens the text and leaves only characters of `[A-Za-z0-9+/=]` |
| Base64.CleanAppend | StarTimes-Video-Download-Tool-inti.py:90 | the filter distributes over concatenation: it works character by character and keeps order |
| Base64.CleanKeepsValid | StarTimes-Video-Download-Tool-inti.py:90 | text made only of alphabet characters and `=` passes the filter unchanged |
| Base64.Value | StarTimes-Video-Download-Tool-inti.py:94 | every alphabet character has a 6-bit value |
| Base64.Digit | StarTimes-Video-Download-Tool-inti.py:94 | the encoder's character for a 6-bit value is in the alphabet and decodes back to that value |
| Base64.EncodeShape | StarTimes-Video-Download-Tool-inti.py:94 | an encoding consists of alphabet characters and `=`, comes in whole quads and never starts with padding |
| Base64.DecodeFirstTwo | StarTimes-Video-Download-Tool-inti.py:94 | the first two characters of a group make the decoder emit the group's first byte |
| Base64.DecodeLastTwo | StarTimes-Video-Download-Tool-inti.py:94 | the last two characters of a group emit its second and third bytes and return the decoder to a quad boundary |
| Base64.DecodeQuad | StarTimes-Video-Download-Tool-inti.py:94 | a full quad makes the strict decoder append exactly the three bytes it encodes |
| Base64.DecodeTailOne | StarTimes-Video-Download-Tool-inti.py:94 | a final `XY==` group decodes to its one byte, and decoding succeeds |
| Base64.DecodeTailTwo | StarTimes-Video-Download-Tool-inti.py:94 | a final `XYZ=` group decodes to its two bytes, and decoding succeeds |
| Base64.A2BEncode | StarTimes-Video-Download-Tool-inti.py:94 | the decoder run on an encoding appends exactly the encoded bytes to what it already produced |
| Base64.RoundTrip | StarTimes-Video-Download-Tool-inti.py:94 | `b64decode(b64encode(b), validate=True) == b` for every byte string |
| Base64.CleanThenDecode | StarTimes-Video-Download-Tool-inti.py:90-94 | filtering and then decoding an encoding returns the encoded bytes |
| Base64.Step | StarTimes-Video-Download-Tool-inti.py:94 | one data character keeps the decoder state valid, advances the quad position and emits a byte unless it starts a quad |
| Base64.Feed | StarTimes-Video-Download-Tool-inti.py:94 | after a run of data characters the quad position and the number of bytes produced are fixed by the run's length |
| Base64.A2BData | StarTimes-Video-Download-Tool-inti.py:94 | decoding a run of data characters followed by anything continues from the state that run leaves |
| Base64.PadAfterOne | StarTimes-Video-Download-Tool-inti.py:94 | once `=` appears after a single data character of a quad, no continuation decodes |
| Base64.DecodeOkIff | StarTimes-Video-Download-Tool-inti.py:93-96 | strict decoding succeeds if and only if the text is canonically padded; it then yields `3k/4` bytes for `k` data characters, so nothing is truncated |
| Base64.BadPaddingRejected | StarTimes-Video-Download-Tool-inti.py:93-96 | text of bad length or padding raises instead of decoding in part |
| Base64.WellPadded | StarTimes-Video-Download-Tool-inti.py:93-96 | the canonical form: the data characters come in whole quads, or end with a quad of two data characters and `==` or three data characters and `=`, and nothing follows; an independent definition that `DecodeOkIff` relates to the decoder |
| Base64.A2B | StarTimes-Video-Download-Tool-inti.py:94 | the `a2b_base64` loop in strict mode, one character at a time; `Step`, `Feed`, `A2BData`, `PadAfterOne` and `A2BEncode` state what it does with data, padding and encodings |
| Base64.StrictDecode | StarTimes-Video-Download-Tool-inti.py:93-96 | `b64decode(clean_string, validate=True)`: rejects leading padding and runs `A2B`; `DecodeOkIff` says it succeeds exactly on `WellPadded` text with `3k/4` bytes, and `RoundTrip` says it inverts `Encode` |
| InitPayload.FirstMode | StarTimes-Video-Download-Tool-inti.py:99-109 | the fallback stops at the first window setting that decompresses, and every earlier one failed; with none, all failed |
| InitPayload.TryModes | StarTimes-Video-Download-Tool-inti.py:99-109 | tries the settings in order: a result is what the first setting that works produces, every earlier one having failed; nothing is returned exactly when every setting fails |
| InitPayload.DecompressAsWritten | StarTimes-Video-Download-Tool-inti.py:98-109 | the source's fallback: default, then `MAX_WBITS`, then gzip; `AsWrittenRetryIsRedundant` shows it amounts to zlib then gzip, and `AsWrittenRejectsRawDeflate` that it rejects raw DEFLATE |
| InitPayload.Decompress | StarTimes-Video-Download-Tool-inti.py:98-109 | the intended fallback: zlib, then raw, then gzip; `DecompressAnyFraming` and `DecompressExtendsAsWritten` state what it accepts |
| InitPayload.AsWrittenRetryIsRedundant | StarTimes-Video-Download-Tool-inti.py:100-105 | because the default is `MAX_WBITS`, the source's fallback amounts to two framings only: zlib, then gzip |
| InitPayload.AsWrittenRejectsRawDeflate | StarTimes-Video-Download-Tool-inti.py:99-109 | a raw DEFLATE stream is rejected by the code as written, while the intended fallback decompresses it |
| InitPayload.DecompressAnyFraming | StarTimes-Video-Download-Tool-inti.py:99-109 | the intended fallback succeeds whenever any of zlib, raw or gzip framing works, with the earliest one that works |
| InitPayload.DecompressExtendsAsWritten | StarTimes-Video-Download-Tool-inti.py:99-109 | the corrected fallback decompresses everything the source does; when the raw framing fails, both give the same result |
| InitPayload.DecryptWith | StarTimes-Video-Download-Tool-inti.py:87-109 | raises a Base64 error exactly when the filtered text is not canonically padded; a result is what the FIRST window setting that works decompresses the decoded bytes to, and every earlier setting failed; it raises "Decompression failed" exactly when the bytes decode and every setting fails |
| InitPayload.DecryptString | StarTimes-Video-Download-Tool-inti.py:87-109 | `decrypt_string` as written, `DecryptWith` over the source's fallback; `DecryptDecompresses`, `DecryptEncoded` and `DecryptRejectsRawPayload` characterise it |
| InitPayload.DecryptCorrected | StarTimes-Video-Download-Tool-inti.py:87-109 | `decrypt_string` with the intended fallback; `DecryptDecompresses` ties it to `Decompress`, and `DecryptRejectsRawPayload` shows where it differs from the code |
| InitPayload.DecryptDecompresses | StarTimes-Video-Download-Tool-inti.py:98-109 | once the text decodes, `decrypt_string` as written succeeds exactly when the source's fallback of the default, then `MAX_WBITS`, then gzip does, with its bytes; the corrected pipeline likewise with the intended fallback |
| InitPayload.DecryptRejectsRawPayload | StarTimes-Video-Download-Tool-inti.py:87-109 | the Base64 text of a raw DEFLATE stream makes `decrypt_string` as written raise "Decompression failed", while the corrected pipeline returns the inflated bytes |
| InitPayload.RawEmptyStreamText | StarTimes-Video-Download-Tool-inti.py:93-94 | the Base64 text of the empty raw DEFLATE stream `03 00` is `AwA=` |
| InitPayload.DecryptEncoded | StarTimes-Video-Download-Tool-inti.py:87-109 | the Base64 text of a zlib stream, with any foreign characters before it, after it and at any one point inside it, yields what zlib decompresses it to |
| InitPayload.NoisyEncoding | StarTimes-Video-Download-Tool-inti.py:90-94 | removing foreign characters before, after and at any one point inside an encoding leaves the encoding, so it decodes to the encoded bytes |
| InitPayload.CleanNoise | StarTimes-Video-Download-Tool-inti.py:90 | the filter drops foreign text at the ends of a string and between two of its parts, and keeps the rest |
| InitPayload.NoiseVanishes | StarTimes-Video-Download-Tool-inti.py:90 | text made only of foreign characters filters to nothing |
| Manifest.RStripSlashes | StarTimes-Video-Download-Tool-inti.py:133 | `rstrip('/')` returns a prefix without a trailing slash, and only slashes were removed |
| Manifest.Dirname | StarTimes-Video-Download-Tool-inti.py:133 | `posixpath.dirname`: a prefix of the path that ends in no slash unless it is all slashes |
| Manifest.BaseUrl | StarTimes-Video-Download-Tool-inti.py:132-136 | the base URL always ends in a slash and starts with `scheme://netloc` |
| Manifest.BaseUrlIsDirectory | StarTimes-Video-Download-Tool-inti.py:132-136 | for a playlist path `dir/file` the base URL is `scheme://netloc` + `dir/` |
| Manifest.BaseUrlAtRoot | StarTimes-Video-Download-Tool-inti.py:132-136 | for a playlist at the host's root the base URL ends in `//` |
| Manifest.CloseQuote | StarTimes-Video-Download-Tool-inti.py:147 | the lazy `(.*?)"` stops at a quote at or after its start |
| Manifest.CloseQuoteIsFirst | StarTimes-Video-Download-Tool-inti.py:147 | no quote and no newline comes before the closing quote found |
| Manifest.CloseQuoteFinds | StarTimes-Video-Download-Tool-inti.py:147 | a quote preceded on its line by no other quote is the one found |
| Manifest.AttrFrom | StarTimes-Video-Download-Tool-inti.py:147 | the attribute found starts with `STAR-INIT-DATA="` and its value is closed by a quote |
| Manifest.AttrFromIsFirst | StarTimes-Video-Download-Tool-inti.py:147 | the attribute found is on the current line, and no earlier position on that line starts a closed attribute |
| Manifest.AttrFromFinds | StarTimes-Video-Download-Tool-inti.py:147 | any closed attribute later on the same line means an attribute is found no later than it |
| Manifest.SearchMap | StarTimes-Video-Download-Tool-inti.py:147 | `re.search` returns a position at or after the start where the `#EXT-X-MAP:` pattern matches |
| Manifest.MapMatchAt | StarTimes-Video-Download-Tool-inti.py:147 | the `#EXT-X-MAP:.*?STAR-INIT-DATA="(.*?)"` pattern tried at one position; `MapMatchAtSound` and `MapMatchAtComplete` say it finds a match exactly where the pattern matches, with the earliest attribute |
| Manifest.SearchMapSkips | StarTimes-Video-Download-Tool-inti.py:147 | no position before the one returned matches |
| Manifest.SearchMapExhausts | StarTimes-Video-Download-Tool-inti.py:147 | when nothing is returned, no position matches |
| Manifest.MapMatchAtComplete | StarTimes-Video-Download-Tool-inti.py:147 | wherever the pattern can match, the matcher succeeds, with an attribute no later than that match's |
| Manifest.MapMatchAtSound | StarTimes-Video-Download-Tool-inti.py:147 | what the matcher returns is a match of the pattern: one line, a quote-free captured value |
| Manifest.SearchMapIsLeftmostMatch | StarTimes-Video-Download-Tool-inti.py:147-148 | the search succeeds if and only if the pattern matches somewhere; it returns the leftmost match, with the first attribute the lazy `.*?` reaches |
| Manifest.LeftmostMatchFound | StarTimes-Video-Download-Tool-inti.py:147 | a successful search returns a match that no earlier start and no earlier attribute beats |
| Manifest.NoMatchWhenNotFound | StarTimes-Video-Download-Tool-inti.py:147-148 | a failed search means the pattern matches nowhere |
| Manifest.FoundNoLater | StarTimes-Video-Download-Tool-inti.py:147 | any match bounds the one found: the found one starts no later, and with the same start its attribute is no later |
| Manifest.FindLiteral | StarTimes-Video-Download-Tool-inti.py:153 | finds the first occurrence of `#EXT-STAR-INIT-DATA:`, and only when there is one |
| Manifest.LineEnd | StarTimes-Video-Download-Tool-inti.py:153 | the greedy `.*` runs to the next newline or the end of the text |
| Manifest.LegacyValue | StarTimes-Video-Download-Tool-inti.py:152-153 | `re.search(r'#EXT-STAR-INIT-DATA:(.*)')`: found exactly when the tag occurs, and the captured value has no newline |
| Manifest.SelectInitData | StarTimes-Video-Download-Tool-inti.py:147-158 | the choice of `base64_data`; `InitDataPrefersMap`, `InitDataFallsBackToLegacy` and `InitDataMissing` state its three cases |
| Manifest.InitDataPrefersMap | StarTimes-Video-Download-Tool-inti.py:147-150 | a `STAR-INIT-DATA` attribute on an `#EXT-X-MAP:` line is used, as the text of the leftmost match's value, whatever legacy lines say |
| Manifest.InitDataFallsBackToLegacy | StarTimes-Video-Download-Tool-inti.py:152-156 | without such an attribute, the rest of the first legacy line is used, stripped |
| Manifest.InitDataMissing | StarTimes-Video-Download-Tool-inti.py:147-158 | there is no init data if and only if neither pattern matches anywhere (the `star_init_data_not_found` error) |
| Manifest.DurationEnd | StarTimes-Video-Download-Tool-inti.py:163 | `[\d\.]+` runs greedily over digits and dots |
| Manifest.SpaceEnd | StarTimes-Video-Download-Tool-inti.py:163 | `\s*` runs greedily over whitespace |
| Manifest.TokenEnd | StarTimes-Video-Download-Tool-inti.py:163 | `[^\s#]+` runs greedily over characters that are neither whitespace nor `#` |
| Manifest.LastNewline | StarTimes-Video-Download-Tool-inti.py:163 | backtracking `\s*` gives back just enough to reach the last newline of the whitespace run |
| Manifest.LastM4sEnd | StarTimes-Video-Download-Tool-inti.py:163 | backtracking the name gives back just enough to end at the last `.m4s` |
| Manifest.ExtinfAt | StarTimes-Video-Download-Tool-inti.py:163 | a match found at a position satisfies the `#EXTINF` pattern there |
| Manifest.ExtinfAtComplete | StarTimes-Video-Download-Tool-inti.py:163 | wherever the pattern matches, the matcher succeeds with the same comma and newline and the longest name |
| Manifest.ExtinfHasNoInnerHash | StarTimes-Video-Download-Tool-inti.py:163-165 | inside a match only its first character is a `#`, so no match starts within another |
| Manifest.MatchHasNoInnerHash | StarTimes-Video-Download-Tool-inti.py:163 | the same fact, stated for any match of the pattern |
| Manifest.SkipHashFree | StarTimes-Video-Download-Tool-inti.py:163-165 | positions without a `#` start no match |
| Manifest.Scan | StarTimes-Video-Download-Tool-inti.py:163-165 | `re.finditer`: the next match at or after a position, then resume at its end; `ScanFindsEveryMatch` says it equals `AllMatches` |
| Manifest.AllMatches | StarTimes-Video-Download-Tool-inti.py:163 | the reference list of the names of the matches at every position, in order, against which `Scan` is proved |
| Manifest.ScanFindsEveryMatch | StarTimes-Video-Download-Tool-inti.py:163-170 | the `finditer` scan, resuming after each match, collects the names of the matches at every position, in playlist order |
| Manifest.ResolveAll | StarTimes-Video-Download-Tool-inti.py:165-170 | each name is kept when it starts with `http` and otherwise joined to the base URL, in order |
| Manifest.Resolve | StarTimes-Video-Download-Tool-inti.py:167-169 | a name starting with `http` is kept, any other is joined to the base URL; `ResolveAll` states it for the whole list |
| Manifest.ParseManifest | StarTimes-Video-Download-Tool-inti.py:131-176 | errors come in two kinds: no init data, or init data but no segment; on success it returns the selected init data and one URL per `#EXTINF` match, in order |
| Manifest.TokenIsSegmentName | StarTimes-Video-Download-Tool-inti.py:163-166 | every captured name ends in `.m4s` after at least one character, and has no whitespace and no `#` |
| Manifest.MatchedNameShape | StarTimes-Video-Download-Tool-inti.py:163 | the same shape, stated for any match of the pattern |
| Manifest.SegmentNamesShape | StarTimes-Video-Download-Tool-inti.py:163-170 | every name the scan collects has that shape |
| SegmentNames.ParseDecimal | StarTimes-Video-Download-Tool-inti.py:308 | `int()` reads the decimal digits of `n` back as `n` |
| SegmentNames.ParseLeadingZeros | StarTimes-Video-Download-Tool-inti.py:308 | leading zeros do not change the value `int()` reads |
| SegmentNames.AllZeros | StarTimes-Video-Download-Tool-inti.py:308 | a run of zeros reads as 0 |
| SegmentNames.ZerosShape | StarTimes-Video-Download-Tool-inti.py:220 | the zero padding has the requested length and consists of zeros |
| SegmentNames.Padded | StarTimes-Video-Download-Tool-inti.py:220 | `f"{idx:06d}"`; `PaddedValue` says it has at least six digits and reads back as `idx` |
| SegmentNames.SegmentName | StarTimes-Video-Download-Tool-inti.py:220 | `f"{idx:06d}.m4s"`; `SegmentNameShape` states its shape |
| SegmentNames.SegPath | StarTimes-Video-Download-Tool-inti.py:221 | `downloads/` plus the segment name; `SegPathInjective`, `SegPathPlain` and `NumericKeyOfSegment` state what the rest of the pipeline needs of it |
| SegmentNames.PaddedValue | StarTimes-Video-Download-Tool-inti.py:220 | `f"{idx:06d}"` has at least six digits and reads back as `idx` |
| SegmentNames.Basename | StarTimes-Video-Download-Tool-inti.py:305 | `os.path.basename` contains no slash |
| SegmentNames.DigitRunStart | StarTimes-Video-Download-Tool-inti.py:306 | finds the start of the longest digit run ending at a position |
| SegmentNames.KeyOfName | StarTimes-Video-Download-Tool-inti.py:306-309 | the regular expression `(\d+)\.m4s$` read as an integer: never below -1, and non-negative only for a name ending in `.m4s` or `.m4s` plus one newline; `KeyReadsDigits`, `KeyWithoutDigits` and `KeyWithoutSuffix` give its value |
| SegmentNames.NumericKey | StarTimes-Video-Download-Tool-inti.py:303-309 | `numeric_key`: `KeyOfName` of the base name; `NumericKeyOfSegment` says a segment file keys to its index |
| SegmentNames.BasenameAfterSlash | StarTimes-Video-Download-Tool-inti.py:305 | the base name of `dir/name` is `name` when `name` has no slash |
| SegmentNames.KeyReadsDigits | StarTimes-Video-Download-Tool-inti.py:303-309 | a name of the form non-digit, digits, `.m4s` has the value of those digits as its key |
| SegmentNames.KeyWithoutDigits | StarTimes-Video-Download-Tool-inti.py:306-309 | a name with no digit right before `.m4s` has key -1 |
| SegmentNames.KeyWithoutSuffix | StarTimes-Video-Download-Tool-inti.py:306-309 | a name that ends neither in `.m4s` nor in `.m4s` plus one newline has key -1 |
| SegmentNames.KeyOfDigits | StarTimes-Video-Download-Tool-inti.py:303-309 | `digits.m4s` has the value of its digits as key |
| SegmentNames.NumericKeyOfSegment | StarTimes-Video-Download-Tool-inti.py:303-309 | the key of the file of segment `idx`, as named at line 220, is `idx` |
| SegmentNames.SegPathInjective | StarTimes-Video-Download-Tool-inti.py:220-221 | different segments get different files |
| SegmentNames.SegmentNameShape | StarTimes-Video-Download-Tool-inti.py:220 | a segment's name has at least six digits, ends in `.m4s`, is not hidden and has no slash |
| SegmentNames.SegPathPlain | StarTimes-Video-Download-Tool-inti.py:220-221 | a segment's path has no whitespace and no `#` |
| StableSort.InsertPos | StarTimes-Video-Download-Tool-inti.py:311 | the insertion point comes after every element whose key is not larger and before the first one whose key is larger |
| StableSort.Insert | StarTimes-Video-Download-Tool-inti.py:311 | puts an element at `InsertPos`; `InsertPermutes`, `InsertSorted` and `WithKeyInsert` state its meaning |
| StableSort.SortByKey | StarTimes-Video-Download-Tool-inti.py:311 | `list.sort(key=...)` as an insertion sort; `SortSorts`, `SortPermutes`, `SortIsStable` and `SortedPermutationUnique` state what it returns |
| StableSort.InsertPermutes | StarTimes-Video-Download-Tool-inti.py:311 | an insertion adds exactly the inserted element |
| StableSort.InsertSorted | StarTimes-Video-Download-Tool-inti.py:311 | insertion keeps a sequence ordered by key |
| StableSort.SortSorts | StarTimes-Video-Download-Tool-inti.py:311 | the sorted list is ordered by key |
| StableSort.SortPermutes | StarTimes-Video-Download-Tool-inti.py:311 | the sorted list is a permutation of the input |
| StableSort.WithKeyAppend | StarTimes-Video-Download-Tool-inti.py:311 | the elements with a given key are taken from each part of a concatenation, in order |
| StableSort.WithKeyNone | StarTimes-Video-Download-Tool-inti.py:311 | a sequence without an element of that key contributes none |
| StableSort.WithKeyInsert | StarTimes-Video-Download-Tool-inti.py:311 | inserting into a sorted sequence places the new element after every element with the same key |
| StableSort.SortIsStable | StarTimes-Video-Download-Tool-inti.py:311 | stability: for every key, the sorted list has the input's elements with that key in their original order |
| StableSort.SameHead | StarTimes-Video-Download-Tool-inti.py:311 | two sorted permutations of a sequence whose keys identify its elements start with the same element |
| StableSort.SortedPermutationUnique | StarTimes-Video-Download-Tool-inti.py:311 | when keys identify elements, there is only one sorted permutation |
| Storage.Put | StarTimes-Video-Download-Tool-inti.py:59-62 | writing or removing one file changes that path only |
| Download.FirstSuccess | StarTimes-Video-Download-Tool-inti.py:54-69 | finds the first attempt in range whose response is complete and non-empty; every earlier attempt did not succeed, and when none is found, none succeeded |
| Download.SegmentFile | StarTimes-Video-Download-Tool-inti.py:52-85 | the file `download_segment` leaves: the body of the first successful allowed attempt, none after the last failure, the old file when no attempt is allowed; `DownloadSegment` is proved against it |
| Download.Skipped | StarTimes-Video-Download-Tool-inti.py:228-229 | a file from an earlier run is kept when it exists and holds more than 1024 bytes |
| Download.TaskFile | StarTimes-Video-Download-Tool-inti.py:226-238 | a task's final file: the old one when it is kept, otherwise `SegmentFile`; `TaskFilePresentIff` and `RerunChangesNothing` characterise it |
| Download.OnlyAllowedAttemptsMatter | StarTimes-Video-Download-Tool-inti.py:54 | the file and the failure depend only on the `max_retries + 1` attempts `range` allows |
| Download.SameFirstSuccess | StarTimes-Video-Download-Tool-inti.py:54 | responses that agree on the attempts in range give the same first success |
| Download.RerunChangesNothing | StarTimes-Video-Download-Tool-inti.py:228-232 | running the download again with the same responses leaves every segment file as it is |
| Download.TaskFilePresentIff | StarTimes-Video-Download-Tool-inti.py:226-256 | with at least one attempt, a segment ends with a non-empty file if and only if it was kept or an allowed attempt succeeded; a new file is the body of a successful attempt |
| Download.Downloader.constructor | StarTimes-Video-Download-Tool-inti.py:19-24 | all three counters start at zero |
| Download.Downloader.DownloadSegment | StarTimes-Video-Download-Tool-inti.py:52-85 | returns true exactly when an allowed attempt succeeds; the file is then the first successful body; after the last failure it is removed; with no attempts it is untouched; nothing else changes; `completed` goes up once whenever an attempt is allowed, and `failed` goes up once on failure |
| Download.SegPathIsTaskPath | StarTimes-Video-Download-Tool-inti.py:219-222 | the file of each of the first `n` segments is one of the task paths |
| Download.PresentIndices | StarTimes-Video-Download-Tool-inti.py:250-254 | exactly the indices whose file exists and is non-empty, increasing |
| Download.SubmitFlagsMeaning | StarTimes-Video-Download-Tool-inti.py:227-232 | a segment is submitted if and only if its file is not larger than 1024 bytes |
| Download.CheckExisting | StarTimes-Video-Download-Tool-inti.py:226-232 | submits exactly the segments not kept, and `completed` goes up by the number kept |
| Download.RunTasks | StarTimes-Video-Download-Tool-inti.py:225-245 | for any run order, every segment ends as `TaskFile` says and no other file changes; `failed` goes up by the submitted tasks that failed, and `completed` by all submitted tasks |
| Download.FilesStep | StarTimes-Video-Download-Tool-inti.py:234-237 | running one more task of the schedule gives that task's segment its final file and leaves the others alone |
| Download.RunOne | StarTimes-Video-Download-Tool-inti.py:234-237 | one task touches only its own segment file, and only when it was submitted |
| Download.CollectDownloaded | StarTimes-Video-Download-Tool-inti.py:248-256 | the returned list holds the paths of the segment files that exist and are non-empty, in index order |
| Download.DownloadSegments | StarTimes-Video-Download-Tool-inti.py:189-264 | each segment ends as `TaskFile` says; no other file changes; the returned list is the present files in index order; `completed` ends at the number of segments and `failed` at the number of submitted segments with no successful attempt, so `failed <= completed`; `total` is the number of segments |
| Download.KeptStep | StarTimes-Video-Download-Tool-inti.py:229-231 | each kept segment adds one to the kept count |
| Download.RanStep | StarTimes-Video-Download-Tool-inti.py:234-238 | each submitted task of the schedule adds one to the run count, and one to the failed count when it fails |
| Download.CountSplit | StarTimes-Video-Download-Tool-inti.py:226-238 | every segment is either kept or submitted, never both |
| Assembly.SaveInitMp4 | StarTimes-Video-Download-Tool-inti.py:266-287 | fails exactly when `decrypt_string` as written raises; an existing `init.mp4` is kept; otherwise it is written with the decoded bytes |
| Assembly.MatchesStarM4s | StarTimes-Video-Download-Tool-inti.py:296 | the glob pattern `*.m4s`: a name with no slash that ends in `.m4s` and is not hidden |
| Assembly.IsGlobListing | StarTimes-Video-Download-Tool-inti.py:296 | what `glob` returns: every file of the download directory matching `*.m4s`, each once, in an order left open; `CombinedInDownloadOrder` holds for every such order |
| Assembly.FileListNames | StarTimes-Video-Download-Tool-inti.py:311-319 | `init.mp4` followed by the listing sorted by `numeric_key`; `SortRestoresOrder` says it is download order |
| Assembly.RenderList | StarTimes-Video-Download-Tool-inti.py:327-329 | each name followed by a newline; `RenderSnoc` and `WriteLines` relate it to the writing loop |
| Assembly.RenderSnoc | StarTimes-Video-Download-Tool-inti.py:327-329 | writing one more name adds that name and a newline |
| Assembly.RelativeNames | StarTimes-Video-Download-Tool-inti.py:313-319 | the list is `init.mp4` followed by the sorted segment files |
| Assembly.WriteLines | StarTimes-Video-Download-Tool-inti.py:327-329 | the text written is one line per name, in order |
| Assembly.GenerateFileList | StarTimes-Video-Download-Tool-inti.py:289-341 | fails exactly when the glob finds nothing; an existing `input.txt` is kept; otherwise it holds `init.mp4` and the segment files sorted by numeric key, one per line |
| Assembly.Universal | StarTimes-Video-Download-Tool-inti.py:368 | text-mode reading leaves no carriage return |
| Assembly.NewlineAt | StarTimes-Video-Download-Tool-inti.py:369 | finds the end of the first line |
| Assembly.Lines | StarTimes-Video-Download-Tool-inti.py:368-369 | iterating a text file by lines; `LinesOfEntry` states how a written line splits off |
| Assembly.KeepEntries | StarTimes-Video-Download-Tool-inti.py:369 | `[line.strip() for line in ... if line.strip()]`; `EntriesAreStripped` and `KeepEntry` state what it keeps |
| Assembly.ParseList | StarTimes-Video-Download-Tool-inti.py:368-369 | reading `input.txt`; `ListRoundTrip` says it inverts writing it |
| Assembly.EntriesAreStripped | StarTimes-Video-Download-Tool-inti.py:369 | every entry read from the list is non-empty and has no surrounding whitespace |
| Assembly.StripIdempotent | StarTimes-Video-Download-Tool-inti.py:369 | stripping twice is stripping once |
| Assembly.UniversalPlain | StarTimes-Video-Download-Tool-inti.py:368 | text without carriage returns reads back unchanged |
| Assembly.LinesOfEntry | StarTimes-Video-Download-Tool-inti.py:369 | a line without a newline, then a newline, splits off as one line |
| Assembly.KeepEntry | StarTimes-Video-Download-Tool-inti.py:369 | a whitespace-free, non-empty line is kept as itself |
| Assembly.RenderedNoCR | StarTimes-Video-Download-Tool-inti.py:327-329 | the written list has no carriage return |
| Assembly.EntryHasNoNewline | StarTimes-Video-Download-Tool-inti.py:327-329 | a list entry has no newline inside it |
| Assembly.RenderedEntries | StarTimes-Video-Download-Tool-inti.py:369 | splitting and stripping the written lines gives back the names |
| Assembly.ListRoundTrip | StarTimes-Video-Download-Tool-inti.py:369 | `input.txt` as written at lines 327-329, for non-empty whitespace-free names, reads back as exactly those names |
| Assembly.AssembleAppend | StarTimes-Video-Download-Tool-inti.py:371-382 | concatenating over a split list is concatenating over each part |
| Assembly.Assemble | StarTimes-Video-Download-Tool-inti.py:371-382 | the concatenated bytes of the listed files that exist, in order; `ReadAll`, `AssembleAppend`, `SegmentsAfterInit` and `AssembleSegments` state its behaviour |
| Assembly.CombineFiles | StarTimes-Video-Download-Tool-inti.py:344-388 | fails exactly when `input.txt` is missing or empty; an existing `combined.mp4` is kept; otherwise it is the concatenation of the listed files that exist, with a listed `combined.mp4` read as empty |
| Assembly.ReadAll | StarTimes-Video-Download-Tool-inti.py:371-382 | the output is the concatenation of the listed files that exist, in list order |
| Assembly.SegPathListAt | StarTimes-Video-Download-Tool-inti.py:250-252 | entry `k` of the segment file list is the file of segment `k` |
| Assembly.InSegPathList | StarTimes-Video-Download-Tool-inti.py:303-309 | every entry of the segment file list is the file of the segment its key names |
| Assembly.SegPathListSorted | StarTimes-Video-Download-Tool-inti.py:311 | the segment files in index order are sorted by numeric key |
| Assembly.SortRestoresOrder | StarTimes-Video-Download-Tool-inti.py:311 | whatever order the glob returns the segment files in, sorting by numeric key yields index order |
| Assembly.InitIsListEntry | StarTimes-Video-Download-Tool-inti.py:315 | `init.mp4` survives the list file unchanged |
| Assembly.SegPathIsListEntry | StarTimes-Video-Download-Tool-inti.py:319 | every segment path survives the list file unchanged |
| Assembly.ListedNamesAreEntries | StarTimes-Video-Download-Tool-inti.py:313-319 | every name written for `init.mp4` and the segments survives the list file unchanged |
| Assembly.CombinedInDownloadOrder | StarTimes-Video-Download-Tool-inti.py:344-388 | given exactly the segment files in any glob order, the list read back is `init.mp4` and the segments in index order, and the output is `init.mp4` then every segment in index order |
| Assembly.SegmentsAfterInit | StarTimes-Video-Download-Tool-inti.py:367-382 | the output for that list is `init.mp4`'s bytes, then the segments' bytes |
| Assembly.AssembleSegments | StarTimes-Video-Download-Tool-inti.py:371-382 | reading the segment files with `combined.mp4` just truncated gives the segments' bytes in index order |
| Assembly.SegPathNotCombined | StarTimes-Video-Download-Tool-inti.py:359-367 | no segment file is `combined.mp4` |

## Left out

- HTTP itself is not modelled: the requests, headers, timeouts and `raise_for_status`. Each attempt's outcome
  is a parameter instead. `download_m3u8` is modelled from the playlist text on, and its
  `requests.RequestException` path (returning `None, None`) is outside the model.
- Threads, the lock, progress printing (`print_progress`), `time.sleep` between attempts and the ETA are not
  modelled. The pool is represented by an arbitrary order in which the submitted tasks run. The tasks write
  disjoint files, so only the order matters.
- zlib's algorithm is an abstract function of the window setting and the data.
- `urlparse` is represented by its output. `urljoin` is an abstract parameter.
- The glob's order is left open; whether it returns absolute paths is not modelled either. Paths are relative
  to the script directory, with `/` as separator, as `relpath(...).replace(os.sep, '/')` leaves them.
  `os.makedirs` is not modelled, nor a directory whose name ends in `.m4s`.
- Text encodings are not modelled: `response.text`, writing `input.txt` in the platform's encoding and reading
  it back as UTF-8. Windows newline translation on writing is not modelled; on reading, `\r\n` and `\r` become
  `\n`.
- Error paths outside the model:
  - the `IOError` path when a listed file cannot be read;
  - a `UnicodeDecodeError` on `input.txt`;
  - a failing `os.remove`;
  - any `OSError` when writing.
- Regular-expression `\d` is modelled as ASCII digits only. Python also matches other Unicode decimal digits.
- `input.txt` is kept apart from the binary files. A list that names `input.txt` itself reads it as missing.
- A listed `combined.mp4` is read as empty. In the source, bytes already flushed from the output buffer could
  be read back.
- `cleanup_files`, configuration, the language strings, `cookie-tool.py` and the command-line driver are outside
  the core.
- DRM key-identifier extraction is not modelled, because this version of the program has no such code.
- Base64 is modelled as CPython 3.11 and later decode it in strict mode. Earlier versions accept some texts with
  excess padding, such as `QUJD==`.
- Download.DownloadSegments: for a negative `max_retries` it does not state the final `completed` count. That
  count is then the number of kept segments.
- `os.path` is modelled as `posixpath`: `Basename` and `Dirname` split on `/` only. On Windows, which the
  tool targets (line 319), `ntpath` also splits on `\` and handles drive letters and UNC paths; this is not
  modelled. Matching is modelled as case-sensitive everywhere. On Windows, `glob('*.m4s')` ignores case and
  also lists a file named `X.M4S`, which the case-sensitive `numeric_key` regex then keys as -1.
- The corrected fallback is modelled beside the code, as `DecryptCorrected`; `Assembly.SaveInitMp4` follows
  the code as written, so a raw DEFLATE payload makes it fail as the source does.
- Download.RunTasks: for a negative `max_retries` it does not state how `completed` changes. It does not change.

## Findings

| source | as written | input that shows it | evidently intended | confidence | as-written member | corrected member |
|---|---|---|---|---|---|---|
| StarTimes-Video-Download-Tool-inti.py:103 | the first fallback setting is `zlib.MAX_WBITS`, which is the default of the call that just failed on line 100, so the fallback only tries the zlib and gzip framings | the raw DEFLATE stream `03 00` (an empty final fixed-Huffman block), hence any `STAR-INIT-DATA` that is its Base64 encoding `AwA=` (`RawEmptyStreamText`): the zlib and gzip header checks reject it, the source raises "Decompression failed" and `save_init_mp4_from_base64` returns False | a raw-stream retry, `wbits=-zlib.MAX_WBITS`. The intent comes from the program's design description, which names raw-stream and wrapped-stream variants; the code's only comment there is `# Zlib decompress` (line 98) | not executed | InitPayload.DecryptRejectsRawPayload | InitPayload.DecompressAnyFraming |
