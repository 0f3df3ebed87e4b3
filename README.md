# cc-extract: the record splitter and text extraction of extract_by_tld.py

This project models the core of `extract_by_tld.py` in Dafny. That script pulls
web captures of one top-level domain out of Common Crawl and extracts their
text. The model covers four parts, and proves properties of each.

- **The line-block reader.** `read_block` and its wrappers `read_warc_head`,
  `read_header` and `read_html` are modelled in module `Splitter`. The stream
  is a `LineStream` class: a fixed sequence of lines and a cursor. `readline`
  returns "" at the end of the file.
  - Each line is re-decoded with `encode('iso-8859-1').decode('utf-8')`.
    Module `Recoding` defines this concretely, as ISO-8859-1 encoding followed
    by strict UTF-8 decoding (Table 3-7 of the Unicode Standard).
  - Every block is specified by `ReadBlockSpec`, a function of the lines, the
    position and the arguments. Each method is proved equal to it.
- **The loop of `parse_file`.** Modules `Pipeline` and `RoundTrip` cover it.
  - Each pass reads a capture header, a transport header and a payload. The
    payload's last line is carried forward as the next capture header's first
    line.
  - The loop stops when the "WARC" check fails. It raises when the "HTTP"
    check fails.
  - Each triplet with retained text is written to the two outputs, given as
    `Sink` objects.
  - `SplitFrom` specifies the whole loop. `ReadBack` proves that a file
    serialising well-formed records is split back into exactly those records.
    Each record is given twice: as the lines the file stores and as the text
    they re-decode to. `ReadBackRecoded` applies this to the program's own
    re-decoding. Each line of text may hold any characters, and is stored
    as its UTF-8 bytes read back as ISO-8859-1 characters.
- **`xtr` and the language filter.** These are in module `Extraction`. The
  boilerplate remover (justext) and the language identifier (fasttext) are
  function-valued parameters in a `Config`.
- **Batching and naming.** Module `Batches` models how `main` cuts the file
  list into batches of `n_proc` and names the output files. Module
  `CrawlIndex` models the string handling of `get_idx_urls`, of `search_all`'s
  output file name, and of the byte range of `get_json_data`.

Details of the code that the model keeps:

- A line after the first that fails re-decoding is dropped from the block.
  The `except` branch only sets `line` to `"="`, which keeps the loop going,
  and appends nothing.
- A failed "WARC" check on the capture header ends `parse_file` normally;
  every normal return ends this way. A failed "HTTP" check on the transport
  header is not caught, and the exception escapes.
- A payload that ends at the end of the file is still extracted and
  written. Nothing checks whether the last triplet is complete.
- With no language filter, `ret_text` is the list of paragraphs as
  extracted: not split into lines, and with no "\n" appended.
- The "neither filter set" branch in the filter loop can never run, because
  the loop is only entered when a filter is set.

## Model

| member | source | states |
|---|---|---|
| Recoding.Latin1Encode | extract_by_tld.py:85 | `encode('iso-8859-1')` succeeds exactly when every character is below U+0100 and then gives one byte per character with the same code |
| Recoding.Latin1Decode | extract_by_tld.py:77 | `str(data, 'ISO-8859-1')` gives one character per byte with the same code |
| Recoding.Utf8Decode | extract_by_tld.py:85 | strict UTF-8 decoding gives at most one character per byte |
| Recoding.DecodeOnlyEncodings | extract_by_tld.py:85 | every byte string strict decoding accepts is the UTF-8 encoding of what it returns, so overlong forms, surrogates, values above U+10FFFF and stray continuation bytes all raise |
| Recoding.Utf8DecodeExactly | extract_by_tld.py:85 | strict decoding gives `s` if and only if the bytes are the UTF-8 encoding of `s` |
| Recoding.Recode | extract_by_tld.py:85 | `line.encode('iso-8859-1').decode('utf-8')` raises on every line holding a character above U+00FF, and never gives a longer line |
| Recoding.RecodeAscii | extract_by_tld.py:85 | re-decoding leaves every ASCII line unchanged (so "", "\n" and "WARC/1.0\n") |
| Recoding.Utf8RoundTrip | extract_by_tld.py:85 | strict decoding inverts UTF-8 encoding for every string |
| Recoding.Latin1RoundTrip | extract_by_tld.py:77 | ISO-8859-1 encoding inverts the ISO-8859-1 decoding of any bytes |
| Recoding.Latin1EncodeInverse | extract_by_tld.py:85 | a successful ISO-8859-1 encoding is inverted by ISO-8859-1 decoding |
| Recoding.RecodeRepairs | extract_by_tld.py:77 | any text whose UTF-8 bytes the fetch step stored as ISO-8859-1 characters is restored exactly by the reader's re-decoding at line 85 |
| Recoding.RecodeExactly | extract_by_tld.py:98 | a line re-decodes to `s` if and only if it is the stored form of `s`, so distinct stored lines give distinct text |
| Splitter.RecodeFixes | extract_by_tld.py:98 | the program's re-decoding keeps "", the blank line and the sentinel line, as every block specification requires |
| Splitter.LineStream.constructor | extract_by_tld.py:138 | an opened file starts at its first line and re-decodes lines the program's way |
| Splitter.LineStream.ReadLine | extract_by_tld.py:83 | `readline` returns the next line and advances, or returns "" at the end of the file without moving |
| Splitter.ReadBlockSpec | extract_by_tld.py:80-102 | a successful block is never empty; without a break string the call never raises; a fresh read that passes a non-empty break check consumes a line |
| Splitter.ReadBlock | extract_by_tld.py:80-102 | the result and the new position are exactly those `ReadBlockSpec` gives for the old position |
| Splitter.ReadRest | extract_by_tld.py:95-101 | the `while` loop appends exactly `RestOfBlock`'s lines and stops where it says |
| Splitter.ReadDecoded | extract_by_tld.py:96-101 | one `readline` gives the re-decoded line to go on with and to append, or "=" and nothing to append when re-decoding fails |
| Splitter.RestUnfold | extract_by_tld.py:95-101 | one turn of the loop appends the re-decoded line, if any, in front of what the following turns append |
| Splitter.ReadWarcHead | extract_by_tld.py:105-106 | the result is `read_block` with "WARC" and the blank line; a successful block starts with "WARC" |
| Splitter.ReadHeader | extract_by_tld.py:109-110 | the result is `read_block` with "HTTP" and no start; a successful block starts with "HTTP" and has consumed a line |
| Splitter.ReadHtml | extract_by_tld.py:113-114 | the result is `read_block` up to the sentinel line; it never raises and is never empty |
| Splitter.RestShape | extract_by_tld.py:95-101 | the loop's lines end with "" or the end string, and no earlier appended line is either |
| Splitter.BlockShape | extract_by_tld.py:80-102 | a block is non-empty: its first line is `start` when given, otherwise the fresh line; its last line is "" or the end string, and no earlier line is |
| Splitter.BreakCheck | extract_by_tld.py:92-93 | with a break string the call raises exactly when the first line lacks that prefix; a successful block starts with it; a raising call with `start` has read nothing |
| Splitter.DecodedMembers | extract_by_tld.py:97-101 | the successfully re-decoded lines are exactly the results of re-decoding some line |
| Splitter.RestDecoded | extract_by_tld.py:95-101 | the loop appends the re-decodings of exactly the lines it consumed, dropping the failures, plus "" when it reaches the end of the file |
| Splitter.BlockDecoded | extract_by_tld.py:82-101 | after its first line, a block holds only successful re-decodings of the consumed lines, and possibly a final "" |
| Splitter.FirstLineKeptRaw | extract_by_tld.py:83-87 | a fresh first line whose re-decoding fails is kept exactly as read |
| Pipeline.StepSpec | extract_by_tld.py:141-148 | a completed pass consumes at least one line |
| Pipeline.StepOf | extract_by_tld.py:142-148 | when all three reads succeed, the pass yields the two headers and the payload without its last line, and carries that last line |
| Pipeline.SplitFrom | extract_by_tld.py:139-148 | the loop yields no more triplets than there are lines left, so it terminates |
| Pipeline.EndOfInput | extract_by_tld.py:141-144 | a carried "" or a fresh read at the end of the file makes the loop return at once, with nothing yielded |
| Pipeline.StepExits | extract_by_tld.py:141-146 | a pass returns exactly when the capture header's first line lacks "WARC", and raises exactly when that check passes and the transport header's first line lacks "HTTP" |
| Pipeline.SentinelPassesCheck | extract_by_tld.py:142 | a carried "WARC/1.0\n" always passes the capture header's check and opens its block |
| Pipeline.StepShape | extract_by_tld.py:142-148 | a completed pass's triplet has a "WARC" capture header starting with the carried line and an "HTTP" transport header, both ending at a blank line or the end of the file; its payload holds no sentinel; it carries the sentinel or "" |
| Pipeline.SplitShape | extract_by_tld.py:139-148 | every triplet is well shaped; the first starts with the line carried in, and every later one with the sentinel that ended the previous payload |
| Pipeline.PieceFacts | extract_by_tld.py:166-177 | a triplet writes nothing to either output exactly when `ret_text` is empty; otherwise the annotated output gains the capture header, "\n", the transport header, "\n" and then exactly what the text output gains, which is `ret_text` and "\n" |
| Pipeline.PlainEmpty | extract_by_tld.py:166-177 | the text output of a run is empty exactly when no triplet retained text |
| Pipeline.AnnotatedAppend | extract_by_tld.py:169-174 | the annotated output of consecutive triplets is their outputs concatenated in order |
| Pipeline.PlainAppend | extract_by_tld.py:176-177 | the text output of consecutive triplets is their outputs concatenated in order |
| Pipeline.Sink.WriteLines | extract_by_tld.py:169 | `writelines` appends its lines after what was written before |
| Pipeline.ParseFile | extract_by_tld.py:134-177 | `parse_file` ends as `SplitFrom` does, returning or raising, and the two outputs gain exactly the pieces of its triplets in order, after what they held before |
| Pipeline.ReadTriplet | extract_by_tld.py:141-148 | one pass either ends the loop as `SplitFrom` does, or moves forward and yields the first triplet of `SplitFrom`, the rest being `SplitFrom` from the new position with the carried line |
| Pipeline.WriteTriplet | extract_by_tld.py:148-177 | one triplet's extraction, filter and writes add exactly its annotated and plain pieces |
| Pipeline.TextOf | extract_by_tld.py:148-164 | `ret_text` is the extraction of the joined payload, filtered when a filter is set |
| Pipeline.WriteRecord | extract_by_tld.py:169-177 | the eight `writelines` calls add the headers, blank lines and `ret_text` to the annotated output, and `ret_text` and "\n" to the text output |
| Extraction.Xtr | extract_by_tld.py:117-130 | `xtr` returns nothing when the remover raises, and otherwise the texts of the non-boilerplate paragraphs in order |
| Extraction.ContentTextsAppend | extract_by_tld.py:127-129 | extraction distributes over concatenation, so order is preserved |
| Extraction.ContentTextsMembers | extract_by_tld.py:127-129 | a text is returned exactly when some non-boilerplate paragraph carries it |
| Extraction.ContentTextsCount | extract_by_tld.py:127-129 | as many texts are returned as there are non-boilerplate paragraphs |
| Extraction.SplitLinesPartition | extract_by_tld.py:152 | a paragraph's lines hold no "\n" and join back to the paragraph |
| Extraction.FilterLines | extract_by_tld.py:150-162 | the nested loops build exactly the per-paragraph filtered lines |
| Extraction.RetainLinesAppend | extract_by_tld.py:151-162 | filtering distributes over concatenation, so kept lines stay in order |
| Extraction.RetainedIsRetainLines | extract_by_tld.py:150-162 | filtering paragraph by paragraph equals filtering the list of all their lines |
| Extraction.RetainLinesMembers | extract_by_tld.py:153-159 | `Keep`: the output holds exactly `t + "\n"` for the lines `t` that are kept: include filter set and code equal, or exclude filter set and code different |
| Extraction.FilterCorrect | extract_by_tld.py:149-164 | `RetText`: the include filter alone keeps exactly the lines of that language; the exclude filter alone keeps exactly the others; with no filter `ret_text` is the extracted text unchanged |
| Extraction.RetainedLinesShape | extract_by_tld.py:152-162 | every filtered line ends with its only "\n" |
| RoundTrip.RestReads | extract_by_tld.py:95-101 | the loop over stored lines that re-decode to a text none of whose lines ends the block, followed by a line that does end it, appends exactly that text and the end line, and stops just after it |
| RoundTrip.RestReadsToEnd | extract_by_tld.py:95-101 | over such lines running to the end of the file, the loop appends exactly their text and the "" of end of file |
| RoundTrip.BlockReads | extract_by_tld.py:80-102 | a fresh block over such lines, whose first line of text passes the break check, reads back exactly their text and the end line |
| RoundTrip.BlockReadsToEnd | extract_by_tld.py:80-102 | a fresh block over such lines running to the end of the file reads back their text and "" |
| RoundTrip.RecordStep | extract_by_tld.py:141-148 | one pass over a well-formed record followed by a sentinel yields that record's triplet and carries the sentinel |
| RoundTrip.LastRecordStep | extract_by_tld.py:141-148 | one pass over a well-formed record at the end of the file yields its triplet and carries "" |
| RoundTrip.FreshSentinel | extract_by_tld.py:142 | a file opening with the sentinel line is read as if that line were carried in |
| RoundTrip.ReadBackFrom | extract_by_tld.py:139-148 | from a carried sentinel, the loop yields the triplets of the records' text one by one and then returns normally |
| RoundTrip.ReadBack | extract_by_tld.py:139-148 | the loop over a file serialising well-formed records yields exactly the triplets of their text, in order, and returns normally |
| RoundTrip.StoredRestores | extract_by_tld.py:98 | each stored line of a text re-decodes to its own line of that text, for text of any characters |
| RoundTrip.StoredFraming | extract_by_tld.py:114 | the blank line and "WARC/1.0\n" are their own stored forms, so the framing lines read the same stored or decoded |
| RoundTrip.ReadBackRecoded | extract_by_tld.py:138-148 | with the program's own re-decoding, a file holding shaped records of any text, every line stored as its UTF-8 bytes in ISO-8859-1 characters, is split into exactly those records' triplets, with the text restored, and the loop returns normally |
| Batches.PlanBatches | extract_by_tld.py:203-208 | a zero `n_proc` raises, a negative one gives no batches, and a positive one gives the jobs of `files[i:i + n_proc]` for each `i` in `range(0, len(files), n_proc)` |
| Batches.PoolArgs | extract_by_tld.py:206-208 | `pool_args` holds one job per file name, in order |
| Batches.ChunksStep | extract_by_tld.py:205 | the slice at `i` is the next batch, followed by the batches from `i + n_proc` |
| Batches.ChunksFlatten | extract_by_tld.py:203-205 | `Chunks`: the batches concatenated are the file list, in order |
| Batches.ChunkSizes | extract_by_tld.py:203-205 | every batch has `n_proc` files except the last, which has between one and `n_proc`; the number of batches is `len(files) / n_proc` rounded up |
| Batches.JobNames | extract_by_tld.py:222-226 | `JobFor`, at lines 207 and 223: each job reads `in_dir/name`, and writes to `out_dir/` followed by a `/`-free name, which is the listed name itself when that has no "/" |
| Text.Split | extract_by_tld.py:37 | `s.split(sep)` always gives at least one piece, so `[0]` and `[-1]` exist |
| Text.SplitJoin | extract_by_tld.py:152 | joining the pieces of a split with the separator gives back the string, so the split loses and adds nothing |
| Text.SplitContains | extract_by_tld.py:37 | a string holding the separator splits into at least two pieces |
| Text.SplitCharPieces | extract_by_tld.py:152 | no piece of a split on one character holds that character |
| Text.RemoveChar | extract_by_tld.py:52 | `s.replace(c, "")` holds no `c`, every other character as often as `s`, and is no longer than `s` |
| CrawlIndex.SplitFirst | extract_by_tld.py:37 | the first piece of a split is a separator-free prefix of the string; it is the whole string when there is one piece, and otherwise the separator follows it and the remaining pieces are the split of the rest |
| CrawlIndex.AnchorLines | extract_by_tld.py:36 | the selected lines are exactly the page lines holding `<a href="/CC-MAIN` |
| CrawlIndex.AnchorLinesAppend | extract_by_tld.py:36 | the comprehension keeps a single line exactly when it holds `<a href="/CC-MAIN`, and selecting from a concatenation concatenates the selections, so anchor lines stay in page order and repeated lines stay repeated |
| CrawlIndex.AnchorSplits | extract_by_tld.py:37 | every selected line has a `"/`, so `split('"/')[1]` exists |
| CrawlIndex.CrawlIdShape | extract_by_tld.py:37 | `CrawlId`: the identifier is the text after the line's first `"/`, up to the next quote or the end of the line, and holds no quote |
| CrawlIndex.IndexUrlsShape | extract_by_tld.py:34-38 | `IndexUrls`, the result of `get_idx_urls`: one URL per anchor line, in page order (the order `AnchorLinesAppend` proves); each is the API head followed by that line's identifier, which holds no quote |
| CrawlIndex.CleanQueryProps | extract_by_tld.py:52 | `CleanQuery`: the cleaned query holds no `*` and no `.`, keeps every other character as often as the query has it, and cleaning it again changes nothing |
| CrawlIndex.CleanUrl | extract_by_tld.py:53 | `url.split("/")[-1]` holds no "/" |
| CrawlIndex.CleanIndexUrl | extract_by_tld.py:52-54 | `SearchFileName`: for an index URL, `clean_url` is the last `/`-segment of the identifier and the results land in `outdir/<clean query>_<segment>.json` |
| CrawlIndex.RequestedRangeOverreads | extract_by_tld.py:59-61 | `RequestedRange`: the range `bytes=offset-(offset+length)` covers `length + 1` bytes, including the first byte after the record |
| CrawlIndex.RecordRangeExact | extract_by_tld.py:59-61 | the corrected range covers exactly the bytes `offset .. offset + length - 1` and has `length` bytes; an empty record has no range |

## Left out

- HTTP requests in `get_idx_urls` and `search_all`, and the 503 retry loop with `time.sleep(5000)`, are left out as network I/O with an unbounded wait. The page text and the response are parameters instead.
- The `curl` and `gunzip` pipeline and the JSON-lines loop of `get_data_from_search_file` are left out as foreign processes and file I/O. Only the byte range and the ISO-8859-1 decoding of the result are modelled.
- justext's algorithm, its `JUSTEXT_CONFIG` thresholds and `get_stoplist` are left out. The remover is a function from the joined payload to labelled paragraphs, or `None` where it raises, with configuration and stop list fixed.
- fasttext model loading and `predict` are left out. The language identifier is a function from a line to its top language code, and the confidence score is ignored.
- `multiprocessing.Pool` is left out as concurrency. The model builds the batches and their jobs in order, but does not run them.
- `argparse`, `os.mkdir`, `os.listdir`, `datetime`, the `print` logging and the `outfile_names` list that only feeds the log are left out as environment plumbing.
- In extract mode, each job also carries the three language options. `Batches.Job` holds only the input and output names, since the options are the same for every job.
- Opening the input with `errors='ignore'` is left out. The model starts from the decoded lines, which are given as the stream's contents.
- `LineStream` takes the lines as they come from `readline`. The model does not derive them from the file's bytes.
- The block specifications and the round trip are stated for any re-decoding that keeps "", "\n" and "WARC/1.0\n". `LineStream`'s constructor installs the program's own re-decoding, and `Splitter.RecodeFixes` proves that it has this property.
- The `lang` and `lang_ignore` options are modelled as strings, with "" for unset. Python's `None` and "" behave the same here, because both are only tested for truth and compared when set.

## Findings

| source | as written | input that shows it | evidently intended | confidence | as-written member | corrected member |
|---|---|---|---|---|---|---|
| extract_by_tld.py:59-61 | `end = offset + length` is sent as the last byte of `Range: bytes=offset-end`, and HTTP byte ranges include both ends (section 2.1 of RFC 7233) | offset 0, length 10: `bytes=0-10` requests 11 bytes, the last being the first byte after the record | `bytes=offset-(offset + length - 1)`, exactly the record's `length` bytes | medium; not executed (`gunzip` may still decode the record and ignore the extra byte) | CrawlIndex.RequestedRangeOverreads | CrawlIndex.RecordRangeExact |
