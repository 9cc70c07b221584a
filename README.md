# RFC 7464 JSON Text Sequence reader, modelled in Dafny

This project models `jsonSeqReader`, the async generator in
`utils/jsonSeqReader.ts`. It reads a stream of RFC 7464 JSON Text Sequences
(JSON texts delimited by the Record Separator byte 0x1E) and yields one parsed
value per record. The generator keeps two pieces of state between reads:

- `all`, the bytes read but not yet consumed;
- `total`, a counter of the separators consumed, which feeds the progress
  callback.

On every chunk the stream delivers, the generator does three things:

1. It copies the old buffer and the chunk into a new array.
2. While the buffer holds a separator, it bumps the counter and looks at the
   first separator:
   - at position 0, it drops that byte;
   - otherwise it decodes the bytes `all[0 .. idx-1)`, and the buffer
     continues after the separator.
3. It yields each decoded text that has a non-whitespace character, after
   calling the progress callback with the counter.

Files:

- `framing.dfy` (module `Framing`): the splitting rule as pure functions.
  - `Scan` is the inner loop and `Frame` is a whole stream from a fresh
    reader. `Keep` is what one separator-terminated piece gives.
  - The lemmas prove what stays in the buffer, what is yielded and in which
    order, the progress values, and that chunk boundaries do not matter.
  - `Fields`/`Select` is an independent split-then-filter description that
    `Scan` is proved equal to.
- `reader.dfy` (module `Reader`): the generator's imperative form.
  - The class `Framer` holds the fields `all` and `total`.
  - `Feed` processes one chunk. `AppendChunk` is the copy into a new array.
    `SplitRecords` is the inner `while` loop.
  - The method `JsonSeqReader` is the outer read loop over the stream's chunks.
  - `AppendChunk` is proved to return the old buffer followed by the chunk.
    `SplitRecords` is proved equal to `Scan`. `Feed` keeps the state equal to
    `Frame` of everything read so far. `JsonSeqReader` is proved equal to
    `FeedAll` and to `Frame` of the concatenated chunks.
- `wellformed.dfy` (module `WellFormed`): what the reader does with a stream
  encoded as RFC 7464 section 2 prescribes. There, each text is written as
  RS, the text, then LF.
- `whitespace.dfy` (module `Whitespace`): the ECMAScript `\s` class, which
  `/\S/.test` uses.

The record slice is modelled exactly as written: `all.subarray(0, idx - 1)`
leaves out the separator and also the byte just before it.

- In a well-formed RFC 7464 stream that byte is the LF after each text, so the
  texts are yielded intact (`WellFormed.FrameEncoded`).
- A record closed by a bare separator loses its last byte
  (`WellFormed.DropsByteBeforeSeparator`).

Because an RFC 7464 writer puts the separator before each text, a text is
terminated only by the separator of the next text. So the last text of a
stream stays in the buffer and is never yielded
(`WellFormed.LastTextIsNotYielded`).

Three points differ from what is promised: the first two from the parsing
rule of RFC 7464 section 2.1, under which every octet string between
separators is a JSON text, the last one at end of input included; the third
from the reader's own documentation. The model follows the code:

- The code drops the byte before each separator, as described above.
- The code never yields the bytes after the last separator. The inner loop's
  `|| done` branch would handle them at end of stream, but it is never taken:
  a finished read carries no `value`, and the branch sits inside
  `if (value)`. Even if it were taken with no separator present,
  `subarray(idx + 1)` with `idx = -1` would leave the buffer unchanged and the
  loop would not end. The model has no such step, and the leftover bytes are
  returned as `leftover`.
- The progress callback is documented as receiving the count of parsed
  objects (`utils/jsonSeqReader.ts:41`). It receives `total`, which counts
  separators, empty and whitespace records included. In a well-formed stream
  the i-th object parsed (from 0) is reported as i + 2, one more than the
  number of objects parsed so far (`WellFormed.ProgressIsNotObjectCount`); a
  stream of two texts reports 2 for its single parsed object
  (`WellFormed.OneObjectReportedAsTwo`).

The UTF-8 `TextDecoder` is a parameter `decode: seq<byte> -> string` of the
model. Each yielded value is the raw byte slice the reader would decode and
parse, together with the counter value passed to the progress callback just
before it is yielded.

## Model

| member | source | states |
|---|---|---|
| Framing.IndexOf | utils/jsonSeqReader.ts:68 | `all.indexOf(RS)` gives -1 or a position that holds the separator |
| Framing.IndexOfFirst | utils/jsonSeqReader.ts:68 | `indexOf` gives -1 exactly when the separator is absent, and otherwise its first position |
| Reader.AppendChunk | utils/jsonSeqReader.ts:59-62 | the new array holds the old buffer at its head and the chunk's bytes after it, so nothing is reordered or lost |
| Reader.Framer.constructor | utils/jsonSeqReader.ts:49-51 | a fresh reader starts with counter 0 and an empty buffer |
| Reader.Framer.Feed | utils/jsonSeqReader.ts:57-88 | the new buffer, counter and yields are those of splitting the old buffer followed by the chunk. The buffer has no separator left, and every yield has a non-whitespace text. The state stays equal to splitting everything read so far in one go |
| Reader.SplitRecords | utils/jsonSeqReader.ts:64-88 | the separator loop's yields, remaining buffer and counter are exactly `Scan` of the buffer and counter it started from |
| Reader.JsonSeqReader | utils/jsonSeqReader.ts:45-91 | the generator run over a stream's chunks yields, and leaves unconsumed, exactly what `FeedAll` (the chunks fed one by one) gives, and so what splitting the concatenated stream in one go gives |
| Reader.JsonSeqReaderDefault | utils/jsonSeqReader.ts:45 | called without `RS`, the generator splits on the ASCII Record Separator 0x1E and leaves no such byte unconsumed |
| Framing.Scan | utils/jsonSeqReader.ts:68-88 | the inner loop as a function of buffer and counter; the counter grows by at least the number of values yielded. Its other properties are the `Scan…` lemmas below |
| Framing.Keep | utils/jsonSeqReader.ts:72-86 | definition: what one separator-terminated piece gives (nothing for an empty piece, else the piece less its last byte if its text is not all whitespace); stated by `ScanDropsLeadingSeparator` and `ScanAtFirstSeparator` |
| Framing.Resume | utils/jsonSeqReader.ts:59-88 | definition: one chunk fed to the state `f` (appended to the buffer `f` left, then split); `ScanAppend` and `FeedAllIsFrame` state what it gives |
| Framing.Frame | utils/jsonSeqReader.ts:50-51 | a whole stream split from a fresh reader (counter 0, empty buffer); what is left holds no separator and is a suffix of the stream |
| Framing.FeedAll | utils/jsonSeqReader.ts:56-62 | definition: the chunks fed one at a time from a fresh reader; `FeedAllIsFrame` and `Reader.JsonSeqReader` state what it gives |
| Whitespace.IsWhiteSpace | utils/jsonSeqReader.ts:83 | the ECMAScript `\s` class (WhiteSpace and LineTerminator code points); no visible ASCII character is in it |
| Whitespace.HasNonWhiteSpace | utils/jsonSeqReader.ts:83 | `/\S/.test(text)` holds exactly when some character of the text is outside `\s` |
| Framing.ScanWithoutSeparator | utils/jsonSeqReader.ts:68 | a buffer without a separator is left as it is, nothing is yielded and the counter does not move |
| Framing.ScanDropsLeadingSeparator | utils/jsonSeqReader.ts:72-75 | a separator at position 0 adds one to the counter, removes exactly that byte and yields nothing |
| Framing.ScanAtFirstSeparator | utils/jsonSeqReader.ts:77-86 | for the first separator at `idx > 0`, the candidate record is bytes `0 .. idx-1` and is yielded with progress `total + 1` iff its text is not all whitespace; splitting goes on from `idx + 1` only |
| Framing.ScanLeavesNoSeparator | utils/jsonSeqReader.ts:68 | after the inner loop exits, no separator remains in the buffer |
| Framing.ScanKeepsTail | utils/jsonSeqReader.ts:73-80 | bytes leave only from the head: the remaining buffer is a suffix of the buffer before the loop |
| Framing.ScanRestFollowsSeparator | utils/jsonSeqReader.ts:64-80 | when the buffer held a separator, what remains is exactly what followed the last one, so bytes after the last separator are kept and not yielded |
| Framing.ScanCountsSeparators | utils/jsonSeqReader.ts:68-69 | the counter grows by exactly the number of separators consumed, skipped records included |
| Framing.ScanYieldsNonWhiteSpace | utils/jsonSeqReader.ts:82-86 | every yielded record decodes to a text with a non-whitespace character |
| Framing.ScanYieldsNoEmptyRecord | utils/jsonSeqReader.ts:78-86 | with a decoder that turns no bytes into no text, as `TextDecoder` does, no yielded record is empty |
| Framing.ScanProgressBounds | utils/jsonSeqReader.ts:69-85 | the i-th progress value handed out is at least the starting counter plus i + 1 and at most the final counter, so it is at least the number of values yielded so far |
| Framing.ScanProgressIncreasing | utils/jsonSeqReader.ts:84-85 | the values passed to the progress callback are strictly increasing |
| Framing.ScanAppend | utils/jsonSeqReader.ts:56-88 | splitting `a + b` equals splitting `a`, then appending `b` to what remained and splitting again; yields follow in stream order |
| Framing.FrameSplitAnywhere | utils/jsonSeqReader.ts:56-62 | cutting a stream at any byte position, inside a record or a multi-byte character too, changes neither the yields nor the final buffer and counter |
| Framing.FeedAllIsFrame | utils/jsonSeqReader.ts:56-88 | feeding chunks c1..cn one at a time gives the same yields, buffer and counter as feeding their concatenation as one chunk |
| Framing.FieldsJoin | utils/jsonSeqReader.ts:66-68 | the reference split of the buffer at every separator joins back to the buffer |
| Framing.FieldsHaveNoSeparator | utils/jsonSeqReader.ts:66-68 | no piece of the reference split holds a separator |
| Framing.FieldsUnique | utils/jsonSeqReader.ts:66-68 | the reference split is the only split into separator-free pieces |
| Framing.ScanIsSelectOfFields | utils/jsonSeqReader.ts:66-88 | the inner loop equals: split at every separator; filter the terminated pieces in stream order, each less its last byte; keep the unterminated last piece as the buffer; add the number of separators to the counter |
| Framing.OnlySeparatorsYieldNothing | utils/jsonSeqReader.ts:71-75 | a run of separators alone yields nothing, empties the buffer and counts each separator |
| WellFormed.FrameEncoded | utils/jsonSeqReader.ts:64-86 | for an RFC 7464 stream of texts each written as RS, text, LF: every text but the last that is not all whitespace is yielded intact, in order, with progress `i + 2`. The last text and its LF stay in the buffer, and the counter is the number of texts |
| WellFormed.ExpectedKeepsAll | utils/jsonSeqReader.ts:83-86 | when every text has a non-whitespace character, every one is yielded, text i with progress start + i |
| WellFormed.LastTextIsNotYielded | utils/jsonSeqReader.ts:64-68 | a stream of a single well-formed text yields nothing and leaves the text and its LF in the buffer |
| WellFormed.ProgressIsNotObjectCount | utils/jsonSeqReader.ts:41-85 | in a well-formed stream of non-whitespace texts, the i-th value yielded gets progress i + 2, not the count i + 1 of objects parsed that the documentation promises |
| WellFormed.OneObjectReportedAsTwo | utils/jsonSeqReader.ts:41-85 | a well-formed stream of two texts yields only the first, and reports progress 2 for it |
| WellFormed.DropsByteBeforeSeparator | utils/jsonSeqReader.ts:78 | a record closed by a bare separator is yielded without its last byte |

## Left out

- `JSON.parse` is not modelled. A yield carries the byte slice that would be
  decoded and parsed. A parse error, which the generator lets propagate to
  its caller, is not modelled.
- `TextDecoder` is an arbitrary function from bytes to text (`decode`). UTF-8
  decoding and its replacement of malformed bytes are not modelled.
- `ReadableStream`, `reader.read()` and the suspension at `yield` are not
  modelled. A stream is the sequence of chunks it delivers. The generator is
  modelled as `Feed` calls that each return the values yielded for one chunk.
- The optional `progressCallback` is not modelled as a call. The value it
  would receive is the `progress` field of each yield, and it is recorded even
  when no callback was given.
- The `|| done` branch of the inner loop cannot be reached, as explained
  above, so it is not modelled.
- `subarray` returns views that share memory with the old array. The model
  uses values instead. Nothing writes through those views, so the shared
  memory makes no difference.
- `utils/electrum.ts`, the routes, the UI components, the generated route
  manifest and the `utils/bitcoin.ts` types are not part of this model. They
  are socket plumbing, HTTP handlers, configuration and presentation, and they
  do not use the reader.
