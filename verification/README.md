# stackcollector — a Dafny model of the collector core

stackcollector polls sampling profilers over HTTP. Each response is a
text payload: two header lines, then one `stack value` line per sampled
call stack. `save` merges the body lines into a dbm store keyed by
stack. For each well-formed line it appends the token
`host:port:timestamp:value ` (note the trailing space) to the stack's
store value, creating the key if it is new. The `run` command reads its
`--ports` option as a range `A..B`, a comma list or a single port.

This project models both pieces as pure functions and proves what they
promise:

- **Utf8**: the strict UTF-8 decoder of `bytes.decode()`, with its
  encoder. Decoding and encoding are proved to be mutual inverses.
- **Text**: Python's `str.split()` with its exact whitespace set, and
  `str.split(sep)` with `sep.join`. Each comes with inverse lemmas.
- **Numerals**: `'{}'.format(n)` for non-negative integers and `int()`
  on digit strings. Parsing a rendered number gives it back.
- **Entry**: the token format, plus a decoder for a store value. The
  encoding is proved lossless for hosts without colons or whitespace.
- **Collector**: `save`, as a left fold of a per-line step over the body
  lines. For every key, the new value is proved to be the old value
  followed by the tokens of exactly the lines naming that key, in line
  order. The model also covers skipped lines, the ignored header and
  append-only growth.
- **History**: any sequence of `save` calls. A key's value decodes into
  its full history, batch by batch.
- **Ports**: the `--ports` parser, including every error case.
- **Scenarios**: a worked payload, polled once and then twice.

The dbm store is a `map<string, string>` and a payload line is a
`seq<byte>`. The timestamp `now` and the target `(host, port)` are
parameters.

The model follows Python 3 semantics. There `bytes.decode()` without
arguments uses UTF-8 in strict mode, so a line that is not valid UTF-8
raises `UnicodeDecodeError`, a subclass of `ValueError`, and the line is
skipped. Under Python 2 the default codec would be ASCII instead.

## Model

| member | source | states |
|---|---|---|
| Utf8.DecodeEncode | stackcollector/collector.py:50 | every string survives UTF-8 encoding followed by `decode()` |
| Utf8.EncodeDecode | stackcollector/collector.py:50-52 | a line that `decode()` accepts is exactly the encoding of its text, so no line is misread |
| Text.Words | stackcollector/collector.py:50 | `str.split()` yields only non-empty pieces free of whitespace |
| Text.WordsCons | stackcollector/collector.py:50 | a word, one whitespace character and more text split into that word followed by the split of the rest |
| Text.WordsOfSpaces | stackcollector/collector.py:50-52 | a blank or whitespace-only line splits into no words at all |
| Text.WordsAfterSpaces | stackcollector/collector.py:50 | leading whitespace, of any length, does not change the split |
| Text.WordsOfWeave | stackcollector/collector.py:50 | words separated by non-empty whitespace runs, with optional whitespace before and after, split into exactly those words |
| Text.WordsSplits | stackcollector/collector.py:50 | every string is its split: the words, in order, with whitespace before, between and after them |
| Text.WordsExact | stackcollector/collector.py:50 | `s.split()` is `ws` if and only if `s` is the words `ws` separated by whitespace |
| Text.SplitsAsPair | stackcollector/collector.py:50 | a text that splits into two words is those words, whitespace between them and optional whitespace around them |
| Text.WordsOfSpaced | stackcollector/collector.py:54-56 | space-terminated words split back into exactly those words, in order |
| Text.SplitOn | stackcollector/collector.py:69 | `str.split(sep)` always yields at least one piece |
| Text.JoinSplitOn | stackcollector/collector.py:69 | joining the pieces of a split with the separator rebuilds the string |
| Text.SplitOnJoin | stackcollector/collector.py:74 | splitting a join gives back the parts, when no part holds the separator's first character |
| Text.ContainsExact | stackcollector/collector.py:68-73 | `sep in s` holds if and only if `s` is some `a + sep + b` |
| Numerals.ParseDecimal | stackcollector/collector.py:70-71 | `int(s)` succeeds exactly when `s` is a non-empty digit string |
| Numerals.Decimal | stackcollector/collector.py:54 | the rendering of a number is a non-empty digit string without leading zeros |
| Numerals.ParseDecimalOfDecimal | stackcollector/collector.py:54 | reading a rendered number gives the number back |
| Entry.EncodeEntryAppend | stackcollector/collector.py:56 | the tokens of two groups of samples, appended, are the tokens of the two groups in order |
| Entry.FieldRoundTrip | stackcollector/collector.py:54 | a token's host, port, timestamp and value can be read back from its text |
| Entry.TokenText | stackcollector/collector.py:54 | the token is host, port, timestamp and value joined by colons, then one space |
| Entry.TokenExample | stackcollector/collector.py:54 | host `h1`, port 9000, time 17 and value `5` give the token `h1:9000:17:5 ` |
| Entry.TokenRoundTrip | stackcollector/collector.py:54 | a single token reads back as the one sample it was made from |
| Entry.EntryRoundTrip | stackcollector/collector.py:54-58 | a store value decodes into every sample it holds, in arrival order |
| Collector.ParseLine | stackcollector/collector.py:50-52 | an accepted line yields a stack and a value, each a non-empty word without whitespace |
| Collector.ParseLineExact | stackcollector/collector.py:50-52 | a line is accepted as `(stack, value)` if and only if it is valid UTF-8 whose text is those two words separated by whitespace |
| Collector.ParseLineAccepted | stackcollector/collector.py:50-52 | an accepted line decodes to optional whitespace, the stack, whitespace, the value and optional whitespace, and nothing else |
| Collector.ParseLineWordCount | stackcollector/collector.py:50-52 | a line of whitespace-separated words is accepted exactly when it holds two words; blank lines, one word and three or more words are dropped |
| Collector.ParseLineSpaced | stackcollector/collector.py:50 | two words with whitespace runs between and around them are accepted as that pair |
| Collector.ParseLinePair | stackcollector/collector.py:50 | a line of two words separated by one whitespace character is accepted as that (stack, value) pair |
| Collector.ParseLineSingleWord | stackcollector/collector.py:50-52 | a line of a single word fails the two-name unpacking and is dropped |
| Collector.ParseLineThreeWords | stackcollector/collector.py:50-52 | a line of three words fails the two-name unpacking and is dropped |
| Collector.ParseLineUndecodable | stackcollector/collector.py:50-52 | a line that is not valid UTF-8 is dropped |
| Collector.Upsert | stackcollector/collector.py:55-58 | the key is present afterwards; its value is the old value (or nothing) followed by the token; every other key is unchanged |
| Collector.StepAt | stackcollector/collector.py:49-58 | one loop iteration adds to key `k` the token of its line, if that line names `k`, and nothing else |
| Collector.MergeLines | stackcollector/collector.py:48-58 | the loop only appends: no key is removed and every old value is a prefix of the new one |
| Collector.SamplesFor | stackcollector/collector.py:46-54 | every sample of one call carries the call's host, port and single timestamp; there is at most one per line |
| Collector.MergeLinesAt | stackcollector/collector.py:48-58 | after the loop, a key holds its old value followed by the tokens of the lines naming it, in line order; it is present exactly when it was before or some line names it |
| Collector.Body | stackcollector/collector.py:48 | `data[2:]` is empty for up to two lines, and otherwise `data` is the two header lines followed by it |
| Collector.Save | stackcollector/collector.py:45-58 | a key is present after `save` exactly when it was before or a body line names it; its value is the old value followed by the tokens of those lines, in line order |
| Collector.SaveAppendOnly | stackcollector/collector.py:55-58 | no key is removed, and every old value is a prefix of the new one |
| Collector.SaveIgnoresHeader | stackcollector/collector.py:48 | the two header lines have no effect on the store, whatever they hold |
| Collector.MergeLinesAppend | stackcollector/collector.py:48 | merging `a + b` equals merging `a`, then `b` |
| Collector.MergeLinesSkips | stackcollector/collector.py:49-52 | a rejected line anywhere in the loop's input changes nothing |
| Collector.SaveSkipsMalformed | stackcollector/collector.py:49-52 | inserting a malformed line anywhere after the header leaves the result of `save` unchanged |
| History.SaveTwice | stackcollector/collector.py:55-56 | a second batch appends its tokens after those of the first |
| History.SaveAllAt | stackcollector/collector.py:45-58 | after any number of batches, a key's value is its initial value followed by its whole history, in merge order |
| History.SaveAllLossless | stackcollector/collector.py:54-58 | from an empty store, every key's value decodes into exactly the samples recorded for it, in order |
| Ports.Range | stackcollector/collector.py:72 | `range(start, stop)` holds `start`, `start + 1`, ..., `stop - 1` |
| Ports.ParseEach | stackcollector/collector.py:74 | the list comprehension succeeds exactly when every part reads, and then gives the parts' values in order |
| Ports.ParsePortsSound | stackcollector/collector.py:68-76 | a spec that reads is `A..B` with numerals A and B read as the range A to B, two or more comma-separated numerals read as their values, or one numeral read as itself |
| Ports.ParsePortsExact | stackcollector/collector.py:68-76 | a spec reads as `ps` if and only if it has one of those three shapes and `ps` is what the shape denotes |
| Ports.ParseRangeSpec | stackcollector/collector.py:68-72 | `A..B` with any numerals A and B, leading zeros included, reads as the inclusive range from A to B, which is empty when B < A |
| Ports.ParseRejectsTwoRanges | stackcollector/collector.py:69 | a spec with two `..` does not unpack into a start and an end, so it is an error |
| Ports.ParseEachNumerals | stackcollector/collector.py:74 | numerals read one by one give their values |
| Ports.ParseListSpec | stackcollector/collector.py:73-76 | a comma list of numerals reads as their values, in order |
| Ports.ParseListOfMany | stackcollector/collector.py:73-74 | a list of two or more numerals takes the comma branch and reads as their values |
| Ports.ParseSingleSpec | stackcollector/collector.py:75-76 | a single numeral reads as the one-element list of its value |
| Ports.ParsePortsOfDecimals | stackcollector/collector.py:73-76 | rendered ports joined by commas read back as the ports |
| Ports.ParseRangeExample | stackcollector/collector.py:68-72 | `07..9` reads as 7, 8, 9 |
| Ports.ParseListExample | stackcollector/collector.py:73-74 | `80,443` reads as 80 then 443 |
| Ports.ParseRejectExamples | stackcollector/collector.py:70-76 | `1.5` and the empty spec are errors |
| Ports.ParseRejectEmptyPart | stackcollector/collector.py:69-74 | `1,` and `..2` are errors, because one part is empty |
| Ports.ParseRejectsNonInteger | stackcollector/collector.py:68-76 | every spec that reads holds only digits, `.` and `,`, so any other character is an error in all three forms |
| Scenarios.PayloadParses | stackcollector/collector.py:49-52 | in the worked payload, `stackA 5`, `stackB 7` and `stackA 9` parse as pairs and `garbageline` is dropped |
| Scenarios.PollBody | stackcollector/collector.py:48-58 | the loop over the four example body lines leaves exactly two keys |
| Scenarios.SinglePoll | stackcollector/collector.py:45-58 | one poll into an empty store gives exactly two keys, with `stackA`'s two tokens in line order |
| Scenarios.RepeatedPoll | stackcollector/collector.py:55-56 | polling twice appends the second poll's `stackA` tokens after the first poll's |

## Left out

- Text.Words: its own contract says only that every piece is a word. The exact characterisation, that the pieces are all the maximal whitespace-free runs in order, is in Text.WordsExact, so that the many proofs using `Words` do not carry it.
- Collector.ParseLine: its own contract gives only the shape of an accepted pair. Collector.ParseLineExact and Collector.ParseLineAccepted state exactly which lines are accepted.
- Numerals.ParseDecimal: reads only non-empty ASCII digit strings. Python's `int()` also accepts surrounding whitespace (`" 80"`), a sign (`"+80"`, `"-1"`), underscores between digits (`"8_0"`) and non-ASCII decimal digits. The model reads all of these as errors, while Python accepts them; with `"-1"`, `run` would poll port -1.
- Entry.EntryRoundTrip: requires the host to hold no colon and no whitespace. Otherwise a token cannot be split back unambiguously. The program itself never decodes a store value.
- `getdb` (collector.py:12-26): opening the dbm file, retrying while it is locked, and closing it. The store is a map passed in and returned.
- `collect` (collector.py:29-42): the HTTP request, its error handling, and the logging and exception swallowing around `save`. These are I/O.
- `bytes.splitlines()` (collector.py:36): `save` receives the list of lines directly.
- `time.time()` (collector.py:46): the timestamp is a parameter `now`.
- The dbm coercion of `str` keys and of `bytes` values. Store values are modelled as text: the UTF-8 encoding of a concatenation is the concatenation of the encodings, so appending bytes and appending text agree.
- Atomicity: a crash in the middle of a batch, which leaves a prefix of the batch merged, is not modelled.
- The `run` command's option handling, its polling loop over hosts and ports, and its sleep (collector.py:61-66, 77-81).
- `--ports` left unset, where `'..' in None` raises `TypeError`: the spec is always a string here.
