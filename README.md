# gpt-3-client: streamed token reassembly, colouring and export, in Dafny

This project models the sequential logic of `GPT3Client` in `gpt3_client.py`,
a command-line client that streams a completion from the OpenAI completions
endpoint and prints each token highlighted by its probability. The model
covers four parts:

- the chunk loop of `generate`. Each chunk loses its `data: ` prefix. A short
  payload holding `[DONE]` ends the stream. Any other payload is a frame of
  parallel `tokens` / `token_logprobs` (modules `Stream` and `Reassembly`).
- the token loop over one frame. It has a one-slot buffer (`temp_token`,
  `temp_prob`) that holds a `bytes:` fragment until the next token
  completes it, and it breaks at the stop string or `<|endoftext|>`. It is
  modelled as a state machine (`Reassembly.Machine`, `Reassembly.Step`).
  `Reassembly.ReassembleChunk` is the loop itself, proved equal to that
  machine.
- `derive_token_bg`: the background colour of a token (module `Colour`).
- `replace_hex_colors`: rewriting `#RRGGBB` literals of the exported HTML to
  `rgb(r,g,b)` (module `HexColors`), and the small artifact helpers: the text
  file entry, the default file names, and the HTML and accent given to the
  image renderer (module `Artifacts`).

`Text` gives the Python built-ins the code relies on (slicing, `startswith`,
`in`, `str.replace`, `str(int)`, `int(s, 16)`). `Wrappers` gives `Option`
and `Result`.

Collaborators the model cannot see are parameters:
- `decode: string -> string` stands for
  `codecs.escape_decode(bytestring, "utf-8")[0].decode("utf-8")`.
- `parse: string -> Option<AlignedFrame>` stands for `json.loads` and the
  `["choices"][0]["logprobs"]` lookups. `None` is the exception they raise.
  It aborts `generate` with `Err(ParseError(payload, printed))`: the payload
  that failed, and the tokens already on the console.
- `prob` is the value of `exp(log_prob)`, passed as a real number.
- the prompt hash and the timestamp are given, already formatted, strings.

Two facts of the code that the model keeps:
- With colouring off, each channel of `bg` is still capped at 255 (line 185).
  `Colour.TokenColour` does the same.
- Only the parallel `tokens` / `token_logprobs` arrays of a frame are read
  (lines 91-93), and the model reads nothing else.

## Model

| member | source | states |
|---|---|---|
| `Reassembly.ReassembleChunk` | gpt3_client.py:90-124 | the token loop of one chunk, starting with `temp_token = None`, prints exactly `ChunkEmits` of the frame: the run of the state machine over the tokens |
| `Reassembly.Step` | gpt3_client.py:98-118 | one pass of the loop body: after a break nothing changes; the loop breaks exactly on a terminator; at most one token is printed, after the earlier ones; a held fragment is released by the next non-terminator token; a `bytes:` fragment is held only when nothing was held, and then nothing is printed |
| `Reassembly.HaltedStaysHalted` | gpt3_client.py:98-99 | after the loop breaks, later tokens of the chunk change nothing |
| `Reassembly.TerminatorBreaks` | gpt3_client.py:98-99 | a token equal to `stop` or `<|endoftext|>` prints nothing, keeps the buffer and breaks the loop |
| `Reassembly.PlainTokenPassesThrough` | gpt3_client.py:109-124 | with nothing held, a non-`bytes:` token is printed unchanged with its own log-probability, after everything printed before |
| `Reassembly.FragmentIsHeld` | gpt3_client.py:101-108 | with nothing held, `bytes:` + x prints nothing, holds x and remembers its log-probability |
| `Reassembly.HeldFragmentMerges` | gpt3_client.py:110-118 | the token after a held fragment is printed once as `decode(held + token[6:])` with the fragment's log-probability, and the slot is emptied |
| `Reassembly.TerminatorEndsChunk` | gpt3_client.py:94-99 | a terminator at position k makes the chunk print exactly what its first k tokens print |
| `Reassembly.EmptyStopMatchesEmptyToken` | gpt3_client.py:98-99 | with the default `stop == ""`, an empty token ends the chunk |
| `Reassembly.EmitCountBound` | gpt3_client.py:94-124 | after n tokens, the tokens printed plus the held fragment (if any) number at most n |
| `Reassembly.ChunkEmitsAtMostTokens` | gpt3_client.py:94-124 | a chunk never prints more tokens than it carries |
| `Reassembly.PlainChunkUnchanged` | gpt3_client.py:94-124 | a chunk with no fragment and no terminator prints its tokens unchanged, in order, each with its own log-probability |
| `Reassembly.SplitCharacterMerges` | gpt3_client.py:101-118 | `bytes:A`, `bytes:B` (A non-empty) print one token `decode(A + B)` with the first fragment's log-probability |
| `Reassembly.ContinuationLosesSixCharacters` | gpt3_client.py:110-111 | the continuation loses its first six characters even without the `bytes:` marker |
| `Reassembly.EmptyFragmentIsNotHeld` | gpt3_client.py:101-110 | a bare `bytes:` holds `""`, which counts as nothing held: the next plain token prints as it is, with its own log-probability |
| `Reassembly.TrailingFragmentIsDropped` | gpt3_client.py:90-108 | a fragment still held at the end of a chunk is never printed |
| `Stream.Generate` | gpt3_client.py:85-124 | the chunk loop returns exactly `StreamEmits`: the chunks' output up to the first end chunk, or the parse error together with the tokens already printed |
| `Stream.Payload` | gpt3_client.py:86 | the payload is the chunk after its first six characters, and empty for a shorter chunk |
| `Stream.IsDone` | gpt3_client.py:87 | an end payload has between 6 and 9 characters |
| `Stream.DoneChunks` | gpt3_client.py:86-88 | `data: [DONE]` and `data: [DONE]\n\n` end the stream |
| `Stream.DoneEndsStream` | gpt3_client.py:85-88 | nothing after the first end chunk is read: the result equals that of the chunks before it |
| `Stream.ChunksAreIndependent` | gpt3_client.py:85-93 | a data chunk prints exactly what its own frame prints from an empty buffer, followed by the rest of the stream |
| `Stream.FragmentDoesNotCrossChunks` | gpt3_client.py:90-108 | a fragment ending one chunk is not merged with the next chunk's first token |
| `Stream.FailsIffUnparsableBeforeDone` | gpt3_client.py:85-93 | `generate` fails if and only if some payload before every end chunk does not parse |
| `Stream.ErrorKeepsPrinted` | gpt3_client.py:85-124 | when the k-th payload is the first that does not parse, the error names that payload and carries exactly what the chunks before it printed |
| `Stream.PrintedBeforeParseError` | gpt3_client.py:85-124 | a chunk printing `H` followed by an unparsable chunk fails with `H` already printed |
| `Stream.StreamEmitsAtMostTokens` | gpt3_client.py:85-124 | a stream that ends well prints no more tokens than its chunks carry |
| `Stream.TwoTokensThenDone` | gpt3_client.py:85-124 | chunks `H`, `i` and the end chunk print `H` then `i`, each with its own log-probability |
| `Colour.Trunc` | gpt3_client.py:178-180 | Python's `int()` of a float: its meaning is stated by `Colour.TruncTowardZero` |
| `Colour.TruncTowardZero` | gpt3_client.py:178-180 | `int()` rounds toward zero: the result is within one of its argument, on the side of zero |
| `Colour.Channel` | gpt3_client.py:178-180 | a channel before the cap, `int(max(bg + accent * prob, bg))`, is never below `bg` |
| `Colour.Capped` | gpt3_client.py:185 | each channel becomes `min(channel, 255)`: unchanged up to 255, and 255 above |
| `Colour.TokenColour` | gpt3_client.py:176-185 | every channel lies between the background channel capped at 255 and 255, for all inputs; with colouring off it is the capped background |
| `Colour.DeriveTokenBg` | gpt3_client.py:171-185 | the style text reads back as the colour `TokenColour` computes |
| `Colour.ChannelIsFloor` | gpt3_client.py:178-180 | with a non-negative background, `int()` of the channel is its floor |
| `Colour.ChannelAtMostFullAccent` | gpt3_client.py:177-181 | for a non-negative accent and prob in [0,1], a channel is between bg and bg + accent, and equals bg + accent at prob 1 |
| `Colour.ChannelNeverDarkens` | gpt3_client.py:177-181 | a non-positive accent leaves the channel at the background |
| `Colour.ChannelMonotone` | gpt3_client.py:177-181 | with a non-negative accent, a more probable token never gets a darker channel |
| `Colour.DefaultColours` | gpt3_client.py:174-183 | the default colours give (31,100,40) at prob 1 and (31,36,40) at prob 0 or with colouring off |
| `Colour.DefaultColourTexts` | gpt3_client.py:185 | those colours print as `rgb(31,100,40)` and `rgb(31,36,40)` |
| `Colour.FormatRgb` | gpt3_client.py:185 | the colour text starts with `rgb(`, ends with `)` and holds no `#` |
| `Colour.FormatRgbShape` | gpt3_client.py:185 | a colour text is at least ten characters long and holds no quote |
| `Colour.ParseFormatRgb` | gpt3_client.py:185 | every colour text reads back as the colour it was made from |
| `Colour.FormatRgbInjective` | gpt3_client.py:185 | different colours never print the same text |
| `HexColors.MatchesHere` | gpt3_client.py:193 | the pattern `(#.{6})"` matches at the start: eight characters, `#`, six that are not a newline, then a quote |
| `HexColors.Matches` | gpt3_client.py:193 | every captured match is seven characters long, starts with `#` and holds no newline |
| `HexColors.MatchesOccur` | gpt3_client.py:193 | every captured match occurs in the HTML followed by a quote |
| `HexColors.FoundEveryMatch` | gpt3_client.py:193 | when every match is a hex literal, the scan finds a match at every position where the pattern matches |
| `HexColors.ReplaceHexColors` | gpt3_client.py:187-205 | replacing every found literal in any order of the set gives `Normalize`, the one-pass rewrite of all found literals |
| `HexColors.RgbOfHex` | gpt3_client.py:198-201 | the replacement of a literal holds no `#` and starts with `r` |
| `HexColors.HexColour` | gpt3_client.py:198-199 | the three pairs after the `#`, read in base 16, are each in [0, 256) |
| `HexColors.RgbOfHexReadsBack` | gpt3_client.py:198-201 | the replacement reads back as `rgb(r,g,b)` of exactly those three values |
| `HexColors.RgbOfHexShape` | gpt3_client.py:198-201 | the replacement is at least ten characters long and holds no quote |
| `HexColors.ReplaceCommutes` | gpt3_client.py:195-203 | replacing one literal and then rewriting the others equals rewriting them all at once |
| `HexColors.RewriteReplacesEveryOccurrence` | gpt3_client.py:203 | no occurrence of a rewritten literal remains in the output |
| `HexColors.NormalizeReplacesEveryLiteral` | gpt3_client.py:193-203 | every literal found in the HTML is absent from the result |
| `HexColors.MatchesOfWellMarked` | gpt3_client.py:193 | when every `#` is followed by six hex digits and a quote, every found match is a hex literal and every `#` starts a found match |
| `HexColors.NormalizeRemovesEveryHash` | gpt3_client.py:193-203 | on such HTML no `#` remains afterwards |
| `HexColors.NormalizeLeavesNoMatch` | gpt3_client.py:187-205 | whenever every match is a hex literal, the pattern finds nothing in the result |
| `HexColors.NormalizeIdempotent` | gpt3_client.py:187-205 | whenever every match is a hex literal, the result is accepted again and rewriting it changes nothing |
| `HexColors.HexLiteralRoundTrip` | gpt3_client.py:198-201 | a colour printed as `#RRGGBB` with upper-case hex comes back as the same `rgb(r,g,b)` |
| `HexColors.HexLiteralRoundTripLower` | gpt3_client.py:198-201 | likewise with lower-case hex |
| `HexColors.DefaultBackgroundLiteral` | gpt3_client.py:198-201 | `#1F2428` and `#1f2428` are both `rgb(31,36,40)` |
| `HexColors.QuotedLiteralReplaced` | gpt3_client.py:193-203 | for every literal `h`, the HTML `h"` has the one match `h` and becomes its replacement followed by the quote |
| `HexColors.NormalizeDefaultBackground` | gpt3_client.py:193-203 | `#1F2428"` and `#1f2428"` become `rgb(31,36,40)"` |
| `HexColors.UnquotedCopyIsNoMatch` | gpt3_client.py:193 | in `h";h` only the quoted copy is a match |
| `HexColors.UnquotedOccurrenceAlsoReplaced` | gpt3_client.py:203 | for every literal `h`, `h";h` becomes its replacement at both copies: a found literal is replaced also where no quote follows it |
| `Artifacts.TextEntry` | gpt3_client.py:167 | an entry is the text unchanged, a newline, twenty `=` and a newline |
| `Artifacts.EntryTextRecovers` | gpt3_client.py:167 | the text is recovered from its entry |
| `Artifacts.AppendKeepsPrefix` | gpt3_client.py:166-167 | appending runs to the text file keeps what was there as a prefix |
| `Artifacts.AppendOneMore` | gpt3_client.py:166-167 | the latest run's entry is the end of the file |
| `Artifacts.TempString` | gpt3_client.py:136 | same length as the printed temperature, each `.` turned into `_`, no `.` left |
| `Artifacts.DefaultTxtPath` | gpt3_client.py:164 | the default text path is `txt_output/`, the hash, `__`, the temperature text and `.txt`, at fixed positions |
| `Artifacts.TxtFileName` | gpt3_client.py:161-164 | a non-empty `output_txt` is used as it is; otherwise the path is `DefaultTxtPath` |
| `Artifacts.DefaultImgPath` | gpt3_client.py:142 | the default image path is `img_output/`, the timestamp, `__`, the hash, `__`, the temperature text and `.png`, at fixed positions |
| `Artifacts.ImgFileName` | gpt3_client.py:139-142 | a non-empty `output_img` is used as it is; otherwise the path is `DefaultImgPath` of the timestamp, hash and temperature |
| `Artifacts.DefaultTxtPathDetermines` | gpt3_client.py:164 | two runs share the default text file only when the prompt hash and the temperature text agree |
| `Artifacts.DefaultImgPathDetermines` | gpt3_client.py:142 | two runs share the default image file only when the timestamp, the prompt hash and the temperature text agree |
| `Artifacts.ImageHtml` | gpt3_client.py:148 | the HTML given to the image template has no newline left |
| `Artifacts.SingleLineHtmlUnchanged` | gpt3_client.py:148 | HTML without a newline is given unchanged |
| `Artifacts.NewlineBecomesBreak` | gpt3_client.py:148 | each newline becomes `</br>`, and the text on either side is handled on its own |
| `Artifacts.AccentParameter` | gpt3_client.py:149 | the accent parameter, not capped, reads back as the accent |
| `Text.ReplaceAll` | gpt3_client.py:148 | `str.replace` (also at lines 136 and 203), and `re.sub` with a pattern free of metacharacters and a replacement free of backslashes: every occurrence, left to right, without overlap; its meaning is stated by the four lemmas below |
| `Text.ReplaceAllAbsent` | gpt3_client.py:148 | a pattern that does not occur leaves the text unchanged |
| `Text.ReplaceCharPointwise` | gpt3_client.py:136 | replacing one character by another maps the text character by character |
| `Text.ReplaceAllRemovesChar` | gpt3_client.py:148 | replacing a character by a text free of it leaves no copy of it |
| `Text.ReplaceCharDistributes` | gpt3_client.py:148 | replacing a character distributes over concatenation |
| `Text.IntToString` | gpt3_client.py:185 | `str(n)` of an int is non-empty and made of digits and a minus sign |
| `Text.IntRoundTrip` | gpt3_client.py:185 | the printed number reads back as the number |
| `Text.HexPairValue` | gpt3_client.py:199 | `int(h[i:i+2], 16)` of two hex digits is below 256 |

## Left out

- The HTTP request (`httpx.stream`, `iter_text`, the headers, the timeout, lines 62-85): network I/O. The stream is the given sequence of chunk strings.
- `json.loads` and the dictionary lookups (lines 91-93): the `parse` parameter. Its frames have equal-length arrays (`AlignedFrame`). The code would raise `IndexError` mid-chunk if `token_logprobs` were shorter, and would ignore the surplus if it were longer. The model covers neither case.
- `codecs.escape_decode(...).decode("utf-8")` (line 114): the `decode` parameter. It is total, so the `UnicodeDecodeError` the code raises on a bad byte sequence is not modelled.
- `math.exp` (line 174): floating point. `prob` is passed as a real, and Python's float rounding is not modelled.
- The rich `Console` / `Text` printing, `clear`, the bold prompt span, the newline-dependent `end`, `export_html` and `console.line()` (lines 71-76, 119-128, 169): UI rendering. The model keeps the printed `(text, log-probability)` pairs in order.
- `BeautifulSoup` text extraction and `strip()` (lines 130-132): a foreign library. `TextEntry` takes the plain text as given.
- `hashlib.sha256` (line 135) and `datetime.now().strftime` (line 137): hashing and the clock. The hash is an opaque 8-character string. The timestamp is an opaque 15-character string, which is what `%Y%m%d_%H%M%S` prints for a four-digit year.
- `str(temperature)` of a float (line 136): `TempString` takes the already printed temperature.
- The `imgmaker` construction, `generate` call with its fixed template name, watermark and canvas size, and `close()` (lines 31-42, 144-158): an external process. Only the HTML and accent parameters are modelled.
- The file `open`/`write` (lines 166-167): file I/O. `AppendEntries` models the file's content as a string.
- The environment-variable check and the `stop` type assertion (lines 22-29, 60): environment and Python typing.
- `HexColors.ReplaceHexColors`: requires every found match to be `#` and six hex digits. Other matches make `int(..., 16)` raise, or are accepted by it. Accepted examples are pairs such as `+f` or ` f`, which `re.sub` then treats as a regular expression, and `##12345"`, where `lstrip` removes both `#` and the last pair is the single digit `5` (`rgb(18,52,5)`). The model excludes all of them.
- `Text.ReplaceAll`: equals `re.sub` only for a replacement without a backslash, which holds for every `rgb(r,g,b)` text the code passes. `re.sub` would expand escapes in another replacement.
- `Colour.Trunc`: its meaning (rounding toward zero) is stated by the lemma `Colour.TruncTowardZero`, not by its own `ensures`.
- `Reassembly.ReassembleChunk`: `temp_prob` starts each chunk at 0.0. In the code it keeps its value from the previous chunk (or is unbound). The value is read only while a non-empty fragment from the same chunk is held, so no output differs.
- gpt3.py: the `fire` command-line wrapper. It only builds the client and calls `generate`.
