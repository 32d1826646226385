# ArmTTS in Dafny

A model of the text-to-speech core of ArmTTS, the Armenian TTS library for iOS, with proofs about it.

- **Chunker (`chunker.dfy`).** This is `ArmTTS.tokenize(text:)`. It rewrites sentence-ending marks (`;`, `։`, `․`, `.`) to `:` and comma-like marks (`՝`, backtick) to `,`. It then peels off chunks of at most `MAX_LENGTH` = 140 characters:
  - it cuts after the rightmost `:` in the first 140 characters;
  - else after the rightmost `,`;
  - else at the leftmost space, where it appends a synthetic `,`.

  A remainder of at most 140 characters is emitted trimmed. The method `Tokenize` keeps the source's `while` loop. It is proved against the recursive specification `Split`/`Chunks`, and the lemmas state bounds, priority, boundary endings, content preservation and termination about that specification.
- **Speaker (`speaker.dfy`).** This covers the `ArmTTS` class:
  - its `isInitialized` flag, `init?` and `checkInit`;
  - the `ProcessResult` record and the way `process` classifies the service's reply;
  - `speak(text:speed:)`, which chunks the text, processes each chunk in order, stops at the first rejected chunk, and otherwise plays the concatenated synthesised audio once.

  The HTTP request and the ONNX synthesis are parameters: `fetch` maps a chunk to the decoded reply (None when the request yields no data) and `synthesize` maps ids and a speed to audio bytes. `play` is the `Played(audio)` outcome.
- **Text (`text.dfy`).** Character helpers the chunker uses:
  - Foundation's `.whitespacesAndNewlines` class, written out;
  - `trimmingCharacters(in:)`;
  - backwards and forwards single-character search in a prefix;
  - concatenation of a list of strings.
- **Demo (`demo.dfy`).** The demo app's `String.trunc(length:trailing:)`.
- **Wrappers (`wrappers.dfy`).** The `Option` type.

Where `tokenize` would loop forever, `Tokenize` stops and returns `Stuck(tokens, rest)` with the text the source spins on. This happens when no `:`, `,` or space lies in the first 140 characters of an over-long remainder. `speak` then reports `TokenizerSpins`.

## Model

| member | source | states |
|---|---|---|
| Chunker.Normalize | ArmTTS/Classes/ArmTTS.swift:132-135 | maps each of `; ։ ․ .` to `:` and `՝`, backtick to `,`, leaves every other character unchanged and keeps the length |
| Chunker.NormalizeIsIdempotent | ArmTTS/Classes/ArmTTS.swift:132-135 | no full stop or comma-like mark survives normalisation, and normalising twice equals normalising once |
| Chunker.Split | ArmTTS/Classes/ArmTTS.swift:137-154 | the loop as a recursion over the remaining text: the number of pieces plus the length of the remainder is at most the length of the text (every piece takes at least one character), and the loop only stops early on a remainder longer than 140 characters |
| Chunker.SplitAt | ArmTTS/Classes/ArmTTS.swift:142-153 | one cut step followed by the rest of the loop, with the same bounds as `Split` |
| Chunker.Chunks | ArmTTS/Classes/ArmTTS.swift:130-157 | the tokens `tokenize` returns: never more tokens than characters, and a text it spins on is longer than 140 characters |
| Chunker.FindCut | ArmTTS/Classes/ArmTTS.swift:141-153 | a cut chosen on an over-long text lies inside the 140-character window, on the boundary character of its kind |
| Chunker.FindCutFinds | ArmTTS/Classes/ArmTTS.swift:141-154 | one of the three branches fires exactly when the window holds `:`, `,` or a space |
| Chunker.FindCutPriority | ArmTTS/Classes/ArmTTS.swift:141-153 | the cut is at the rightmost `:` of the window if there is one; else at the rightmost `,`; else at the leftmost space |
| Chunker.SplitShape | ArmTTS/Classes/ArmTTS.swift:137-154 | every consumed piece has 1..140 characters; each cut piece ends at its boundary and pauses exactly when cut at a space; the loop stops early only on an over-long text whose window holds no boundary |
| Chunker.SplitCovers | ArmTTS/Classes/ArmTTS.swift:142-153 | the consumed raw prefixes, followed by the remainder, concatenate back to the normalised text in order |
| Chunker.ChunksAreBounded | ArmTTS/Classes/ArmTTS.swift:138-152 | every emitted chunk, space-cut chunks with their `,` included, has at most 140 characters |
| Chunker.ChunksEndWithBoundary | ArmTTS/Classes/ArmTTS.swift:143-151 | every chunk produced by a cut ends with `:` or `,`: the very mark a `:` or `,` cut was made at, or the synthetic pause after a space cut |
| Chunker.ChunksKeepVisible | ArmTTS/Classes/ArmTTS.swift:142-152 | the chunks hold exactly the non-whitespace characters of the consumed pieces, in order, plus one `,` after each space cut |
| Chunker.ChunksKeepText | ArmTTS/Classes/ArmTTS.swift:137-154 | with no space cut, the chunks followed by the remainder hold exactly the non-whitespace characters of the text, in order |
| Chunker.NeverStuck | ArmTTS/Classes/ArmTTS.swift:137-154 | when every over-long remainder has a boundary in its window, the loop finishes |
| Chunker.UnbreakableTextSpins | ArmTTS/Classes/ArmTTS.swift:137-154 | an over-long text with no boundary in its window emits nothing and the loop makes no progress on it |
| Chunker.ShortText | ArmTTS/Classes/ArmTTS.swift:137-140 | empty text gives no chunk; a text of 1..140 characters gives exactly its trim |
| Chunker.BlankTextGivesEmptyChunk | ArmTTS/Classes/ArmTTS.swift:138-140 | blank chunks are not filtered: a short all-whitespace text gives the single chunk "" |
| Chunker.LeadingSpaceGivesLoneComma | ArmTTS/Classes/ArmTTS.swift:149-153 | an over-long remainder that starts with a space and has no `:` or `,` in its window yields the chunk "," |
| Chunker.Tokenize | ArmTTS/Classes/ArmTTS.swift:130-157 | the loop's tokens equal the chunks of the normalised text (or `Stuck` where the source spins); each chunk has at most 140 characters; empty text gives no chunks and short text its trim |
| Text.Trim | ArmTTS/Classes/ArmTTS.swift:139 | the trimmed text is no longer than the text and neither starts nor ends with whitespace |
| Text.TrimIsInfix | ArmTTS/Classes/ArmTTS.swift:139 | the trimmed text is the infix of the text between a whitespace-only head and a whitespace-only tail, so the whitespace between words is kept |
| Text.IsWhitespace | ArmTTS/Classes/ArmTTS.swift:139 | the `.whitespacesAndNewlines` class holds space, tab, line feed and carriage return, and neither `:` nor `,`, so trimming never removes a cut's boundary mark |
| Text.TrimKeepsVisible | ArmTTS/Classes/ArmTTS.swift:139 | trimming removes whitespace only |
| Text.LastIndexBefore | ArmTTS/Classes/ArmTTS.swift:141-142 | a found position lies in the prefix and holds the searched character |
| Text.LastIndexBeforeIsLast | ArmTTS/Classes/ArmTTS.swift:141-142 | the backwards search finds nothing exactly when the prefix lacks the character, and otherwise no later occurrence exists in the prefix |
| Text.FirstIndexIn | ArmTTS/Classes/ArmTTS.swift:149-150 | a found position lies in the range and holds the searched character |
| Text.FirstIndexInIsFirst | ArmTTS/Classes/ArmTTS.swift:149-150 | the forward search finds nothing exactly when the range lacks the character, and otherwise no earlier occurrence exists |
| Text.FlattenConcat | ArmTTS/Classes/ArmTTS.swift:142-153 | concatenating the concatenations of two lists equals concatenating the joined list; it puts the consumed pieces back together, and also the audio appended at line 190 |
| Speaker.Classify | ArmTTS/Classes/ArmTTS.swift:233-244 | rc is 0 or -1; rc is -1 exactly when a reply came without ids; then the sequence is empty and the message is the reply's or ""; on success the message is "" and the sequence is the reply's ids, or empty when no data came |
| Speaker.Process | ArmTTS/Classes/ArmTTS.swift:195-251 | `process` returns a `ProcessResult` with rc 0 or -1; it fails exactly when a reply arrives without ids, and on success its message is empty |
| Speaker.NetworkErrorLooksLikeEmptyReply | ArmTTS/Classes/ArmTTS.swift:233-237 | a request that yields no data is classified like a reply with an empty id list |
| Speaker.FirstFailure | ArmTTS/Classes/ArmTTS.swift:184-189 | finds the first result with rc ≠ 0, or nothing exactly when every result has rc 0 |
| Speaker.Speech | ArmTTS/Classes/ArmTTS.swift:182-192 | speaking chunks either fails at a chunk of the list, with the message `process` gave for it, or plays audio |
| Speaker.SpeechFailsAtFirstRejection | ArmTTS/Classes/ArmTTS.swift:184-189 | speaking fails at chunk i exactly when i is the first chunk the service rejects, with that chunk's message |
| Speaker.SpeechPlaysWhenAllAccepted | ArmTTS/Classes/ArmTTS.swift:184-192 | audio is played exactly when every chunk is accepted; with no chunks, empty audio is played |
| Speaker.SpeechExtends | ArmTTS/Classes/ArmTTS.swift:190 | accepting one more chunk appends its synthesised audio to what is played |
| Speaker.ArmTTS.constructor | ArmTTS/Classes/ArmTTS.swift:118 | a successfully created instance is initialised |
| Speaker.ArmTTS.Load | ArmTTS/Classes/ArmTTS.swift:101-128 | `init?` gives nil exactly when the model cannot be loaded, otherwise a new initialised instance |
| Speaker.ArmTTS.CheckInit | ArmTTS/Classes/ArmTTS.swift:33-38 | 0 exactly when initialised, 1 otherwise |
| Speaker.ArmTTS.Speak | ArmTTS/Classes/ArmTTS.swift:176-193 | uninitialised: nothing is sent or played; otherwise the outcome is the speech of the tokenised chunks, and the chunks sent to `process` are those up to the first rejected one, or all of them |
| Speaker.ArmTTS.SpeakChunks | ArmTTS/Classes/ArmTTS.swift:182-192 | the loop's outcome is the speech of the chunks (first rejection, or all audio concatenated in chunk order and played once), and it sends the chunks up to the first rejection |
| Demo.Trunc | Example/ArmTTS_Demo/ContentView.swift:5-7 | a text of at most `length` characters is returned unchanged; a longer one becomes its first `length` characters followed by `trailing`, `length + trailing.count` characters in all |
| Demo.TruncDefaultIsPrefix | Example/ArmTTS_Demo/ContentView.swift:5-7 | with the default empty trailing text the result is a prefix of min(count, length) characters |
| Demo.TruncIsIdempotent | Example/ArmTTS_Demo/ContentView.swift:5-7 | truncating the result again with the same arguments returns it unchanged, for any trailing text |

## Left out

- The HTTP request in `process` is not modelled: the multipart body, the UUID boundary, URLSession, the semaphore and the API key header. The reply is the `fetch` parameter, already decoded into its `ids` and `message` fields.
- The `try!` and `as!` in `process`, which crash on a reply that is not a JSON object, are not modelled; `fetch` only returns well-formed replies.
- `synthesize`, `makeInputTensor`, `makeInputLengthsTensor` and `makeScales` (ONNX Runtime calls and Float32 tensors) are not modelled. `synthesize` is the parameter of the same name.
- `play` (CoreMedia buffers, the renderer and `SAMPLE_RATE`) is not modelled. Playing is the `Played(audio)` outcome.
- `printError` output is not modelled.
- Speaker.ArmTTS.Load: models `init?` by whether the model loads. It leaves out the bundle lookups, which end in `fatalError`, and the ORT environment.
- The speed is a `real`, and `2 - speed` is exact rather than Float arithmetic. The default speed of 1.0 and the demo's slider range are not modelled.
- Characters are Dafny `char`s, not Swift grapheme clusters. `String.count`, `prefix` and the UTF-16 `NSRange` of the regex calls therefore all count the same units here.
- Chunker.Tokenize: where the source loops forever, the model returns `Stuck(tokens, rest)` instead of diverging, and `Speak` reports `TokenizerSpins`.
- `tokenize` has no fallback cut when the window holds no `:`, `,` or space. It searches forward for the leftmost space and does not filter blank chunks. The model follows it in all three respects.
- Demo.Trunc: a negative `length`, on which Swift's `prefix` traps, is excluded because `length` is a natural number.
- The SwiftUI view and its `ObservableObject` state are not modelled.
