# Audiobook text pipeline, modelled in Dafny

This project models the text pipeline of the audiobook generator's `app.py`, the part in front of the
language-model and speech services:

- the sentence split `re.split(r'(?<=[.!?]) +', text.strip())`;
- the greedy sentence packer, which appears twice: `chunk_text_by_sentences` with a bound of 3000 and
  `chunk_text_for_gtts` with `MAX_TTS_LENGTH` = 4000. Here it is one specification, `Chunking.Chunks`,
  parameterised by the bound, with one imperative loop that both entry points call;
- `clean_text_for_tts`;
- the storyteller decoration of each chunk;
- the accumulation loop of `rewrite_with_groq`;
- the synthesis and assembly loops of `convert_text_to_speech_gtts`.

The outside services are function parameters:

- `reply(i, chunk)` is the content the chat-completion service returns for chunk `i`, or `None` when the
  call raises.
- `synth(i, text)` is the duration in milliseconds of the audio file saved for chunk `i` spoken as `text`,
  or `None` when synthesis or saving raises.

Modules, one per file:

| module | file | models |
|---|---|---|
| `Text` | text.dfy | Python's whitespace class and `str.strip` |
| `SentenceSplit` | sentences.dfy | the sentence split and `" ".join` |
| `Chunking` | chunking.dfy | the greedy packer (a `for` loop proved against `Chunks`) and the greedy partition it computes |
| `Cleaning` | cleaning.dfy | `clean_text_for_tts` |
| `Storyteller` | storyteller.dfy | the decoration of lines 160-163 and its inverse |
| `Wrappers` | wrappers.dfy | `Option`, the outcome of a service call |
| `Rewrite` | rewrite.dfy | the loop of `rewrite_with_groq`, its progress reports and error reports |
| `Speech` | speech.dfy | the two loops of `convert_text_to_speech_gtts` and the resulting timeline |

Behaviour of app.py worth knowing, all of it modelled as written:

- Empty or whitespace-only text splits into the single sentence `""` and chunks into `[""]`, not into an
  empty sequence.
- Only runs of the space character `' '` after `.`, `!` or `?` split sentences; other whitespace does not.
- A failed rewrite call contributes nothing, not even a separating space. The progress bar moves only after
  a successful call, so it ends full exactly when the last chunk succeeded.

## Model

| member | source | states |
|---|---|---|
| Text.Strip | app.py:130 | `str.strip`: the result is no longer than the input and has no leading or trailing whitespace |
| Text.StripEmpty | app.py:130 | the stripped text is empty exactly when the input is all whitespace |
| Text.StripTight | app.py:130 | stripping leaves an already stripped string unchanged |
| Text.StripCut | app.py:88 | the stripped text is a contiguous slice of the input, and everything cut off on either side is whitespace |
| SentenceSplit.Split | app.py:88 | the split always yields at least one piece |
| SentenceSplit.SplitRoundTrip | app.py:88 | putting the dropped runs of spaces back between the pieces gives the input back exactly; every dropped run is a non-empty run of `' '` |
| SentenceSplit.SplitPiecesEndInStop | app.py:88 | every piece but the last is non-empty and ends in `.`, `!` or `?` |
| SentenceSplit.SplitPiecesHaveNoBreak | app.py:88 | no piece contains a space right after `.`, `!` or `?`: the text is cut at every such place |
| SentenceSplit.SplitPiecesStartAfterRun | app.py:88 | no piece after the first starts with a space: each cut consumes the whole run of spaces |
| SentenceSplit.SplitFirstIsPrefix | app.py:88 | the first piece is a prefix of the text |
| SentenceSplit.SplitLastIsSuffix | app.py:88 | the last piece is a suffix of the text |
| SentenceSplit.SplitLastEmpty | app.py:88 | the last piece is empty only when the text is empty or ends in a space |
| SentenceSplit.SplitPiecesComeFromText | app.py:88 | every character of a piece is a character of the text |
| SentenceSplit.SplitJoin | app.py:88 | on text without double spaces, `" ".join` of the pieces is the text |
| SentenceSplit.SplitTight | app.py:88 | a non-empty string without surrounding whitespace splits into non-empty pieces; the first starts and the last ends with a non-whitespace character |
| SentenceSplit.NonBlankSentences | app.py:134 | the sentences of text that is not all whitespace are non-empty, with non-whitespace at both outer ends |
| SentenceSplit.Sentences | app.py:88 | the stripped text always yields at least one sentence; `NonBlankSentences` and `BlankSentences` say which |
| SentenceSplit.BlankSentences | app.py:88 | whitespace-only text has the single sentence `""` |
| Chunking.PackSentences | app.py:89-97 | the packing loop computes `Chunks(sentences, maxLen)` |
| Chunking.ChunkText | app.py:88-98 | split and pack: the chunks are `Chunks(Sentences(text), maxLen)` |
| Chunking.ChunkTextBySentences | app.py:87-98 | `chunk_text_by_sentences` is the shared chunker with default bound 3000 |
| Chunking.ChunkTextForGtts | app.py:133-144 | `chunk_text_for_gtts` is the shared chunker with default bound 4000 |
| Chunking.GroupsAreGreedy | app.py:90-95 | the groups the packer forms cut the sentences into consecutive groups in order, covering every sentence once; a sentence joined a group only when buffer plus sentence stayed below the bound; a group was closed only when the next sentence did not fit |
| Chunking.PackedFollowsGroups | app.py:89-95 | the loop state after any prefix of the sentences mirrors the greedy groups: closed chunks are the stripped joined groups, and the buffer is the last group |
| Chunking.BufferNeverEmpty | app.py:96-97 | on non-empty sentences the buffer is never empty after the loop, so the final append always runs |
| Chunking.ChunksFollowGroups | app.py:89-97 | on non-empty sentences, the chunks are, one for one and in order, the greedy groups joined with `" "` and stripped |
| Chunking.ChunkBound | app.py:91-95 | a chunk longer than the bound is a single sentence emitted unsplit, and is never the first chunk |
| Chunking.OversizedFirstSentence | app.py:89-95 | when the first sentence reaches the bound, the first chunk is `""` and at least two chunks are produced |
| Chunking.BlankTextChunks | app.py:88-98 | empty or whitespace-only text gives exactly `[""]` |
| Chunking.RejoinChunks | app.py:89-97 | for sentences without surrounding whitespace, joining the non-empty chunks with `" "` equals joining the sentences with `" "`: nothing is dropped, duplicated or reordered |
| Cleaning.DropDisallowed | app.py:129 | removing the characters outside `[\w\s.,!?;:()"']` never lengthens the text |
| Cleaning.DroppedKept | app.py:129 | only characters of `[\w\s.,!?;:()"']` remain |
| Cleaning.DroppedCounts | app.py:129 | each character of the class remains as often as it occurred |
| Cleaning.DropChar | app.py:129 | a single character stays exactly when it belongs to the class |
| Cleaning.DropAppend | app.py:129 | the removal distributes over concatenation, so the remaining characters keep their order |
| Cleaning.CollapseSpaces | app.py:130 | the result is no longer than the input; a leading whitespace run becomes one space and any other first character is kept |
| Cleaning.CollapsedSpaces | app.py:130 | after collapsing, the only whitespace left is `' '`, never twice in a row |
| Cleaning.CollapsedCounts | app.py:130 | collapsing keeps the count of every character that is not whitespace |
| Cleaning.CollapseAppend | app.py:130 | collapsing distributes over a cut just after a non-whitespace character, so the text between whitespace runs is kept in order |
| Cleaning.CollapseRun | app.py:130 | a whole whitespace run, of any length and any whitespace characters, followed by the end or by a non-whitespace character, becomes exactly one `' '` |
| Cleaning.CleanTextForTts | app.py:128-131 | the cleaned text is never longer than the input; its content is fixed by the three steps' laws above and the strip lemmas, and its shape by `CleanedForm` |
| Cleaning.CleanedForm | app.py:128-131 | cleaned text holds only kept characters, has `' '` as its only whitespace, has no two adjacent spaces, and has no leading or trailing whitespace |
| Cleaning.CleanedCounts | app.py:128-131 | every kept non-whitespace character of the input occurs in the cleaned text exactly as often |
| Cleaning.CleanFormIsFixed | app.py:128-131 | text already in clean form is returned unchanged |
| Cleaning.CleanIdempotent | app.py:128-131 | cleaning twice is cleaning once |
| Cleaning.RejoinCleanText | app.py:133-144 | chunking text in clean form loses only separators: the non-empty chunks joined with `" "` give the text back, whatever the bound |
| Cleaning.CleanedChunksRejoin | app.py:151-152 | the speech chunks of any input, joined with `" "` after dropping empty ones, are exactly the cleaned text |
| Storyteller.AddStops | app.py:161 | each space after `.`, `!` or `?` adds one character; the last character is unchanged |
| Storyteller.AddStopsKeepsCommas | app.py:161 | adding the stops leaves the number of commas unchanged |
| Storyteller.AddStopsLands | app.py:161 | character `j` lands at `j` plus the number of earlier breaks: the stopped text begins with the stopped first `j` characters, then `". "` for a space after `.`, `!` or `?` and the character itself otherwise |
| Storyteller.AddStopsRoundTrip | app.py:161 | adding the stops loses nothing: the inverse gives the chunk back |
| Storyteller.SpaceCommas | app.py:162 | the result is one character longer per comma and never ends in a comma |
| Storyteller.SpaceCommasLands | app.py:162 | character `j` lands at `j` plus the number of earlier commas: the spaced text begins with the spaced first `j` characters, then `", "` for a comma and the character itself otherwise |
| Storyteller.SpaceCommasRoundTrip | app.py:162 | spacing the commas loses nothing: the inverse gives the text back |
| Storyteller.Decorate | app.py:160-163 | the decorated chunk ends in `" ..."`, and its length is the chunk's length plus the number of spaces after `.`, `!` or `?`, plus the number of commas, plus 4 |
| Storyteller.DecorateRoundTrip | app.py:160-163 | undoing the decoration gives the chunk back |
| Storyteller.DecorateInjective | app.py:160-163 | distinct chunks are decorated into distinct texts |
| Rewrite.RewriteChunks | app.py:102-120 | the loop's text, progress reports and error reports are `Rewritten`, `Progress` and `Errors` of the chunks and the service outcomes |
| Rewrite.RewriteWithGroq | app.py:100-121 | the whole function: chunks with bound 3000, then the loop above |
| Rewrite.RewrittenJoinsReplies | app.py:115-116 | the rewritten text is the stripped replies of the successful calls, in chunk order, joined with single spaces and followed by one space; it is empty when every call failed; a failed chunk contributes nothing |
| Rewrite.RepliesFollowProgress | app.py:115-117 | there is one reply per progress report after the first, and reply `k` is the stripped content returned for the chunk that report `k + 1` counts |
| Rewrite.ProgressReports | app.py:103-117 | progress starts at 0 and increases strictly; the value `k` is reported exactly when chunk `k - 1` succeeded; no value exceeds the chunk count |
| Rewrite.ProgressEndsFull | app.py:117 | the bar ends full exactly when the last chunk succeeded |
| Rewrite.ErrorReports | app.py:118-119 | the error numbers increase strictly and are exactly the numbers, counted from 1, of the failed chunks; successes plus errors equal the chunk count |
| Speech.ConvertChunksToSpeech | app.py:155-178 | the errors are `SpeechErrors` of the chunks; the result is `None` exactly when no clip was saved, and otherwise the timeline of the saved clips |
| Speech.ConvertTextToSpeechGtts | app.py:146-182 | the whole function: clean, chunk with bound 4000, then the loops above |
| Speech.Spoken | app.py:159-163 | without storyteller mode the chunk is spoken as it is; with it, the spoken text ends in `" ..."` (`Storyteller.Decorate` says the rest) |
| Speech.SpokenRoundTrip | app.py:160-163 | the chunk can be recovered from the text handed to the synthesiser, in either mode |
| Speech.SavedClips | app.py:157-167 | the saved clips are the speech of the chunks whose synthesis succeeded, each of them once, in chunk order, each holding the text that was spoken |
| Speech.SpeechErrorReports | app.py:157-169 | every chunk is saved or reported, never both; the error numbers, counted from 1, are exactly the failed chunks |
| Speech.NoAudio | app.py:171-173 | no audio is produced exactly when every synthesis failed |
| Speech.TimelineShape | app.py:175-178 | the final audio alternates the saved clips, in order, with 700 ms pauses |
| Speech.TimelineDuration | app.py:176-178 | the final audio lasts the sum of the clip durations plus 700 ms per clip |
| Speech.AllSaved | app.py:157-167 | when every synthesis succeeds, every chunk is saved, in order |
| Speech.HeardAllSaved | app.py:157-167 | when every synthesis succeeds, undoing the decoration of the saved clips gives back the chunks, one for one and in order |
| Speech.NarrationCoversText | app.py:151-178 | when every synthesis succeeds, the chunks heard, with the decoration undone and empty ones skipped, joined with `" "`, are exactly the cleaned text |

## Left out

- The Streamlit interface, session state, background image and chat panel are not modelled: they are presentation, not logic.
- Text extraction from URLs, PDF and DOCX files is not modelled: it is a thin wrapper over outside libraries.
- The overlapping-window chunker `chunk_text` of `import os.py` is not modelled: app.py does not use it (only the variant application in `import os.py` calls it).
- `test_rewrite.py` is not modelled: it is a one-off script that calls an outside API.
- The Groq client, the gTTS engine, `tts.save`, `AudioSegment.from_mp3`, `export` and the temporary paths become the outcome parameters `reply` and `synth`.
  - The request settings are not modelled. These are the model name, the system prompt, temperature 0.7, `max_tokens` 4096, the language and `slow=True`.
  - A reply whose content is missing counts as a failed call.
  - The returned file path is replaced by the assembled clip sequence it would contain.
- Speech.ConvertChunksToSpeech: an exception raised by `AudioSegment.from_mp3` while assembling is not caught by the source and is not modelled. `synth` reports a saved file together with its duration.
- Rewrite.RewriteChunks: progress is a count of finished chunks; the fraction shown is that count over the number of chunks. The label text and `progress_bar.empty()` are not modelled, and error messages are reduced to the chunk numbers they name.
- Cleaning.IsWord: `\w` is modelled as ASCII letters, digits and `_`. Python matches every Unicode letter and digit, so the model drops non-ASCII letters that the source keeps.
