# yshorts: the voice-over and subtitle core, in Dafny

yshorts turns a video into a narrated short. Gemini describes the video,
ElevenLabs reads the description aloud phrase by phrase, and ffmpeg burns
matching SubRip subtitles into the video. This project models the
deterministic core of `VideoPipeline` (`src/pipeline.py`) and proves its
properties:

- `_smart_text_splitter`, in `splitter.dfy`. It replaces newlines with
  spaces and cuts after every `.`, `!`, `?` or `,`. It packs the fragments
  greedily into chunks of at most 45 characters and breaks over-long
  fragments at word boundaries. A single word longer than the limit
  becomes a chunk of its own, over the limit. The model follows the code without
  simplifying it. Prefix-fold functions specify the source's two loops.
  `PackFragments` holds the two loops themselves, proved equal to those
  functions. `SmartTextSplitter` is the method that blanks the newlines,
  cuts the fragments and calls it.
- `_format_srt_time`, in `srt_time.dfy`. It truncates to whole seconds and
  milliseconds as Python's `int()` does, splits with `//` and `%` by 60, and
  prints `HH:MM:SS,mmm` with Python's sign-aware zero padding.
- The loop of `generate_audio_and_srt`, in `timeline.dfy`:
  - each chunk is sent to speech synthesis with its neighbours as context;
  - its file path is recorded, even when the duration probe gives 0;
  - a cue is written from the time cursor for every chunk with a non-zero
    duration;
  - the cursor then moves past the cue and a 0.1 s pause;
  - the first exception ends the loop.
- The artifact names and the ffmpeg concat list, in `artifacts.dfy`, and the
  early exits and returned pair, in `pipeline.dfy`.

Speech synthesis together with the ffprobe duration probe is one injected
function, `tts: SpeechRequest -> Speech`. `SpeechFailed` stands for an
exception from the API call or from saving the file. `Spoken(d)` is the
probed duration; a failed probe reads as `0.0`, as `_get_audio_duration`
returns. Whether ffmpeg's concatenation succeeds is a boolean input, and
whether the API key is set is the constructor's argument. The files the
source writes (the `.srt` file and the concat list) are returned as
strings. Times are exact reals rather than floats.

`strings.dfy` holds the Python string built-ins the core relies on:
`str.isspace` (Python's `str.isspace` set), `strip`, `split()`, `str(n)`
and zero padding. The core's only join, `"".join(i)` over a pair, is plain
concatenation (`Splitter.ZipJoin`). `strings.dfy` also defines joining
with single spaces (`Join`, `Glue`). The core never calls it: it is the
language the rejoin lemmas are stated in (`SplitTextRejoins`,
`LongPiecesRejoin`, `PackPhrasesJoin`). `wrappers.dfy` holds `Option`.

The splitter behaves as follows at its edges, and the model follows it:

- Non-blank text without `.`, `!`, `?` or `,` gives no chunk, and
  `generate_audio_and_srt` then returns `(None, None)` before any
  synthesis.
- The `zip` drops whatever follows the last mark.
- A fragment longer than the limit has its word pieces emitted before the
  chunk still pending in `current_chunk`. The output is then not in text
  order. No word of a fragment is lost: the chunks merge two streams, each in
  text order (`Splitter.SplitTextStreams`).
- The packing joins short fragments, so `"Рассвет наступил. Город
  проснулся, шумный и яркий."` gives `["Рассвет наступил. Город проснулся,",
  "шумный и яркий."]` (`Splitter.DawnExample`).

## Model

| member | source | states |
|---|---|---|
| Splitter.SmartTextSplitter | src/pipeline.py:155-201 | the splitter's result is `SplitText(text, maxChars)`; every chunk is non-empty and well formed; no chunk comes back exactly when the text has no `.!?,` mark |
| Splitter.PackFragments | src/pipeline.py:169-198 | the outer loop over the fragments, with its inner loop over a long fragment's words, computes `PackedChunks` |
| Splitter.SplitTextChunksOk | src/pipeline.py:161-201 | every chunk is non-empty, has no leading or trailing whitespace and no `'\n'`, and is at most `maxChars` long unless it is a single word |
| Splitter.SplitTextEmptyIff | src/pipeline.py:164-167 | the splitter returns `[]` if and only if the text holds none of `.`, `!`, `?`, `,` |
| Splitter.SplitTextIgnoresTail | src/pipeline.py:164-166 | appending mark-free text after the last mark changes no chunk |
| Splitter.SplitText | src/pipeline.py:155-201 | definition of `_smart_text_splitter`: blank the newlines, cut into fragments, pack; properties in `SplitTextChunksOk`, `SplitTextEmptyIff`, `SplitTextStreams` |
| Splitter.SplitTextRejoins | src/pipeline.py:172-201 | when no fragment exceeds the limit, the chunks joined with spaces are the fragments joined with spaces: nothing is lost or reordered |
| Splitter.SplitTextStreams | src/pipeline.py:164-201 | for every text, the chunks merge, each in order, the chunks of packing the fragments within the limit alone and the word pieces of the longer fragments; the first rejoin to those fragments and the second to the longer fragments' words |
| Splitter.Shorts | src/pipeline.py:172-173 | definition: the fragments that fit the limit, in order; properties in `ShortsOne`, `ShortsAppend`, `PackPhrasesStreams` |
| Splitter.ShortsOne | src/pipeline.py:172-173 | one fragment is kept exactly when it fits the limit |
| Splitter.ShortsAppend | src/pipeline.py:172-173 | the short fragments of two lists one after the other are those of the first followed by those of the second: each fragment is kept or dropped on its own, in order |
| Splitter.LongPieces | src/pipeline.py:172-184 | definition: the non-empty word pieces of the fragments over the limit, in order; properties in `PackedChunksStreams`, `LongPiecesRejoin` |
| Splitter.LongWords | src/pipeline.py:172-175 | definition: the words of the fragments over the limit, in order, the reference `LongPiecesRejoin` compares with |
| Splitter.Interleaving | src/pipeline.py:172-198 | definition: a merge of two lists that keeps the order within each; properties in `InterleavingCounts` |
| Splitter.InterleavingCounts | src/pipeline.py:172-198 | a merge is as long as its two lists together and holds each element as often as they do |
| Splitter.PackPhrasesStreams | src/pipeline.py:172-194 | a long fragment never touches `current_chunk`: the loop over all fragments has the `current_chunk` of the loop over the short ones alone, and its flushed chunks merge that loop's with the long fragments' pieces |
| Splitter.PackedChunksStreams | src/pipeline.py:172-201 | after the final flush and the empty filter, the chunks merge those of packing the short fragments alone with the long fragments' pieces |
| Splitter.LongPiecesRejoin | src/pipeline.py:174-184 | the long fragments' pieces, rejoined with single spaces, are their words joined with single spaces |
| Splitter.Fragments | src/pipeline.py:164-167 | definition: `re.split` with the capture group, the strided `zip`, `strip` and the empty filter; properties in `FragmentsShape`, `PairsOfSplit` |
| Splitter.WrapWords | src/pipeline.py:176-182 | definition of the inner loop over a long fragment's words; properties in `WrapWordsShape`, `WrapWordsJoin` |
| Splitter.SplitLongPhrase | src/pipeline.py:174-184 | definition: the inner loop's pieces and the stripped rest of `temp_line`; properties in `SplitLongPhraseOk` |
| Splitter.PackStep | src/pipeline.py:172-194 | definition of one turn of the outer loop; properties in `PackPhrasesShape`, `PackPhrasesJoin`, `GreedyPair` |
| Splitter.PackPhrases | src/pipeline.py:169-194 | definition of the outer loop from `final_chunks = []` and `current_chunk = ""`; properties in `PackPhrasesShape`, `PackPhrasesProgress`, `PackPhrasesStreams` |
| Splitter.Flush | src/pipeline.py:196-201 | definition: flush a non-empty `current_chunk`, then drop empty chunks; properties in `PackedChunksOk` |
| Splitter.PackedChunks | src/pipeline.py:169-201 | definition: the outer loop followed by the flush; properties in `PackedChunksOk`, `PackedChunksEmptyIff`, `PackedChunksStreams` |
| Splitter.GreedyPair | src/pipeline.py:186-198 | two short fragments share a chunk, joined by one space, if and only if `len(a) + len(b) + 1 <= maxChars`; otherwise the first is flushed on its own |
| Splitter.GreedyTriple | src/pipeline.py:186-198 | three short fragments where the first two fit together and the third does not fit after them give the first two joined by a space, then the third |
| Splitter.ThreeSentences | src/pipeline.py:161-201 | a newline-free text of three stripped sentences, each with one mark at its end, separated by single spaces, packs as `GreedyTriple` says |
| Splitter.DawnExample | src/pipeline.py:155-201 | `"Рассвет наступил. Город проснулся, шумный и яркий."` with 45 characters gives `["Рассвет наступил. Город проснулся,", "шумный и яркий."]` |
| Splitter.LongFragmentOvertakes | src/pipeline.py:172-198 | a long fragment's word pieces are output before the pending short fragment, which comes last |
| Splitter.SplitLongPhraseOk | src/pipeline.py:174-184 | the word pieces of a long fragment are well formed, lose no word, and are not all empty when the fragment has a word |
| Splitter.WrapWordsShape | src/pipeline.py:177-182 | the inner loop keeps `temp_line` on one line and within the limit unless it is one word; every flushed piece is well formed |
| Splitter.WrapWordsJoin | src/pipeline.py:177-183 | the inner loop loses no word: the flushed pieces glued to the stripped `temp_line` are the words seen so far |
| Splitter.PackPhrasesShape | src/pipeline.py:172-194 | the outer loop keeps `current_chunk` stripped, on one line and within the limit, and every flushed chunk well formed |
| Splitter.PackPhrasesProgress | src/pipeline.py:172-198 | after at least one fragment, something is pending or something non-empty was flushed |
| Splitter.PackPhrasesJoin | src/pipeline.py:172-198 | with short fragments only, the flushed chunks glued to `current_chunk` are the fragments seen so far |
| Splitter.PackedChunksOk | src/pipeline.py:196-201 | the final flush and the empty filter give non-empty, well-formed chunks |
| Splitter.PackedChunksEmptyIff | src/pipeline.py:196-201 | packing gives no chunk exactly when there is no fragment |
| Splitter.PackedChunksRejoin | src/pipeline.py:186-201 | packing short fragments preserves their text and order |
| Splitter.FragmentsShape | src/pipeline.py:164-167 | there are as many fragments as marks; each is the stripped text up to and including its mark, holds no other mark, and is on one line when the text is |
| Splitter.FragmentsIgnoreTail | src/pipeline.py:164-166 | text after the last mark produces no fragment |
| Splitter.PairsOfSplit | src/pipeline.py:164-166 | zipping the even and odd parts of `re.split` with a capture group gives each stretch of text up to and including its mark |
| Splitter.SplitOnMarks | src/pipeline.py:164 | `re.split(r'([.!?,])')` gives `2 m + 1` parts for `m` marks, and concatenating them gives back the text |
| Splitter.Pairs | src/pipeline.py:166 | `zip(parts[0::2], parts[1::2])` joins part `2 i` with part `2 i + 1`, one pair per mark |
| Splitter.MarkedStretches | src/pipeline.py:164-166 | one stretch per mark, each ending in its mark with no other mark before it; properties in `PairsOfSplit`, `StretchesAfterMark` |
| Splitter.StretchesAfterMark | src/pipeline.py:164-166 | text cut just after a mark has the stretches of the part before the cut followed by those of the part after it |
| Splitter.StretchesOfStretch | src/pipeline.py:164-166 | text with one mark, at its end, is a single stretch |
| Splitter.IsMark | src/pipeline.py:164 | definition of the character class `[.!?,]`; properties in `MarkIsNotSpace`, `SplitOnMarks`, `SplitTextEmptyIff` |
| Splitter.MarkIsNotSpace | src/pipeline.py:164-166 | no mark is whitespace, so `strip` keeps a fragment's mark |
| Splitter.Stride | src/pipeline.py:166 | definition of `parts[start::2]`; properties in `Pairs` |
| Splitter.ZipJoin | src/pipeline.py:166 | definition of joining the pairs of `zip`, stopping at the shorter list; properties in `Pairs` |
| Splitter.StripAll | src/pipeline.py:166 | definition of `p.strip()` over every pair, position by position; properties in `FragmentsAreStrippedStretches`, `FragmentsShape` |
| Splitter.FragmentsAreStrippedStretches | src/pipeline.py:164-167 | the fragments are the marked stretches of the text, each stripped |
| Strings.Strip | src/pipeline.py:166 | definition of `str.strip()`: no whitespace at either end; properties in `StripSlice`, `StripEmptyIff` |
| Strings.StripSlice | src/pipeline.py:166 | `str.strip()` is a slice of its input with only whitespace before and after it; not starting or ending with whitespace, it removes as much as it can |
| Strings.StripEmptyIff | src/pipeline.py:167 | a stripped string is empty exactly when the input is all whitespace |
| Strings.Words | src/pipeline.py:175 | `str.split()` gives non-empty words without whitespace, and none exactly when the input is all whitespace; properties in `WordsSplitAt`, `WordsOfWord` |
| Strings.WordsSplitAt | src/pipeline.py:175 | a whitespace character splits the words: the words of `s + [c] + t` are those of `s` followed by those of `t` |
| Strings.WordsAppend | src/pipeline.py:175 | the words of `s + r`, with `r` starting with whitespace, are those of `s` followed by those of `r` |
| Strings.WordsOfWord | src/pipeline.py:175 | a non-empty string without whitespace is its one word |
| Strings.IsSpace | src/pipeline.py:166-175 | definition of Python's `str.isspace()` for one character, as ranges of code points; properties in `SpaceAndNewlineAreSpace`, `PrintableNotSpace`, `LettersNotSpace` |
| Strings.SpaceAndNewlineAreSpace | src/pipeline.py:161-175 | the space and the newline are whitespace |
| Strings.PrintableNotSpace | src/pipeline.py:166-175 | no ASCII character from `!` to U+0084 is whitespace |
| Strings.LettersNotSpace | src/pipeline.py:166-175 | no character from U+00A1 to U+167F, Cyrillic letters included, is whitespace |
| Strings.ReplaceNoNewline | src/pipeline.py:161 | a text without newlines is left unchanged |
| Strings.ZeroPad | src/pipeline.py:137 | definition of the `0` fill of a format spec; properties in `PadIntValue`, `PadIntShort` |
| Strings.ReplaceNewlines | src/pipeline.py:161 | `replace('\n', ' ')` keeps the length, keeps every character that is not a newline, turns every newline into a space, and leaves no newline |
| Strings.NonEmpty | src/pipeline.py:201 | the filter keeps only non-empty strings, drawn from the input, and keeps everything when nothing is empty |
| Strings.Decimal | src/pipeline.py:247 | `str(n)` is one or more digits denoting `n`, with no leading zero |
| Strings.DecimalInjective | src/pipeline.py:247 | distinct numbers print differently |
| SrtTime.Trunc | src/pipeline.py:131-132 | `int(x)` is the floor for `x >= 0` and rounds toward zero for negative `x` |
| SrtTime.Decompose | src/pipeline.py:130-136 | minutes and seconds lie in `0..59` for any time |
| SrtTime.DecomposeFields | src/pipeline.py:129-137 | for `t >= 0`: hours are `floor(t) div 3600`, unwrapped; `h*3600 + m*60 + s == floor(t)`; milliseconds lie in `0..999` and are the truncated fraction |
| SrtTime.DecomposeMillis | src/pipeline.py:131-132 | for `t >= 0` the timestamp denotes `t` truncated to whole milliseconds |
| SrtTime.DecomposeMonotone | src/pipeline.py:129-137 | a later non-negative time never gets an earlier timestamp |
| SrtTime.PadIntValue | src/pipeline.py:137 | a non-negative field padded to width `w` is all digits, reads back as the field, and is `w` long or the numeral's length |
| SrtTime.PadIntShort | src/pipeline.py:137 | fields below 100 fill exactly two characters and below 1000 exactly three |
| SrtTime.FormatParses | src/pipeline.py:129-137 | the timestamp of a non-negative time parses back, as `H+:MM:SS,mmm`, to exactly its four fields |
| SrtTime.PadInt | src/pipeline.py:137 | definition of `f"{n:0w}"` with the sign before the zeros; properties in `PadIntValue`, `PadIntShort`, `PadIntNoNewline` |
| SrtTime.PadIntNoNewline | src/pipeline.py:137 | a padded field, negative or not, holds no newline |
| SrtTime.FormatSrtTime | src/pipeline.py:129-137 | definition of `_format_srt_time`; properties in `FormatParses`, `FormatOneLine`, `FormatZero`, `FormatLongRun`, `FormatNegative` |
| SrtTime.FormatOneLine | src/pipeline.py:137 | the timestamp of any time, negative ones included, holds no newline |
| SrtTime.FormatZero | src/pipeline.py:129-137 | `0` is formatted as `00:00:00,000` |
| SrtTime.FormatLongRun | src/pipeline.py:129-137 | hours are not wrapped at 24: 90061.5 s is `25:01:01,500` |
| SrtTime.FormatNegative | src/pipeline.py:129-137 | a negative time keeps Python's signs: -1.5 s is `-1:59:59,-500` |
| Timeline.ContextRequest | src/pipeline.py:232-245 | definition of the `convert` arguments for chunk `i`: fixed voice, format and model, the chunk, and its neighbours; properties in `ContextHints`, `NeighbourRequests` |
| Timeline.Requests | src/pipeline.py:229-245 | definition: the context request of every chunk, in order; properties in `ContextHints`, `NeighbourRequests`, `SentRequests` |
| Timeline.Speeches | src/pipeline.py:238-252 | definition: the injected synthesis applied to every request; properties in `SynthesizeChunks`, `RunFacts` |
| Timeline.Pause | src/pipeline.py:225 | definition of the 0.1 s gap the cursor adds after a cue; properties in `StepTimed`, `RunFacts`, `CuesMonotone` |
| Timeline.ContextHints | src/pipeline.py:232-245 | each request has the fixed voice, model and format and the chunk as text; previous text is the preceding chunk, absent exactly for the first; next text is the following chunk, absent exactly for the last |
| Timeline.NeighbourRequests | src/pipeline.py:232-233 | what a request sends as next text is the text of the following request, and the other way round |
| Timeline.FirstFailure | src/pipeline.py:227-229 | the first failing chunk, or the count: every earlier synthesis succeeded and that one failed |
| Timeline.Attempts | src/pipeline.py:228-245 | definition: the number of `convert` calls, up to and including the first that raises; properties in `SentRequests` |
| Timeline.SentRequests | src/pipeline.py:228-245 | the requests sent are the first ones in order; the last of them failed exactly when some synthesis fails, and the loop stops early only after a failure |
| Timeline.Step | src/pipeline.py:229-267 | definition of one turn of the loop; properties in `StepPaths`, `StepCues`, `StepOrdered`, `StepCovered`, `StepTimed` |
| Timeline.Accumulate | src/pipeline.py:224-267 | definition of the loop from no cue, no file and the cursor at 0; properties in `RunFacts`, `SpokenPrefix`, `FailedStays` |
| Timeline.StepPaths | src/pipeline.py:247-249 | a successful turn appends `tmp/{base}_chunk_{i}.mp3`, whatever the duration |
| Timeline.StepCues | src/pipeline.py:252-264 | a turn keeps every cue tied to its chunk: numbered `i + 1`, with the chunk's text verbatim, lasting its non-zero duration |
| Timeline.StepOrdered | src/pipeline.py:262 | a turn keeps cue numbers strictly increasing |
| Timeline.StepCovered | src/pipeline.py:253-262 | after a turn, chunk `i` has a cue exactly when its duration is not zero |
| Timeline.StepTimed | src/pipeline.py:224-267 | a turn keeps the first cue at 0, each cue a pause after the previous end, and the cursor a pause after the last end |
| Timeline.SpokenPrefix | src/pipeline.py:229-267 | while every synthesis succeeds the loop keeps all of the above |
| Timeline.FailedStays | src/pipeline.py:295-297 | once a synthesis has failed, the remaining chunks change nothing |
| Timeline.RunFacts | src/pipeline.py:224-267 | the run fails exactly when a synthesis fails; every chunk synthesised before that has its path recorded, zero-duration ones included; the cues are exactly those chunks with a non-zero duration, in order, numbered `i + 1`, with their text, laid end to end from 0 with the pause between them |
| Timeline.CuesMonotone | src/pipeline.py:258-267 | with non-negative durations every cue starts at or after 0, ends no earlier than it starts, and the next cue starts after it ends |
| Timeline.TimesLine | src/pipeline.py:263 | definition of the `{start} --> {end}` line; properties in `SrtTextLines`, `SrtReadsBack` |
| Timeline.CueBlock | src/pipeline.py:262-264 | definition of what the three `write` calls append for one cue; properties in `WriteCue`, `SrtTextLines` |
| Timeline.SrtText | src/pipeline.py:258-264 | definition of the SRT file's text, the cues' blocks in order; properties in `SrtTextLines`, `SrtReadsBack` |
| Timeline.WriteCue | src/pipeline.py:262-264 | the three writes of a cue extend the SRT text by that cue's block |
| Timeline.SrtTextLines | src/pipeline.py:262-264 | the SRT text is its cues' lines joined: number, times, text, blank |
| Timeline.SrtReadsBack | src/pipeline.py:262-264 | for one-line texts and any times, the SRT text read line by line gives those lines back |
| Timeline.RunReadsBack | src/pipeline.py:224-267 | a run over one-line chunks, whatever the probed durations, writes an SRT file that reads back as number, times, text and blank line per cue |
| Timeline.FailedTurn | src/pipeline.py:238-248 | a turn whose synthesis raises ends the run with what it had, after one more request |
| Timeline.RecordSilentChunk | src/pipeline.py:247-255 | a zero-duration chunk records its path, writes no cue and leaves the cursor where it was |
| Timeline.RecordCue | src/pipeline.py:247-267 | a chunk with a duration records its path, appends its cue from the cursor to the cursor plus the duration to the SRT text, and moves the cursor past it and the pause |
| Timeline.SynthesizeChunks | src/pipeline.py:222-267 | the loop's final state is `Accumulate` over the speech results; the SRT text is that state's cues; the requests sent are the first `Attempts` context requests |
| Artifacts.SrtPath | src/pipeline.py:222 | definition of `tmp/{base}.srt`; properties in `ChunkPathsDistinctFromArtifacts`, `GenerateSucceeds` |
| Artifacts.ChunkPath | src/pipeline.py:247 | definition of `tmp/{base}_chunk_{i}.mp3`; properties in `ChunkPathInjective`, `ChunkBasename`, `ChunkPathsDistinctFromArtifacts` |
| Artifacts.FinalAudioPath | src/pipeline.py:270 | definition of `tmp/{base}_final.mp3`; properties in `ChunkPathsDistinctFromArtifacts`, `GenerateSucceeds` |
| Artifacts.ConcatListPath | src/pipeline.py:271 | definition of `tmp/{base}_concat.txt`; properties in `ChunkPathsDistinctFromArtifacts` |
| Artifacts.FileLine | src/pipeline.py:275 | definition of `file '{basename}'`; properties in `ChunkFileLine`, `ManifestOfChunks` |
| Artifacts.DurationLine | src/pipeline.py:277 | definition of the `duration 0.1` line; properties in `ManifestShape`, `ManifestOfChunks` |
| Artifacts.ManifestLines | src/pipeline.py:273-277 | definition: a file line and `duration 0.1` per path; properties in `ManifestShape` |
| Artifacts.ManifestText | src/pipeline.py:273-277 | definition of the concat list's text; properties in `WriteManifest`, `ManifestReadsBack` |
| Artifacts.ChunkPaths | src/pipeline.py:247 | definition: the chunk paths of `0 .. n-1`, in order; properties in `ChunkPathInjective`, `ManifestOfChunks` |
| Artifacts.Basename | src/pipeline.py:275 | `os.path.basename` is the part after the last `/`: a suffix of the path with no `/` |
| Artifacts.BasenameAfterSlash | src/pipeline.py:275 | the base name of `dir/name` is `name` when `name` has no `/` |
| Artifacts.ChunkBasename | src/pipeline.py:247-275 | the concat list names a chunk by `{base}_chunk_{i}.mp3` |
| Artifacts.ChunkPathInjective | src/pipeline.py:247 | distinct chunk indices give distinct file paths |
| Artifacts.ChunkPathsDistinctFromArtifacts | src/pipeline.py:222-271 | no chunk path coincides with the SRT file, the final audio file or the concat list |
| Artifacts.WriteManifest | src/pipeline.py:273-277 | the writing loop produces exactly the concat-list text |
| Artifacts.ManifestShape | src/pipeline.py:273-277 | the list has `2 N` lines for `N` paths: line `2 i` is `file '<basename>'` of path `i`, line `2 i + 1` is `duration 0.1`, also after the last |
| Artifacts.ManifestReadsBack | src/pipeline.py:273-277 | for paths without newlines, the list read line by line gives back exactly those lines |
| Artifacts.ManifestOfChunks | src/pipeline.py:247-277 | for chunks `0 .. n-1` the lines are `file '{base}_chunk_{i}.mp3'` and `duration 0.1`, in chunk order |
| Artifacts.ManifestOfChunksReadsBack | src/pipeline.py:247-277 | the same holds for the written text read back line by line |
| Pipeline.VideoPipeline.constructor | src/pipeline.py:31-39 | the client exists exactly when the API key is set and not empty |
| Pipeline.VideoPipeline.GenerateAudioAndSrt | src/pipeline.py:205-297 | the method, step by step in the source's order, has the outcome `Generate` describes |
| Pipeline.Generate | src/pipeline.py:205-297 | the two returned paths are both present or both absent; the audio is returned only if the concat list was written, and the list only if the SRT file was |
| Pipeline.EarlyExits | src/pipeline.py:210-220 | without a client, or for text without punctuation, no request is sent, no file is written and `(None, None)` is returned |
| Pipeline.GenerateRequests | src/pipeline.py:228-245 | for text with punctuation, the requests sent are the chunks' context requests in order, at least one, up to and including the first failure |
| Pipeline.GenerateSucceeds | src/pipeline.py:205-297 | `(tmp/{base}_final.mp3, tmp/{base}.srt)` is returned if and only if there is a client, the text has punctuation, every synthesis succeeds and the concatenation succeeds; otherwise `(None, None)` |
| Pipeline.GenerateManifest | src/pipeline.py:269-277 | the concat list is written exactly when every synthesis succeeds, and then reads back as `2 N` lines for `N` chunks: each chunk's file name in order, each followed by `duration 0.1` |
| Pipeline.GenerateSrt | src/pipeline.py:222-267 | once the loop starts, the SRT file holds the run's cues, and it reads back as number, times, text and blank line per cue, whatever the probed durations |

## Left out

- Gemini (`get_desc_video`), the ElevenLabs and ffprobe processes, and
  ffmpeg (`create_video`, the concatenation command) are external programs
  or network services. Their outcomes are inputs of the model: the speech
  function, the duration inside `Spoken`, and `concatSucceeds`.
- The audio's actual length is not modelled, so nothing states that it
  matches the cue timeline. That depends on how ffmpeg treats the
  `duration` directive.
- File-system effects are replaced by returned strings: directory creation
  in the constructor, opening and writing files, and the `os.remove`
  cleanup in `finally`. The model does not capture a failure to open or
  write a file.
- Floating point: times are exact reals. Binary rounding, for instance a
  millisecond lost when `3661.234` is truncated, is not captured.
- `run_sync`, `run_async` (threads), the `time.time()` run id, the Telegram
  bot and `main.py` only wire the core to the outside world.
- The Markdown-fence stripping before `json.loads` in `get_desc_video`
  feeds an external JSON parser.
- Speech synthesis is a function of the request, so two identical
  requests get the same outcome and duration. The real service need not
  behave that way. No proof relies on it.
- Logging (`logger.info`, `logger.warning`, `logger.error`, including the
  warning for a zero duration) has no effect on the outcome and is not
  modelled.
- `max_chars` is always the default 45 in `generate_audio_and_srt`. The
  splitter's lemmas hold for every `maxChars`.
