/** `VideoPipeline.generate_audio_and_srt`: the early exits, the cue loop,
    the concat list, and the pair of paths it returns. Speech synthesis
    with the duration probe is an injected function, and whether the
    ffmpeg concatenation succeeds is an input. */
module Pipeline {
  import opened Wrappers
  import opened Strings
  import opened Splitter
  import opened Artifacts
  import opened Timeline

  /** What one call leaves behind: the returned audio and subtitle paths,
      the synthesis requests sent, the SRT text written (if the file was
      opened) and the concat list written (if the loop finished). */
  datatype Outcome = Outcome(
    audioPath: Option<string>, srtPath: Option<string>,
    requests: seq<SpeechRequest>, srtText: Option<string>, manifest: Option<string>)

  const NothingDone: Outcome := Outcome(None, None, [], None, None)

  /** The outcome of `generate_audio_and_srt(text, base)`. */
  function Generate(hasClient: bool, text: string, base: string, tts: SpeechRequest -> Speech, concatSucceeds: bool): (o: Outcome)
    ensures o.audioPath.Some? <==> o.srtPath.Some?
    ensures o.audioPath.Some? ==> o.manifest.Some?
    ensures o.manifest.Some? ==> o.srtText.Some?
  {
    if !hasClient then NothingDone
    else
      var chunks := SplitText(text, DefaultMaxChars);
      if chunks == [] then NothingDone
      else
        var sp := Speeches(chunks, tts);
        var p := Accumulate(base, chunks, sp);
        var requests := Requests(chunks)[..Attempts(sp)];
        var srt := Some(SrtText(p.cues));
        if p.failed then Outcome(None, None, requests, srt, None)
        else
          var manifest := Some(ManifestText(p.paths));
          if concatSucceeds then Outcome(Some(FinalAudioPath(base)), Some(SrtPath(base)), requests, srt, manifest)
          else Outcome(None, None, requests, srt, manifest)
  }

  class VideoPipeline {
    /** Whether an ElevenLabs client was created. */
    const hasClient: bool

    /** The client is created only when the API key is set and not empty. */
    constructor(apiKey: Option<string>)
      ensures hasClient == (apiKey.Some? && apiKey.value != "")
    {
      hasClient := apiKey.Some? && apiKey.value != "";
    }

    /** `generate_audio_and_srt`, in the source's order: check the client,
        split, run the loop, write the concat list, concatenate. */
    method GenerateAudioAndSrt(text: string, base: string, tts: SpeechRequest -> Speech, concatSucceeds: bool)
      returns (o: Outcome)
      ensures o == Generate(hasClient, text, base, tts, concatSucceeds)
    {
      if !hasClient {
        return NothingDone;
      }
      var chunks := SmartTextSplitter(text, DefaultMaxChars);
      if chunks == [] {
        return NothingDone;
      }
      var p, srt, requests := SynthesizeChunks(base, chunks, tts);
      if p.failed {
        return Outcome(None, None, requests, Some(srt), None);
      }
      var manifest := WriteManifest(p.paths);
      if !concatSucceeds {
        return Outcome(None, None, requests, Some(srt), Some(manifest));
      }
      o := Outcome(Some(FinalAudioPath(base)), Some(SrtPath(base)), requests, Some(srt), Some(manifest));
    }
  }

  // ---------------------------------------------------------------------
  // Properties

  /** Without a client, or without any punctuation in the text, nothing is
      synthesised, no file is written and `(None, None)` comes back. */
  lemma EarlyExits(hasClient: bool, text: string, base: string, tts: SpeechRequest -> Speech, concatSucceeds: bool)
    requires !hasClient || NoMark(text)
    ensures Generate(hasClient, text, base, tts, concatSucceeds) == NothingDone
  {
    SplitTextEmptyIff(text, DefaultMaxChars);
  }

  /** The outcome of a run that reaches the loop, field by field. */
  lemma GenerateRun(text: string, base: string, tts: SpeechRequest -> Speech, concatSucceeds: bool)
    requires SplitText(text, DefaultMaxChars) != []
    ensures var o := Generate(true, text, base, tts, concatSucceeds);
      var chunks := SplitText(text, DefaultMaxChars); var sp := Speeches(chunks, tts);
      var p := Accumulate(base, chunks, sp);
      o.requests == Requests(chunks)[..Attempts(sp)] && o.srtText == Some(SrtText(p.cues))
      && (o.manifest.Some? <==> !p.failed) && (o.manifest.Some? ==> o.manifest.value == ManifestText(p.paths))
      && (o.audioPath.Some? <==> !p.failed && concatSucceeds)
  {
  }

  /** Every chunk of a text with punctuation is sent in order, each with
      its neighbours as context, up to and including the first that fails. */
  lemma GenerateRequests(text: string, base: string, tts: SpeechRequest -> Speech, concatSucceeds: bool)
    requires !NoMark(text)
    ensures var chunks := SplitText(text, DefaultMaxChars); var sp := Speeches(chunks, tts);
      var rs := Generate(true, text, base, tts, concatSucceeds).requests;
      1 <= |rs| <= |chunks|
      && (forall i :: 0 <= i < |rs| ==> rs[i] == ContextRequest(chunks, i))
      && (sp[|rs| - 1].SpeechFailed? <==> exists j :: 0 <= j < |sp| && sp[j].SpeechFailed?)
      && (|rs| < |chunks| ==> sp[|rs| - 1].SpeechFailed?)
      && (forall i :: 0 <= i < |rs| - 1 ==> sp[i].Spoken?)
  {
    var chunks := SplitText(text, DefaultMaxChars);
    SplitTextEmptyIff(text, DefaultMaxChars);
    GenerateRun(text, base, tts, concatSucceeds);
    SentRequests(chunks, Speeches(chunks, tts));
  }

  /** Both paths come back, and they are `tmp/{base}_final.mp3` and
      `tmp/{base}.srt`, exactly when there is a client, the text has
      punctuation, every synthesis succeeds and the concatenation succeeds;
      otherwise neither does. */
  lemma GenerateSucceeds(hasClient: bool, text: string, base: string, tts: SpeechRequest -> Speech, concatSucceeds: bool)
    ensures var o := Generate(hasClient, text, base, tts, concatSucceeds);
      var chunks := SplitText(text, DefaultMaxChars); var sp := Speeches(chunks, tts);
      (o.audioPath.Some? <==> hasClient && !NoMark(text) && (forall i :: 0 <= i < |sp| ==> sp[i].Spoken?) && concatSucceeds)
      && (o.audioPath.Some? ==> o.audioPath == Some(FinalAudioPath(base)) && o.srtPath == Some(SrtPath(base)))
  {
    var chunks := SplitText(text, DefaultMaxChars);
    SplitTextEmptyIff(text, DefaultMaxChars);
    if hasClient && chunks != [] {
      var sp := Speeches(chunks, tts);
      GenerateRun(text, base, tts, concatSucceeds);
      RunFacts(base, chunks, sp);
      AllSpokenIff(sp);
    } else {
      EarlyExits(hasClient, text, base, tts, concatSucceeds);
    }
  }

  /** The concat list is written exactly when the loop runs to its end, and
      then it holds `2 N` lines for the `N` chunks: each chunk's file name in
      chunk order, each followed by the pause. */
  lemma GenerateManifest(text: string, base: string, tts: SpeechRequest -> Speech, concatSucceeds: bool)
    requires '/' !in base && '\n' !in base
    ensures var o := Generate(true, text, base, tts, concatSucceeds);
      var chunks := SplitText(text, DefaultMaxChars); var sp := Speeches(chunks, tts);
      (o.manifest.Some? <==> chunks != [] && forall i :: 0 <= i < |sp| ==> sp[i].Spoken?)
      && (o.manifest.Some? ==> var ls := SplitLines(o.manifest.value);
           |ls| == 2 * |chunks| &&
           forall i :: 0 <= i < |chunks| ==>
             ls[2 * i] == "file '" + base + "_chunk_" + Decimal(i) + ".mp3'" && ls[2 * i + 1] == DurationLine)
  {
    var chunks := SplitText(text, DefaultMaxChars);
    if chunks != [] {
      var sp := Speeches(chunks, tts);
      GenerateRun(text, base, tts, concatSucceeds);
      RunFacts(base, chunks, sp);
      AllSpokenIff(sp);
      if FirstFailure(sp) == |chunks| {
        ManifestOfChunksReadsBack(base, |chunks|);
      }
    }
  }

  /** Once the loop starts the SRT file is written with the run's cues
      (their properties are those of `RunFacts`), and it reads back line by
      line as number, times, text and a blank line for each cue. */
  lemma GenerateSrt(text: string, base: string, tts: SpeechRequest -> Speech, concatSucceeds: bool)
    requires !NoMark(text)
    ensures var o := Generate(true, text, base, tts, concatSucceeds);
      var chunks := SplitText(text, DefaultMaxChars); var sp := Speeches(chunks, tts);
      var p := Accumulate(base, chunks, sp);
      o.srtText == Some(SrtText(p.cues)) && SplitLines(o.srtText.value) == SrtLines(p.cues)
  {
    var chunks := SplitText(text, DefaultMaxChars);
    SplitTextEmptyIff(text, DefaultMaxChars);
    SplitTextChunksOk(text, DefaultMaxChars);
    var sp := Speeches(chunks, tts);
    GenerateRun(text, base, tts, concatSucceeds);
    RunReadsBack(base, chunks, sp);
  }
}
