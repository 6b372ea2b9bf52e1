/** The cue timeline of `generate_audio_and_srt`: each chunk is sent to
    text-to-speech with its neighbours as context, its audio file is
    recorded, and a subtitle cue is written for it unless its duration is
    zero. Speech synthesis and the duration probe are one injected function. */
module Timeline {
  import opened Wrappers
  import opened Strings
  import opened SrtTime
  import opened Artifacts

  /** Seconds of silence between two cues. */
  const Pause: real := 0.1

  const VoiceId: string := "FGY2WhTYpPnrIDTdsKH5"
  const OutputFormat: string := "mp3_44100_128"
  const ModelId: string := "eleven_multilingual_v2"

  /** The arguments of one `text_to_speech.convert` call. */
  datatype SpeechRequest = SpeechRequest(
    voiceId: string, outputFormat: string, text: string, modelId: string,
    previousText: Option<string>, nextText: Option<string>)

  /** What one chunk's synthesis gives back: the call or the save raised, or
      the file was saved and probed (a failed probe reads as `0.0`). */
  datatype Speech = SpeechFailed | Spoken(duration: real)

  /** The request for chunk `i`, with its neighbours as context (none at the ends). */
  function ContextRequest(chunks: seq<string>, i: nat): SpeechRequest
    requires i < |chunks|
  {
    SpeechRequest(VoiceId, OutputFormat, chunks[i], ModelId,
      if i > 0 then Some(chunks[i - 1]) else None,
      if i < |chunks| - 1 then Some(chunks[i + 1]) else None)
  }

  function Requests(chunks: seq<string>): (rs: seq<SpeechRequest>)
    ensures |rs| == |chunks| && forall i :: 0 <= i < |chunks| ==> rs[i] == ContextRequest(chunks, i)
  {
    seq(|chunks|, i requires 0 <= i < |chunks| => ContextRequest(chunks, i))
  }

  /** What the injected speech function answers for every chunk. */
  function Speeches(chunks: seq<string>, tts: SpeechRequest -> Speech): (sp: seq<Speech>)
    ensures |sp| == |chunks| && forall i :: 0 <= i < |chunks| ==> sp[i] == tts(ContextRequest(chunks, i))
  {
    seq(|chunks|, i requires 0 <= i < |chunks| => tts(ContextRequest(chunks, i)))
  }

  /** Each request carries the chunk itself, its predecessor as previous
      text and its successor as next text; only the first has no previous
      text and only the last no next text. */
  lemma ContextHints(chunks: seq<string>, i: nat)
    requires i < |chunks|
    ensures var r := Requests(chunks)[i];
      r.text == chunks[i] && r.voiceId == VoiceId && r.modelId == ModelId && r.outputFormat == OutputFormat
      && (r.previousText == None <==> i == 0) && (i > 0 ==> r.previousText == Some(chunks[i - 1]))
      && (r.nextText == None <==> i == |chunks| - 1) && (i < |chunks| - 1 ==> r.nextText == Some(chunks[i + 1]))
  {
  }

  /** Neighbouring requests agree: what one sends as next text the other
      sends as its own text, and the other way round. */
  lemma NeighbourRequests(chunks: seq<string>, i: nat)
    requires i + 1 < |chunks|
    ensures Requests(chunks)[i].nextText == Some(Requests(chunks)[i + 1].text)
    ensures Requests(chunks)[i + 1].previousText == Some(Requests(chunks)[i].text)
  {
  }

  /** The index of the first failed synthesis, or the number of chunks. */
  function FirstFailure(sp: seq<Speech>): (k: nat)
    ensures k <= |sp| && (forall j :: 0 <= j < k ==> sp[j].Spoken?)
    ensures k < |sp| ==> sp[k].SpeechFailed?
  {
    if sp == [] then 0
    else
      var n := |sp| - 1;
      var k := FirstFailure(sp[..n]);
      assert forall j :: 0 <= j < n ==> sp[..n][j] == sp[j];
      if k < n then k else if sp[n].SpeechFailed? then n else n + 1
  }

  /** Every synthesis succeeds exactly when none is found to fail. */
  lemma AllSpokenIff(sp: seq<Speech>)
    ensures (forall i :: 0 <= i < |sp| ==> sp[i].Spoken?) <==> FirstFailure(sp) == |sp|
  {
  }

  /** How many synthesis calls are made: up to and including the first that fails. */
  function Attempts(sp: seq<Speech>): nat
  {
    if FirstFailure(sp) < |sp| then FirstFailure(sp) + 1 else |sp|
  }

  /** The requests sent for a non-empty list of chunks: one per chunk in
      order, with its context, the last of them the first that failed, if
      any did. */
  lemma SentRequests(chunks: seq<string>, sp: seq<Speech>)
    requires chunks != [] && |sp| == |chunks|
    ensures var rs := Requests(chunks)[..Attempts(sp)];
      1 <= |rs| <= |chunks|
      && (forall i :: 0 <= i < |rs| ==> rs[i] == ContextRequest(chunks, i))
      && (sp[|rs| - 1].SpeechFailed? <==> exists j :: 0 <= j < |sp| && sp[j].SpeechFailed?)
      && (|rs| < |chunks| ==> sp[|rs| - 1].SpeechFailed?)
      && (forall i :: 0 <= i < |rs| - 1 ==> sp[i].Spoken?)
  {
    var k := FirstFailure(sp);
    if k == |sp| {
      assert sp[|sp| - 1].Spoken?;
    }
  }

  /** One subtitle cue: number, start and end in seconds, and text. */
  datatype Cue = Cue(number: nat, start: real, end: real, text: string)

  /** The loop's state: cues written, chunk files recorded, the time cursor,
      and whether an exception ended the loop. */
  datatype Progress = Progress(cues: seq<Cue>, paths: seq<string>, cursor: real, failed: bool)

  /** One turn of the loop for chunk `i`. */
  function Step(p: Progress, base: string, i: nat, text: string, speech: Speech): Progress
  {
    if p.failed then p
    else if speech.SpeechFailed? then p.(failed := true)
    else
      var paths := p.paths + [ChunkPath(base, i)];
      var d := speech.duration;
      if d == 0.0 then p.(paths := paths)
      else Progress(p.cues + [Cue(i + 1, p.cursor, p.cursor + d, text)], paths, p.cursor + d + Pause, false)
  }

  /** The loop over the chunks, from no cues, no files and the cursor at 0. */
  function Accumulate(base: string, chunks: seq<string>, sp: seq<Speech>): Progress
    requires |chunks| == |sp|
  {
    if chunks == [] then Progress([], [], 0.0, false)
    else
      var n := |chunks| - 1;
      Step(Accumulate(base, chunks[..n], sp[..n]), base, n, chunks[n], sp[n])
  }

  // ---------------------------------------------------------------------
  // The SRT text

  /** The second line of a cue: `{start} --> {end}`. */
  function TimesLine(c: Cue): string
  {
    FormatSrtTime(c.start) + " --> " + FormatSrtTime(c.end)
  }

  /** What the three `srt_file.write` calls for a cue append. */
  function CueBlock(c: Cue): string
  {
    Decimal(c.number) + "\n" + TimesLine(c) + "\n" + c.text + "\n\n"
  }

  /** The text of `tmp/{base}.srt`: the cues' blocks in order. */
  function SrtText(cues: seq<Cue>): string
  {
    if cues == [] then "" else SrtText(cues[..|cues| - 1]) + CueBlock(cues[|cues| - 1])
  }

  /** The same text seen as lines: number, times, text and a blank line per cue. */
  function CueLines(c: Cue): seq<string>
  {
    [Decimal(c.number), TimesLine(c), c.text, ""]
  }

  function SrtLines(cues: seq<Cue>): seq<string>
  {
    if cues == [] then [] else SrtLines(cues[..|cues| - 1]) + CueLines(cues[|cues| - 1])
  }

  // ---------------------------------------------------------------------
  // What one turn keeps true

  /** Every cue belongs to one of the first `k` chunks: it is numbered after
      it, carries its text verbatim, and lasts its (non-zero) duration. */
  predicate CuesOk(cues: seq<Cue>, chunks: seq<string>, sp: seq<Speech>, k: nat)
    requires k <= |chunks| == |sp|
  {
    forall q :: 0 <= q < |cues| ==>
      1 <= cues[q].number <= k && cues[q].text == chunks[cues[q].number - 1]
      && sp[cues[q].number - 1].Spoken? && sp[cues[q].number - 1].duration != 0.0
      && cues[q].end == cues[q].start + sp[cues[q].number - 1].duration
  }

  predicate Ordered(cues: seq<Cue>)
  {
    forall q, r :: 0 <= q < r < |cues| ==> cues[q].number < cues[r].number
  }

  function Numbers(cues: seq<Cue>): set<nat>
  {
    set c | c in cues :: c.number
  }

  /** Chunk `i` has a cue exactly when its duration is not zero. */
  predicate Covered(cues: seq<Cue>, sp: seq<Speech>, k: nat)
    requires k <= |sp|
  {
    forall i :: 0 <= i < k ==> (i + 1 in Numbers(cues) <==> sp[i] != Spoken(0.0))
  }

  /** The first cue starts at 0 and each later cue starts a pause after the
      previous one ends. */
  predicate Chained(cues: seq<Cue>)
  {
    (forall q :: 0 <= q < |cues| - 1 ==> cues[q + 1].start == cues[q].end + Pause)
    && (cues != [] ==> cues[0].start == 0.0)
  }

  /** The cues are chained and the cursor sits a pause after the last one. */
  predicate Timed(p: Progress)
  {
    Chained(p.cues)
    && (p.cues == [] ==> p.cursor == 0.0)
    && (p.cues != [] ==> p.cursor == p.cues[|p.cues| - 1].end + Pause)
  }

  lemma StepPaths(p: Progress, base: string, chunks: seq<string>, sp: seq<Speech>, k: nat)
    requires k < |chunks| == |sp| && sp[k].Spoken? && !p.failed && p.paths == ChunkPaths(base, k)
    ensures var p' := Step(p, base, k, chunks[k], sp[k]);
      !p'.failed && p'.paths == ChunkPaths(base, k + 1)
  {
  }

  lemma StepCues(p: Progress, base: string, chunks: seq<string>, sp: seq<Speech>, k: nat)
    requires k < |chunks| == |sp| && sp[k].Spoken? && !p.failed && CuesOk(p.cues, chunks, sp, k)
    ensures CuesOk(Step(p, base, k, chunks[k], sp[k]).cues, chunks, sp, k + 1)
  {
  }

  lemma StepOrdered(p: Progress, base: string, chunks: seq<string>, sp: seq<Speech>, k: nat)
    requires k < |chunks| == |sp| && sp[k].Spoken? && !p.failed
    requires CuesOk(p.cues, chunks, sp, k) && Ordered(p.cues)
    ensures Ordered(Step(p, base, k, chunks[k], sp[k]).cues)
  {
  }

  lemma NumbersSnoc(cues: seq<Cue>, c: Cue)
    ensures Numbers(cues + [c]) == Numbers(cues) + {c.number}
  {
    assert forall x :: x in cues + [c] <==> x in cues || x == c;
  }

  lemma StepCovered(p: Progress, base: string, chunks: seq<string>, sp: seq<Speech>, k: nat)
    requires k < |chunks| == |sp| && sp[k].Spoken? && !p.failed
    requires CuesOk(p.cues, chunks, sp, k) && Covered(p.cues, sp, k)
    ensures Covered(Step(p, base, k, chunks[k], sp[k]).cues, sp, k + 1)
  {
    var cues := Step(p, base, k, chunks[k], sp[k]).cues;
    assert k + 1 !in Numbers(p.cues);
    if sp[k] != Spoken(0.0) {
      NumbersSnoc(p.cues, Cue(k + 1, p.cursor, p.cursor + sp[k].duration, chunks[k]));
    }
  }

  lemma StepTimed(p: Progress, base: string, i: nat, text: string, speech: Speech)
    requires speech.Spoken? && !p.failed && Timed(p)
    ensures Timed(Step(p, base, i, text, speech))
  {
  }

  /** One more chunk is one more turn of the loop. */
  lemma AccumulateNext(base: string, chunks: seq<string>, sp: seq<Speech>, k: nat)
    requires k < |chunks| == |sp|
    ensures Accumulate(base, chunks[..k + 1], sp[..k + 1]) ==
      Step(Accumulate(base, chunks[..k], sp[..k]), base, k, chunks[k], sp[k])
  {
    assert chunks[..k + 1][..k] == chunks[..k] && sp[..k + 1][..k] == sp[..k];
  }

  // ---------------------------------------------------------------------
  // The whole run

  /** While every synthesis succeeds, the loop keeps all of the above. */
  lemma {:induction false} SpokenPrefix(base: string, chunks: seq<string>, sp: seq<Speech>, k: nat)
    requires k <= |chunks| == |sp| && forall j :: 0 <= j < k ==> sp[j].Spoken?
    ensures var p := Accumulate(base, chunks[..k], sp[..k]);
      !p.failed && p.paths == ChunkPaths(base, k) && CuesOk(p.cues, chunks, sp, k)
      && Ordered(p.cues) && Covered(p.cues, sp, k) && Timed(p)
  {
    if k > 0 {
      var n := k - 1;
      SpokenPrefix(base, chunks, sp, n);
      AccumulateNext(base, chunks, sp, n);
      var p := Accumulate(base, chunks[..n], sp[..n]);
      StepPaths(p, base, chunks, sp, n);
      StepCues(p, base, chunks, sp, n);
      StepOrdered(p, base, chunks, sp, n);
      StepCovered(p, base, chunks, sp, n);
      StepTimed(p, base, n, chunks[n], sp[n]);
    } else {
      assert chunks[..0] == [];
    }
  }

  /** Once a synthesis has failed the loop is over: later chunks change nothing. */
  lemma {:induction false} FailedStays(base: string, chunks: seq<string>, sp: seq<Speech>, k: nat)
    requires k <= |chunks| == |sp| && Accumulate(base, chunks[..k], sp[..k]).failed
    ensures Accumulate(base, chunks, sp) == Accumulate(base, chunks[..k], sp[..k])
    decreases |chunks|
  {
    if k < |chunks| {
      var n := |chunks| - 1;
      assert chunks[..n][..k] == chunks[..k] && sp[..n][..k] == sp[..k];
      FailedStays(base, chunks[..n], sp[..n], k);
    } else {
      assert chunks[..k] == chunks && sp[..k] == sp;
    }
  }

  /** The run as a whole: it fails exactly when a synthesis fails; every chunk
      synthesised before that has its file recorded, zero-duration ones
      included; the cues are those chunks' with non-zero duration, numbered
      `i + 1` in increasing order, with their text; and the cues are laid
      end to end from time 0 with a pause between them. */
  lemma RunFacts(base: string, chunks: seq<string>, sp: seq<Speech>)
    requires |chunks| == |sp|
    ensures var k := FirstFailure(sp); var p := Accumulate(base, chunks, sp);
      (p.failed <==> k < |sp|) && p.paths == ChunkPaths(base, k)
      && CuesOk(p.cues, chunks, sp, k) && Ordered(p.cues) && Covered(p.cues, sp, k) && Timed(p)
  {
    var k := FirstFailure(sp);
    SpokenPrefix(base, chunks, sp, k);
    if k < |sp| {
      FailedTurn(base, chunks, sp, k, Accumulate(base, chunks[..k], sp[..k]));
    } else {
      assert chunks[..k] == chunks && sp[..k] == sp;
    }
  }

  /** With non-negative durations the cues never go back in time: each one
      ends no earlier than it starts and starts after the previous ends. */
  lemma {:induction false} CuesMonotone(cues: seq<Cue>, chunks: seq<string>, sp: seq<Speech>, k: nat)
    requires k <= |chunks| == |sp| && CuesOk(cues, chunks, sp, k) && Chained(cues)
    requires forall j :: 0 <= j < k && sp[j].Spoken? ==> sp[j].duration >= 0.0
    ensures forall q :: 0 <= q < |cues| ==> 0.0 <= cues[q].start <= cues[q].end
    ensures forall q, r :: 0 <= q < r < |cues| ==> cues[q].end < cues[r].start
    decreases |cues|
  {
    if cues != [] {
      var n := |cues| - 1;
      var init := cues[..n];
      assert forall q :: 0 <= q < n ==> init[q] == cues[q];
      assert Chained(init) by {
        if init != [] {
          assert init[0] == cues[0];
        }
      }
      CuesMonotone(init, chunks, sp, k);
      assert cues[n].end >= cues[n].start;
      if n > 0 {
        assert cues[n].start == cues[n - 1].end + Pause;
      }
    }
  }

  // ---------------------------------------------------------------------
  // The loop as the source writes it

  /** Three appends in a row append their concatenation. Stated apart over
      abstract strings: asserted inside `WriteCue`, where the timestamps
      unfold, its proof runs out of resource. */
  lemma ThreeWrites(srt: string, number: string, times: string, text: string)
    ensures srt + number + "\n" + times + "\n" + text + "\n\n" == srt + (number + "\n" + times + "\n" + text + "\n\n")
  {
  }

  lemma SrtTextSnoc(cues: seq<Cue>, c: Cue)
    ensures SrtText(cues + [c]) == SrtText(cues) + CueBlock(c)
  {
    assert (cues + [c])[..|cues|] == cues;
  }

  /** The three `write` calls for one cue: the file so far gains the cue's block. */
  method WriteCue(srt: string, cues: seq<Cue>, c: Cue) returns (srt': string)
    requires srt == SrtText(cues)
    ensures srt' == SrtText(cues + [c])
  {
    var number := Decimal(c.number);
    var startText := FormatSrtTime(c.start);
    var endText := FormatSrtTime(c.end);
    var times := startText + " --> " + endText;
    assert times == TimesLine(c);
    ThreeWrites(srt, number, times, c.text);
    SrtTextSnoc(cues, c);
    srt' := srt + number + "\n";
    srt' := srt' + times + "\n";
    srt' := srt' + c.text + "\n\n";
  }

  lemma JoinFourLines(a: string, b: string, c: string)
    ensures JoinLines([a, b, c, ""]) == a + "\n" + b + "\n" + c + "\n\n"
  {
    assert [a, b, c, ""] == [a, b] + [c, ""];
    JoinLinesAppend([a, b], [c, ""]);
    JoinLinesPair(a, b);
    JoinLinesPair(c, "");
    assert c + "\n" + "" + "\n" == c + "\n\n";
  }

  /** The file written block by block is the file of its lines. */
  lemma {:induction false} SrtTextLines(cues: seq<Cue>)
    ensures SrtText(cues) == JoinLines(SrtLines(cues))
  {
    if cues != [] {
      var n := |cues| - 1;
      SrtTextLines(cues[..n]);
      JoinLinesAppend(SrtLines(cues[..n]), CueLines(cues[n]));
      JoinFourLines(Decimal(cues[n].number), TimesLine(cues[n]), cues[n].text);
    }
  }

  predicate OneLineEach(ls: seq<string>)
  {
    forall i :: 0 <= i < |ls| ==> '\n' !in ls[i]
  }

  lemma OneLineAppend(xs: seq<string>, ys: seq<string>)
    requires OneLineEach(xs) && OneLineEach(ys)
    ensures OneLineEach(xs + ys)
  {
    assert forall i :: |xs| <= i < |xs + ys| ==> (xs + ys)[i] == ys[i - |xs|];
  }

  lemma ArrowOneLine(a: string, b: string)
    requires '\n' !in a && '\n' !in b
    ensures '\n' !in a + " --> " + b
  {
  }

  lemma FourLinesOneLine(a: string, b: string, c: string)
    requires '\n' !in a && '\n' !in b && '\n' !in c
    ensures OneLineEach([a, b, c, ""])
  {
  }

  /** A cue whose text is one line gives four lines. */
  lemma CueLinesOneLine(c: Cue)
    requires '\n' !in c.text
    ensures OneLineEach(CueLines(c))
  {
    AllDigitsNoNewline(Decimal(c.number));
    FormatOneLine(c.start);
    FormatOneLine(c.end);
    ArrowOneLine(FormatSrtTime(c.start), FormatSrtTime(c.end));
    FourLinesOneLine(Decimal(c.number), TimesLine(c), c.text);
  }

  /** Every line of the file is one line: numbers, timestamps and chunk
      texts hold no newline. */
  lemma {:induction false} SrtLinesOneLine(cues: seq<Cue>)
    requires forall q :: 0 <= q < |cues| ==> '\n' !in cues[q].text
    ensures OneLineEach(SrtLines(cues))
  {
    if cues != [] {
      var n := |cues| - 1;
      assert forall q :: 0 <= q < n ==> cues[..n][q] == cues[q];
      SrtLinesOneLine(cues[..n]);
      CueLinesOneLine(cues[n]);
      OneLineAppend(SrtLines(cues[..n]), CueLines(cues[n]));
    }
  }

  /** Reading the SRT file back line by line gives, per cue, its number,
      its times, its text and a blank line. */
  lemma SrtReadsBack(cues: seq<Cue>)
    requires forall q :: 0 <= q < |cues| ==> '\n' !in cues[q].text
    ensures SplitLines(SrtText(cues)) == SrtLines(cues)
  {
    SrtTextLines(cues);
    SrtLinesOneLine(cues);
    SplitJoinLines(SrtLines(cues));
  }

  /** A whole run over one-line chunks writes an SRT file that reads back
      as its cues' lines, whatever the probed durations. */
  lemma RunReadsBack(base: string, chunks: seq<string>, sp: seq<Speech>)
    requires |chunks| == |sp| && forall i :: 0 <= i < |chunks| ==> '\n' !in chunks[i]
    ensures var cues := Accumulate(base, chunks, sp).cues;
      SplitLines(SrtText(cues)) == SrtLines(cues)
  {
    var cues := Accumulate(base, chunks, sp).cues;
    RunFacts(base, chunks, sp);
    SrtReadsBack(cues);
  }

  predicate SpokenBefore(sp: seq<Speech>, i: nat)
  {
    forall j :: 0 <= j < i && j < |sp| ==> sp[j].Spoken?
  }

  lemma SpokenNext(sp: seq<Speech>, i: nat)
    requires SpokenBefore(sp, i) && i < |sp| && sp[i].Spoken?
    ensures SpokenBefore(sp, i + 1)
  {
  }

  /** A turn whose synthesis raised: the loop ends with what it had. */
  lemma FailedTurn(base: string, chunks: seq<string>, sp: seq<Speech>, i: nat, p: Progress)
    requires i < |chunks| == |sp| && sp[i].SpeechFailed? && SpokenBefore(sp, i)
    requires Accumulate(base, chunks[..i], sp[..i]) == p && !p.failed
    ensures Accumulate(base, chunks, sp) == p.(failed := true)
    ensures Attempts(sp) == i + 1
  {
    AccumulateNext(base, chunks, sp, i);
    FailedStays(base, chunks, sp, i + 1);
    assert FirstFailure(sp) == i;
  }

  /** The loop ran to the end. */
  lemma AllTurns(base: string, chunks: seq<string>, sp: seq<Speech>, p: Progress)
    requires |chunks| == |sp| && SpokenBefore(sp, |sp|)
    requires Accumulate(base, chunks[..|sp|], sp[..|sp|]) == p
    ensures Accumulate(base, chunks, sp) == p && Attempts(sp) == |sp|
  {
    assert chunks[..|sp|] == chunks && sp[..|sp|] == sp;
  }

  lemma RequestsNext(chunks: seq<string>, i: nat)
    requires i < |chunks|
    ensures Requests(chunks)[..i + 1] == Requests(chunks)[..i] + [ContextRequest(chunks, i)]
  {
  }

  lemma StepZero(p: Progress, base: string, i: nat, text: string)
    requires !p.failed
    ensures Step(p, base, i, text, Spoken(0.0)) == p.(paths := p.paths + [ChunkPath(base, i)])
  {
  }

  lemma StepCue(p: Progress, base: string, i: nat, text: string, d: real)
    requires !p.failed && d != 0.0
    ensures Step(p, base, i, text, Spoken(d)) ==
      Progress(p.cues + [Cue(i + 1, p.cursor, p.cursor + d, text)], p.paths + [ChunkPath(base, i)], p.cursor + d + Pause, false)
  {
  }

  /** A chunk whose duration probed as zero: its path is recorded, and the
      loop moves on without a cue. */
  method RecordSilentChunk(p: Progress, base: string, i: nat, text: string) returns (q: Progress)
    requires !p.failed
    ensures q == Step(p, base, i, text, Spoken(0.0)) && q.cues == p.cues
  {
    var chunkPath := ChunkPath(base, i);
    StepZero(p, base, i, text);
    q := p.(paths := p.paths + [chunkPath]);
  }

  /** A chunk with a duration: its path is recorded, its cue written from
      the cursor to the cursor plus the duration, and the cursor moved past
      it and the pause. */
  method RecordCue(p: Progress, srt: string, base: string, i: nat, text: string, duration: real)
    returns (q: Progress, srt': string)
    requires !p.failed && duration != 0.0 && srt == SrtText(p.cues)
    ensures q == Step(p, base, i, text, Spoken(duration))
    ensures srt' == SrtText(q.cues)
  {
    var cue := Cue(i + 1, p.cursor, p.cursor + duration, text);
    StepCue(p, base, i, text, duration);
    q := Progress(p.cues + [cue], p.paths + [ChunkPath(base, i)], p.cursor + duration + Pause, false);
    srt' := WriteCue(srt, p.cues, cue);
  }

  /** The loop in `generate_audio_and_srt`: ask for speech chunk by chunk,
      record each saved file, write a cue for each chunk with a duration,
      and stop at the first exception. Returns the loop's state, the SRT
      text written, and the requests sent. */
  method SynthesizeChunks(base: string, chunks: seq<string>, tts: SpeechRequest -> Speech)
    returns (p: Progress, srt: string, requests: seq<SpeechRequest>)
    ensures p == Accumulate(base, chunks, Speeches(chunks, tts))
    ensures srt == SrtText(p.cues)
    ensures requests == Requests(chunks)[..Attempts(Speeches(chunks, tts))]
  {
    ghost var sp := Speeches(chunks, tts);
    p := Progress([], [], 0.0, false);
    srt := "";
    requests := [];
    var i := 0;
    while i < |chunks|
      invariant 0 <= i <= |chunks| && SpokenBefore(sp, i)
      invariant p == Accumulate(base, chunks[..i], sp[..i]) && !p.failed
      invariant srt == SrtText(p.cues)
      invariant requests == Requests(chunks)[..i]
    {
      var request := ContextRequest(chunks, i);
      RequestsNext(chunks, i);
      requests := requests + [request];
      var speech := tts(request);
      assert speech == sp[i];
      if speech.SpeechFailed? {
        FailedTurn(base, chunks, sp, i, p);
        p := p.(failed := true);
        return;
      }
      AccumulateNext(base, chunks, sp, i);
      SpokenNext(sp, i);
      if speech.duration == 0.0 {
        p := RecordSilentChunk(p, base, i, chunks[i]);
      } else {
        p, srt := RecordCue(p, srt, base, i, chunks[i], speech.duration);
      }
      i := i + 1;
    }
    AllTurns(base, chunks, sp, p);
  }
}
