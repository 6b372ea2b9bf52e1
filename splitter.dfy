/** `VideoPipeline._smart_text_splitter` (src/pipeline.py): cutting narration
    text into subtitle-sized chunks. The text is cut after every `.`, `!`,
    `?` and `,`; the fragments are packed greedily into chunks of at most
    `maxChars` characters, and a fragment that is longer on its own is broken
    into word pieces. */
module Splitter {
  import opened Strings

  /** The default `max_chars` of the splitter, which is the value
      `generate_audio_and_srt` uses. */
  const DefaultMaxChars: int := 45

  // ---------------------------------------------------------------------
  // Fragments: re.split(r'([.!?,,])', text) and the zip that pairs them up

  /** A character of the class `[.!?,,]`. */
  predicate IsMark(c: char)
  {
    c == '.' || c == '!' || c == '?' || c == ','
  }

  lemma MarkIsNotSpace(c: char)
    requires IsMark(c)
    ensures !IsSpace(c)
  {
    PrintableNotSpace(c);
  }

  predicate NoMark(s: string)
  {
    forall k :: 0 <= k < |s| ==> !IsMark(s[k])
  }

  function MarkCount(s: string): nat
  {
    if s == [] then 0 else (if IsMark(s[0]) then 1 else 0) + MarkCount(s[1..])
  }

  lemma {:induction false} MarkCountZero(s: string)
    ensures MarkCount(s) == 0 <==> NoMark(s)
  {
    if s != [] {
      MarkCountZero(s[1..]);
      assert NoMark(s) <==> !IsMark(s[0]) && NoMark(s[1..]) by {
        assert forall k :: 0 < k < |s| ==> s[k] == s[1..][k - 1];
      }
    }
  }

  function Concat(parts: seq<string>): string
  {
    if parts == [] then "" else parts[0] + Concat(parts[1..])
  }

  /** `re.split(r'([.!?,,])', t)`: the pieces of `t` between marks at the even
      positions and, because the pattern is a capturing group, each mark as a
      piece of its own at the odd positions. Nothing is lost: the pieces
      concatenate back to `t`. */
  function SplitOnMarks(t: string): (parts: seq<string>)
    ensures |parts| == 2 * MarkCount(t) + 1
    ensures Concat(parts) == t
  {
    if t == [] then [""]
    else
      var rest := SplitOnMarks(t[1..]);
      if IsMark(t[0]) then
        var parts := ["", [t[0]]] + rest;
        assert parts[1..] == [[t[0]]] + rest && parts[1..][1..] == rest;
        parts
      else
        var parts := [[t[0]] + rest[0]] + rest[1..];
        assert parts[1..] == rest[1..];
        parts
  }

  /** The slice `parts[start::2]`. */
  function Stride(parts: seq<string>, start: nat): (r: seq<string>)
    ensures |r| == if start < |parts| then (|parts| - start + 1) / 2 else 0
    ensures forall i :: 0 <= i < |r| ==> r[i] == parts[start + 2 * i]
    decreases |parts| - start
  {
    if start >= |parts| then [] else [parts[start]] + Stride(parts, start + 2)
  }

  /** `["".join(pair) for pair in zip(a, b)]`: `zip` stops at the shorter list. */
  function ZipJoin(a: seq<string>, b: seq<string>): (r: seq<string>)
    ensures |r| == if |a| < |b| then |a| else |b|
    ensures forall i :: 0 <= i < |r| ==> r[i] == a[i] + b[i]
  {
    if a == [] || b == [] then [] else [a[0] + b[0]] + ZipJoin(a[1..], b[1..])
  }

  /** `zip(parts[0::2], parts[1::2])` over the result of the split, each pair
      joined. The piece after the last mark has no partner and is dropped. */
  function Pairs(parts: seq<string>): (r: seq<string>)
    requires |parts| % 2 == 1
    ensures |r| == |parts| / 2
    ensures forall i :: 0 <= i < |r| ==> r[i] == parts[2 * i] + parts[2 * i + 1]
  {
    ZipJoin(Stride(parts, 0), Stride(parts, 1))
  }

  function StripAll(xs: seq<string>): (r: seq<string>)
    ensures |r| == |xs| && forall i :: 0 <= i < |xs| ==> r[i] == Strip(xs[i])
  {
    if xs == [] then [] else [Strip(xs[0])] + StripAll(xs[1..])
  }

  /** `base_phrases`: the stripped pairs, with empty ones removed. */
  function Fragments(text: string): seq<string>
  {
    NonEmpty(StripAll(Pairs(SplitOnMarks(text))))
  }

  /** A reference definition of the pairs: the stretches of `t` that end with
      a mark, each with its mark, in order. */
  function MarkedStretches(t: string): (r: seq<string>)
    ensures |r| == MarkCount(t)
    ensures forall i :: 0 <= i < |r| ==> IsMarkedStretch(r[i])
  {
    if t == [] then []
    else
      var rest := MarkedStretches(t[1..]);
      if IsMark(t[0]) then
        var r := [[t[0]]] + rest;
        assert forall i :: 0 < i < |r| ==> r[i] == rest[i - 1];
        r
      else if rest == [] then []
      else
        var head := [t[0]] + rest[0];
        assert head[..|head| - 1] == [t[0]] + rest[0][..|rest[0]| - 1];
        var r := [head] + rest[1..];
        assert forall i :: 0 < i < |r| ==> r[i] == rest[i];
        r
  }

  lemma {:induction false} StretchesNoNewline(t: string)
    requires '\n' !in t
    ensures forall i :: 0 <= i < |MarkedStretches(t)| ==> '\n' !in MarkedStretches(t)[i]
  {
    if t != [] {
      StretchesNoNewline(t[1..]);
      var rest := MarkedStretches(t[1..]);
      assert forall i :: 0 < i < |rest| ==> rest[i] == rest[1..][i - 1];
    }
  }

  /** Striding from position 1 on only looks at the elements after the first. */
  lemma {:induction false} StrideSameTail(parts: seq<string>, other: seq<string>, start: nat)
    requires |parts| == |other| && parts != [] && parts[1..] == other[1..] && start >= 1
    ensures Stride(parts, start) == Stride(other, start)
    decreases |parts| - start
  {
    if start < |parts| {
      assert parts[start] == parts[1..][start - 1];
      StrideSameTail(parts, other, start + 2);
    }
  }

  /** Striding past two leading elements strides over the rest. */
  lemma {:induction false} StrideDrop2(x: string, y: string, rest: seq<string>, start: nat)
    ensures Stride([x, y] + rest, start + 2) == Stride(rest, start)
    decreases |rest| - start
  {
    if start < |rest| {
      assert ([x, y] + rest)[start + 2] == rest[start];
      StrideDrop2(x, y, rest, start + 2);
    }
  }

  /** A mark in front adds the pair made of an empty piece and that mark. */
  lemma PairsMarkCons(c: char, rest: seq<string>)
    requires |rest| % 2 == 1
    ensures Pairs(["", [c]] + rest) == [[c]] + Pairs(rest)
  {
    var parts := ["", [c]] + rest;
    StrideDrop2("", [c], rest, 0);
    StrideDrop2("", [c], rest, 1);
    assert Stride(parts, 0) == [""] + Stride(rest, 0);
    assert Stride(parts, 1) == [[c]] + Stride(rest, 1);
    assert "" + [c] == [c];
  }

  /** Any other character in front lengthens the first piece, and so the
      first pair when there is one. */
  lemma PairsCharCons(c: char, rest: seq<string>)
    requires |rest| % 2 == 1
    ensures var pr := Pairs(rest);
      Pairs([[c] + rest[0]] + rest[1..]) == if pr == [] then [] else [[c] + pr[0]] + pr[1..]
  {
    var parts := [[c] + rest[0]] + rest[1..];
    assert parts[1..] == rest[1..];
    StrideSameTail(parts, rest, 1);
    StrideSameTail(parts, rest, 2);
    var s1, s2 := Stride(rest, 1), Stride(rest, 2);
    assert Stride(parts, 0) == [[c] + rest[0]] + s2;
    assert Stride(rest, 0) == [rest[0]] + s2;
    if s1 != [] {
      assert Pairs(rest) == [rest[0] + s1[0]] + ZipJoin(s2, s1[1..]);
      assert Pairs(parts) == [([c] + rest[0]) + s1[0]] + ZipJoin(s2, s1[1..]);
      assert ([c] + rest[0]) + s1[0] == [c] + (rest[0] + s1[0]);
    }
  }

  /** The split followed by the zip yields exactly the marked stretches. */
  lemma {:induction false} PairsOfSplit(t: string)
    ensures Pairs(SplitOnMarks(t)) == MarkedStretches(t)
  {
    if t != [] {
      PairsOfSplit(t[1..]);
      if IsMark(t[0]) {
        PairsMarkCons(t[0], SplitOnMarks(t[1..]));
      } else {
        PairsCharCons(t[0], SplitOnMarks(t[1..]));
      }
    }
  }

  /** Stripping a marked stretch keeps its mark, last, and adds no other mark. */
  lemma StripStretch(s: string)
    requires IsMarkedStretch(s)
    ensures IsMarkedStretch(Strip(s))
  {
    MarkIsNotSpace(s[|s| - 1]);
    StripKeepsLast(s);
    var f := Strip(s);
    var a := |s| - |f|;
    forall k | 0 <= k < |f| - 1 ensures !IsMark(f[k]) {
      assert f[k] == s[..|s| - 1][a + k];
    }
  }

  /** A marked stretch: non-empty, ending with its mark, with no other mark. */
  predicate IsMarkedStretch(s: string)
  {
    s != [] && IsMark(s[|s| - 1]) && NoMark(s[..|s| - 1])
  }

  /** Stripped marked stretches are still marked stretches, and stripped. */
  lemma StripStretches(st: seq<string>)
    requires forall i :: 0 <= i < |st| ==> IsMarkedStretch(st[i])
    ensures var fs := StripAll(st);
      forall i :: 0 <= i < |fs| ==> IsMarkedStretch(fs[i]) && IsStripped(fs[i])
  {
    var fs := StripAll(st);
    forall i | 0 <= i < |fs| ensures IsMarkedStretch(fs[i]) {
      StripStretch(st[i]);
    }
  }

  /** Stripping adds no newline. */
  lemma StripAllNoNewline(st: seq<string>)
    requires forall i :: 0 <= i < |st| ==> '\n' !in st[i]
    ensures var fs := StripAll(st); forall i :: 0 <= i < |fs| ==> '\n' !in fs[i]
  {
    var fs := StripAll(st);
    forall i | 0 <= i < |fs| ensures '\n' !in fs[i] {
      StripChars(st[i]);
    }
  }

  /** The fragments are the stripped marked stretches: none is empty, so the
      filter drops nothing. */
  lemma FragmentsAreStrippedStretches(text: string)
    ensures Fragments(text) == StripAll(MarkedStretches(text))
  {
    PairsOfSplit(text);
    StripStretches(MarkedStretches(text));
  }

  /** The fragments: one per mark of the text, each the stripped stretch of
      text up to and including that mark; every fragment is non-empty,
      stripped, ends with its mark and holds no other mark, and holds no
      newline when the text holds none. */
  lemma FragmentsShape(text: string)
    ensures var st, fs := MarkedStretches(text), Fragments(text);
      |fs| == MarkCount(text) &&
      forall i :: 0 <= i < |fs| ==>
        && fs[i] == Strip(st[i]) && IsStripped(fs[i]) && IsMarkedStretch(fs[i])
        && ('\n' !in text ==> '\n' !in fs[i])
  {
    FragmentsAreStrippedStretches(text);
    StripStretches(MarkedStretches(text));
    if '\n' !in text {
      StretchesNoNewline(text);
      StripAllNoNewline(MarkedStretches(text));
    }
  }

  /** Text with no further mark, added at the end, adds no stretch. */
  lemma {:induction false} StretchesAppend(t: string, s: string)
    requires NoMark(s)
    ensures MarkedStretches(t + s) == MarkedStretches(t)
  {
    if t == [] {
      assert t + s == s;
      MarkCountZero(s);
    } else {
      assert (t + s)[0] == t[0] && (t + s)[1..] == t[1..] + s;
      StretchesAppend(t[1..], s);
    }
  }

  /** Text after the last mark is discarded: the zip has no partner for it. */
  lemma FragmentsIgnoreTail(t: string, s: string)
    requires NoMark(s)
    ensures Fragments(t + s) == Fragments(t)
  {
    PairsOfSplit(t + s);
    PairsOfSplit(t);
    StretchesAppend(t, s);
  }

  // ---------------------------------------------------------------------
  // Packing: the loop over base_phrases and its inner loop over words

  /** The state of the inner loop: what it appended so far, and `temp_line`. */
  datatype Wrap = Wrap(pieces: seq<string>, tempLine: string)

  /** The inner loop of the splitter over the words of a long fragment. */
  function WrapWords(words: seq<string>, maxChars: int): Wrap
  {
    if words == [] then Wrap([], "")
    else
      var w := WrapWords(words[..|words| - 1], maxChars);
      var word := words[|words| - 1];
      if |w.tempLine| + |word| + 1 > maxChars then Wrap(w.pieces + [Strip(w.tempLine)], word)
      else Wrap(w.pieces, w.tempLine + " " + word)
  }

  /** What a fragment longer than `maxChars` adds to `final_chunks`: its word
      pieces, and the remainder of `temp_line` last. */
  function SplitLongPhrase(phrase: string, maxChars: int): seq<string>
  {
    var w := WrapWords(Words(phrase), maxChars);
    w.pieces + [Strip(w.tempLine)]
  }

  /** The state of the outer loop: `final_chunks` and `current_chunk`. */
  datatype Pack = Pack(finalChunks: seq<string>, currentChunk: string)

  /** One turn of the outer loop. A long fragment goes to `final_chunks` as
      word pieces and leaves `current_chunk` as it is. */
  function PackStep(p: Pack, phrase: string, maxChars: int): Pack
  {
    if |phrase| > maxChars then Pack(p.finalChunks + SplitLongPhrase(phrase, maxChars), p.currentChunk)
    else if |p.currentChunk| + |phrase| + 1 > maxChars then Pack(p.finalChunks + [Strip(p.currentChunk)], phrase)
    else Pack(p.finalChunks, Strip(p.currentChunk + " " + phrase))
  }

  /** The outer loop over the fragments, from `final_chunks = []` and `current_chunk = ""`. */
  function PackPhrases(phrases: seq<string>, maxChars: int): Pack
  {
    if phrases == [] then Pack([], "")
    else PackStep(PackPhrases(phrases[..|phrases| - 1], maxChars), phrases[|phrases| - 1], maxChars)
  }

  /** After the loop: flush a non-empty `current_chunk`, then drop empty chunks. */
  function Flush(p: Pack): seq<string>
  {
    NonEmpty(if p.currentChunk != "" then p.finalChunks + [Strip(p.currentChunk)] else p.finalChunks)
  }

  function PackedChunks(phrases: seq<string>, maxChars: int): seq<string>
  {
    Flush(PackPhrases(phrases, maxChars))
  }

  /** `_smart_text_splitter(text, max_chars)`. */
  function SplitText(text: string, maxChars: int): seq<string>
  {
    PackedChunks(Fragments(ReplaceNewlines(text)), maxChars)
  }

  // ---------------------------------------------------------------------
  // What the loops keep true

  /** A well-formed chunk: stripped, on one line, and at most `maxChars`
      long unless it is a single word. */
  predicate ChunkOk(c: string, maxChars: int)
  {
    IsStripped(c) && '\n' !in c && (|c| <= maxChars || NoSpace(c))
  }

  predicate ChunksOk(cs: seq<string>, maxChars: int)
  {
    forall i :: 0 <= i < |cs| ==> ChunkOk(cs[i], maxChars)
  }

  predicate ValidWords(ws: seq<string>)
  {
    forall i :: 0 <= i < |ws| ==> ws[i] != "" && NoSpace(ws[i])
  }

  predicate ValidFragments(fs: seq<string>)
  {
    forall i :: 0 <= i < |fs| ==> fs[i] != "" && IsStripped(fs[i]) && '\n' !in fs[i]
  }

  /** `.strip()` of a line that is at most `maxChars` long or a single word,
      on one line, gives a well-formed chunk. */
  lemma StripChunkOk(s: string, maxChars: int)
    requires '\n' !in s && (|s| <= maxChars || NoSpace(s))
    ensures ChunkOk(Strip(s), maxChars)
  {
    StripChars(s);
    if NoSpace(s) {
      NoSpaceNoNewline(s);
      StripStripped(s);
    }
  }

  lemma ChunksOkAppend(xs: seq<string>, ys: seq<string>, maxChars: int)
    requires ChunksOk(xs, maxChars) && ChunksOk(ys, maxChars)
    ensures ChunksOk(xs + ys, maxChars)
  {
    assert forall i :: |xs| <= i < |xs + ys| ==> (xs + ys)[i] == ys[i - |xs|];
  }

  /** The inner loop keeps `temp_line` on one line and within the limit
      unless it is a single word, and appends only well-formed pieces. */
  ghost predicate WrapShape(w: Wrap, maxChars: int)
  {
    '\n' !in w.tempLine && (|w.tempLine| <= maxChars || NoSpace(w.tempLine)) &&
    ChunksOk(w.pieces, maxChars)
  }

  lemma {:induction false} WrapWordsShape(words: seq<string>, maxChars: int)
    requires ValidWords(words)
    ensures WrapShape(WrapWords(words, maxChars), maxChars)
  {
    if words != [] {
      var init, word := words[..|words| - 1], words[|words| - 1];
      WrapWordsShape(init, maxChars);
      var w := WrapWords(init, maxChars);
      NoSpaceNoNewline(word);
      if |w.tempLine| + |word| + 1 > maxChars {
        StripChunkOk(w.tempLine, maxChars);
        ChunksOkAppend(w.pieces, [Strip(w.tempLine)], maxChars);
      }
    }
  }

  /** The inner loop loses no word: `temp_line` is its stripped self, behind
      one space before the first flush, and joined after the non-empty pieces
      it gives back the words seen so far. */
  ghost predicate WrapJoins(words: seq<string>, w: Wrap)
  {
    var x := Strip(w.tempLine);
    && (w.tempLine == x || (x != "" && w.tempLine == " " + x))
    && Glue(Join(NonEmpty(w.pieces)), x) == Join(words)
    && (words != [] ==> x != "")
  }

  lemma {:induction false} WrapWordsJoin(words: seq<string>, maxChars: int)
    requires ValidWords(words)
    ensures WrapJoins(words, WrapWords(words, maxChars))
  {
    if words != [] {
      var init, word := words[..|words| - 1], words[|words| - 1];
      assert words == init + [word];
      WrapWordsJoin(init, maxChars);
      var w := WrapWords(init, maxChars);
      var x := Strip(w.tempLine);
      assert AllNonEmpty(init);
      JoinSnoc(init, word);
      NoSpaceNoNewline(word);
      if |w.tempLine| + |word| + 1 > maxChars {
        JoinNonEmptySnoc(w.pieces, x);
        StripStripped(word);
      } else {
        WrapAppendWord(w.tempLine, x, word);
        GlueAssoc(Join(NonEmpty(w.pieces)), x, word);
      }
    }
  }

  /** `temp_line += " " + word` strips to the old stripped line glued to the word. */
  lemma WrapAppendWord(temp: string, x: string, word: string)
    requires x == Strip(temp) && (temp == x || (x != "" && temp == " " + x))
    requires word != "" && IsStripped(word)
    ensures var t := temp + " " + word;
      Strip(t) == Glue(x, word) && (t == Glue(x, word) || t == " " + Glue(x, word))
  {
    var g := Glue(x, word);
    GlueStripped(x, word);
    if x == "" {
      assert temp + " " + word == " " + word;
      StripLeadingSpace(word);
    } else if temp == x {
      assert temp + " " + word == g;
      StripStripped(g);
    } else {
      assert temp + " " + word == " " + g;
      StripLeadingSpace(g);
    }
  }

  /** The word pieces of a long fragment are well-formed and, rejoined with
      single spaces, give its words joined with single spaces: no word is
      lost, duplicated or moved. */
  lemma SplitLongPhraseOk(phrase: string, maxChars: int)
    ensures ChunksOk(SplitLongPhrase(phrase, maxChars), maxChars)
    ensures Join(NonEmpty(SplitLongPhrase(phrase, maxChars))) == Join(Words(phrase))
    ensures Words(phrase) != [] ==> NonEmpty(SplitLongPhrase(phrase, maxChars)) != []
  {
    LongPiecesOk(phrase, maxChars);
    LongPiecesJoin(phrase, maxChars);
  }

  lemma LongPiecesOk(phrase: string, maxChars: int)
    ensures ChunksOk(SplitLongPhrase(phrase, maxChars), maxChars)
  {
    var w := WrapWords(Words(phrase), maxChars);
    WrapWordsShape(Words(phrase), maxChars);
    StripChunkOk(w.tempLine, maxChars);
    ChunksOkAppend(w.pieces, [Strip(w.tempLine)], maxChars);
  }

  lemma LongPiecesJoin(phrase: string, maxChars: int)
    ensures Join(NonEmpty(SplitLongPhrase(phrase, maxChars))) == Join(Words(phrase))
    ensures Words(phrase) != [] ==> NonEmpty(SplitLongPhrase(phrase, maxChars)) != []
  {
    var w := WrapWords(Words(phrase), maxChars);
    WrapWordsJoin(Words(phrase), maxChars);
    var x := Strip(w.tempLine);
    JoinNonEmptySnoc(w.pieces, x);
    NonEmptyAppend(w.pieces, [x]);
  }

  /** `current_chunk += " " + phrase` followed by `.strip()` glues the two. */
  lemma StripJoined(cur: string, phrase: string)
    requires IsStripped(cur) && phrase != "" && IsStripped(phrase)
    ensures Strip(cur + " " + phrase) == Glue(cur, phrase)
  {
    GlueStripped(cur, phrase);
    if cur == "" {
      assert cur + " " + phrase == " " + phrase;
      StripLeadingSpace(phrase);
    } else {
      StripStripped(cur + " " + phrase);
    }
  }

  /** The outer loop keeps `current_chunk` stripped, on one line and within
      the limit, and flushes only well-formed chunks. */
  ghost predicate PackShape(p: Pack, maxChars: int)
  {
    && IsStripped(p.currentChunk) && '\n' !in p.currentChunk
    && (p.currentChunk == "" || |p.currentChunk| <= maxChars)
    && ChunksOk(p.finalChunks, maxChars)
  }

  lemma {:induction false} PackPhrasesShape(phrases: seq<string>, maxChars: int)
    requires ValidFragments(phrases)
    ensures PackShape(PackPhrases(phrases, maxChars), maxChars)
  {
    if phrases != [] {
      var init, phrase := phrases[..|phrases| - 1], phrases[|phrases| - 1];
      PackPhrasesShape(init, maxChars);
      var p := PackPhrases(init, maxChars);
      var cur := p.currentChunk;
      if |phrase| > maxChars {
        SplitLongPhraseOk(phrase, maxChars);
        ChunksOkAppend(p.finalChunks, SplitLongPhrase(phrase, maxChars), maxChars);
      } else if |cur| + |phrase| + 1 > maxChars {
        StripStripped(cur);
        ChunksOkAppend(p.finalChunks, [cur], maxChars);
      } else {
        StripJoined(cur, phrase);
        GlueStripped(cur, phrase);
      }
    }
  }

  /** Once a fragment has been seen, a chunk is pending or has been emitted. */
  lemma {:induction false} PackPhrasesProgress(phrases: seq<string>, maxChars: int)
    requires ValidFragments(phrases)
    ensures var p := PackPhrases(phrases, maxChars);
      phrases != [] ==> p.currentChunk != "" || NonEmpty(p.finalChunks) != []
  {
    if phrases != [] {
      var init, phrase := phrases[..|phrases| - 1], phrases[|phrases| - 1];
      PackPhrasesShape(init, maxChars);
      PackPhrasesProgress(init, maxChars);
      var p := PackPhrases(init, maxChars);
      if |phrase| > maxChars {
        SplitLongPhraseOk(phrase, maxChars);
        NonEmptyAppend(p.finalChunks, SplitLongPhrase(phrase, maxChars));
        assert !IsSpace(phrase[0]);
      } else if |p.currentChunk| + |phrase| + 1 <= maxChars {
        StripJoined(p.currentChunk, phrase);
      }
    }
  }

  /** When no fragment is long, the flushed chunks followed by
      `current_chunk`, joined with single spaces, are the fragments joined
      with single spaces. */
  lemma {:induction false} PackPhrasesJoin(phrases: seq<string>, maxChars: int)
    requires ValidFragments(phrases)
    requires forall i :: 0 <= i < |phrases| ==> |phrases[i]| <= maxChars
    ensures var p := PackPhrases(phrases, maxChars);
      Glue(Join(NonEmpty(p.finalChunks)), p.currentChunk) == Join(phrases)
  {
    if phrases != [] {
      var init, phrase := phrases[..|phrases| - 1], phrases[|phrases| - 1];
      assert phrases == init + [phrase];
      PackPhrasesShape(init, maxChars);
      PackPhrasesJoin(init, maxChars);
      var p := PackPhrases(init, maxChars);
      var cur := p.currentChunk;
      assert AllNonEmpty(init);
      JoinSnoc(init, phrase);
      if |cur| + |phrase| + 1 > maxChars {
        StripStripped(cur);
        JoinNonEmptySnoc(p.finalChunks, cur);
      } else {
        StripJoined(cur, phrase);
        GlueAssoc(Join(NonEmpty(p.finalChunks)), cur, phrase);
      }
    }
  }

  // ---------------------------------------------------------------------
  // Properties of the splitter

  lemma ChunksOkNonEmpty(xs: seq<string>, maxChars: int)
    requires ChunksOk(xs, maxChars)
    ensures ChunksOk(NonEmpty(xs), maxChars)
  {
    var r := NonEmpty(xs);
    forall i | 0 <= i < |r| ensures ChunkOk(r[i], maxChars) {
      assert r[i] in xs;
    }
  }

  /** The fragments of the text with its newlines blanked out. */
  lemma NormalizedFragments(text: string)
    ensures ValidFragments(Fragments(ReplaceNewlines(text)))
  {
    FragmentsShape(ReplaceNewlines(text));
  }

  /** Packing well-formed fragments yields well-formed, non-empty chunks. */
  lemma PackedChunksOk(fs: seq<string>, maxChars: int)
    requires ValidFragments(fs)
    ensures var cs := PackedChunks(fs, maxChars);
      forall i :: 0 <= i < |cs| ==> cs[i] != "" && ChunkOk(cs[i], maxChars)
  {
    PackPhrasesShape(fs, maxChars);
    var p := PackPhrases(fs, maxChars);
    StripStripped(p.currentChunk);
    ChunksOkAppend(p.finalChunks, [p.currentChunk], maxChars);
    var all := if p.currentChunk != "" then p.finalChunks + [p.currentChunk] else p.finalChunks;
    ChunksOkNonEmpty(all, maxChars);
  }

  /** Packing yields no chunk exactly when there is no fragment. */
  lemma PackedChunksEmptyIff(fs: seq<string>, maxChars: int)
    requires ValidFragments(fs)
    ensures PackedChunks(fs, maxChars) == [] <==> fs == []
  {
    PackPhrasesShape(fs, maxChars);
    PackPhrasesProgress(fs, maxChars);
    var p := PackPhrases(fs, maxChars);
    StripStripped(p.currentChunk);
    NonEmptyAppend(p.finalChunks, [p.currentChunk]);
  }

  /** Without long fragments, the chunks rejoined with single spaces are the
      fragments rejoined with single spaces. */
  lemma PackedChunksRejoin(fs: seq<string>, maxChars: int)
    requires ValidFragments(fs) && forall i :: 0 <= i < |fs| ==> |fs[i]| <= maxChars
    ensures Join(PackedChunks(fs, maxChars)) == Join(fs)
  {
    PackPhrasesShape(fs, maxChars);
    PackPhrasesJoin(fs, maxChars);
    var p := PackPhrases(fs, maxChars);
    StripStripped(p.currentChunk);
    JoinNonEmptySnoc(p.finalChunks, p.currentChunk);
  }

  /** Every chunk is non-empty, has no leading or trailing whitespace, holds
      no '\n', and is at most `maxChars` long unless it is one word (a word
      longer than the limit is kept whole). */
  lemma SplitTextChunksOk(text: string, maxChars: int)
    ensures var cs := SplitText(text, maxChars);
      forall i :: 0 <= i < |cs| ==> cs[i] != "" && ChunkOk(cs[i], maxChars)
  {
    NormalizedFragments(text);
    PackedChunksOk(Fragments(ReplaceNewlines(text)), maxChars);
  }

  /** Punctuation is required: the splitter returns no chunk exactly when the
      text has none of `.`, `!`, `?`, `,`. */
  lemma SplitTextEmptyIff(text: string, maxChars: int)
    ensures SplitText(text, maxChars) == [] <==> NoMark(text)
  {
    var t := ReplaceNewlines(text);
    assert NoMark(t) <==> NoMark(text) by {
      assert forall k :: 0 <= k < |t| ==> (IsMark(t[k]) <==> IsMark(text[k]));
    }
    FragmentsShape(t);
    MarkCountZero(t);
    NormalizedFragments(text);
    PackedChunksEmptyIff(Fragments(t), maxChars);
  }

  /** Text after the last mark never reaches a chunk. */
  lemma SplitTextIgnoresTail(text: string, tail: string, maxChars: int)
    requires NoMark(tail)
    ensures SplitText(text + tail, maxChars) == SplitText(text, maxChars)
  {
    ReplaceNewlinesAppend(text, tail);
    var r := ReplaceNewlines(tail);
    assert NoMark(r) by {
      assert forall k :: 0 <= k < |r| ==> r[k] == ' ' || r[k] == tail[k];
    }
    FragmentsIgnoreTail(ReplaceNewlines(text), r);
  }

  /** When no fragment exceeds `maxChars`, the chunks keep the fragments in
      order: rejoined with single spaces they give the fragments rejoined with
      single spaces. */
  lemma SplitTextRejoins(text: string, maxChars: int)
    requires var fs := Fragments(ReplaceNewlines(text));
      forall i :: 0 <= i < |fs| ==> |fs[i]| <= maxChars
    ensures Join(SplitText(text, maxChars)) == Join(Fragments(ReplaceNewlines(text)))
  {
    NormalizedFragments(text);
    PackedChunksRejoin(Fragments(ReplaceNewlines(text)), maxChars);
  }

  // ---------------------------------------------------------------------
  // Short and long fragments as two streams

  /** The fragments that fit in `maxChars`, in order. */
  function Shorts(fs: seq<string>, maxChars: int): (r: seq<string>)
    ensures forall i :: 0 <= i < |r| ==> |r[i]| <= maxChars && r[i] in fs
  {
    if fs == [] then []
    else
      var init, f := fs[..|fs| - 1], fs[|fs| - 1];
      assert forall x :: x in init ==> x in fs;
      Shorts(init, maxChars) + (if |f| <= maxChars then [f] else [])
  }

  /** A single fragment is kept exactly when it fits. */
  lemma ShortsOne(f: string, maxChars: int)
    ensures Shorts([f], maxChars) == if |f| <= maxChars then [f] else []
  {
    assert [f][..0] == [];
  }

  /** Every fragment within the limit is kept, in order: filtering a
      concatenation concatenates the filtered parts. */
  lemma {:induction false} ShortsAppend(fs: seq<string>, gs: seq<string>, maxChars: int)
    ensures Shorts(fs + gs, maxChars) == Shorts(fs, maxChars) + Shorts(gs, maxChars)
    decreases |gs|
  {
    if gs == [] {
      assert fs + gs == fs;
    } else {
      var init, g := gs[..|gs| - 1], gs[|gs| - 1];
      assert (fs + gs)[..|fs + gs| - 1] == fs + init;
      ShortsAppend(fs, init, maxChars);
    }
  }

  /** The non-empty word pieces of the fragments longer than `maxChars`, in order. */
  function LongPieces(fs: seq<string>, maxChars: int): seq<string>
  {
    if fs == [] then []
    else
      var init, f := fs[..|fs| - 1], fs[|fs| - 1];
      LongPieces(init, maxChars) + (if |f| > maxChars then NonEmpty(SplitLongPhrase(f, maxChars)) else [])
  }

  /** The words of the fragments longer than `maxChars`, in order. */
  function LongWords(fs: seq<string>, maxChars: int): seq<string>
  {
    if fs == [] then []
    else
      var init, f := fs[..|fs| - 1], fs[|fs| - 1];
      LongWords(init, maxChars) + (if |f| > maxChars then Words(f) else [])
  }

  /** `out` merges `xs` and `ys`, keeping the order within each. */
  predicate Interleaving(out: seq<string>, xs: seq<string>, ys: seq<string>)
    decreases |out|
  {
    if out == [] then xs == [] && ys == []
    else
      var init, c := out[..|out| - 1], out[|out| - 1];
      || (xs != [] && xs[|xs| - 1] == c && Interleaving(init, xs[..|xs| - 1], ys))
      || (ys != [] && ys[|ys| - 1] == c && Interleaving(init, xs, ys[..|ys| - 1]))
  }

  /** A merge holds every element of both, as often as they hold it. */
  lemma {:induction false} InterleavingCounts(out: seq<string>, xs: seq<string>, ys: seq<string>)
    requires Interleaving(out, xs, ys)
    ensures |out| == |xs| + |ys| && multiset(out) == multiset(xs) + multiset(ys)
    decreases |out|
  {
    if out != [] {
      var init, c := out[..|out| - 1], out[|out| - 1];
      assert out == init + [c];
      if xs != [] && xs[|xs| - 1] == c && Interleaving(init, xs[..|xs| - 1], ys) {
        InterleavingCounts(init, xs[..|xs| - 1], ys);
        assert xs == xs[..|xs| - 1] + [c];
      } else {
        InterleavingCounts(init, xs, ys[..|ys| - 1]);
        assert ys == ys[..|ys| - 1] + [c];
      }
    }
  }

  lemma InterleavingLeft(out: seq<string>, xs: seq<string>, ys: seq<string>, c: string)
    requires Interleaving(out, xs, ys)
    ensures Interleaving(out + [c], xs + [c], ys)
  {
    assert (out + [c])[..|out|] == out;
    assert (xs + [c])[..|xs|] == xs;
  }

  lemma {:induction false} InterleavingRight(out: seq<string>, xs: seq<string>, ys: seq<string>, zs: seq<string>)
    requires Interleaving(out, xs, ys)
    ensures Interleaving(out + zs, xs, ys + zs)
    decreases |zs|
  {
    if zs == [] {
      assert out + zs == out && ys + zs == ys;
    } else {
      var init := zs[..|zs| - 1];
      InterleavingRight(out, xs, ys, init);
      assert (out + zs)[..|out + zs| - 1] == out + init;
      assert (ys + zs)[..|ys + zs| - 1] == ys + init;
    }
  }

  /** A flushed line joins the short stream when it is not empty. */
  lemma InterleavingFlush(fp: seq<string>, fq: seq<string>, longs: seq<string>, c: string)
    requires Interleaving(NonEmpty(fp), NonEmpty(fq), longs)
    ensures Interleaving(NonEmpty(fp + [c]), NonEmpty(fq + [c]), longs)
  {
    NonEmptyAppend(fp, [c]);
    NonEmptyAppend(fq, [c]);
    assert NonEmpty([c]) == if c == "" then [] else [c] by {
      assert [c][..0] == [];
    }
    if c != "" {
      InterleavingLeft(NonEmpty(fp), NonEmpty(fq), longs, c);
    } else {
      assert NonEmpty(fp) + [] == NonEmpty(fp) && NonEmpty(fq) + [] == NonEmpty(fq);
    }
  }

  lemma PackPhrasesSnoc(phrases: seq<string>, f: string, maxChars: int)
    ensures PackPhrases(phrases + [f], maxChars) == PackStep(PackPhrases(phrases, maxChars), f, maxChars)
  {
    assert (phrases + [f])[..|phrases|] == phrases;
  }

  /** A long fragment adds its pieces to the long stream only. */
  lemma StreamsLongStep(p: Pack, q: Pack, longs: seq<string>, f: string, maxChars: int)
    requires |f| > maxChars && p.currentChunk == q.currentChunk
    requires Interleaving(NonEmpty(p.finalChunks), NonEmpty(q.finalChunks), longs)
    ensures var p' := PackStep(p, f, maxChars);
      p'.currentChunk == q.currentChunk
      && Interleaving(NonEmpty(p'.finalChunks), NonEmpty(q.finalChunks), longs + NonEmpty(SplitLongPhrase(f, maxChars)))
  {
    var pieces := SplitLongPhrase(f, maxChars);
    NonEmptyAppend(p.finalChunks, pieces);
    InterleavingRight(NonEmpty(p.finalChunks), NonEmpty(q.finalChunks), longs, NonEmpty(pieces));
  }

  /** A short fragment takes the same turn in both runs. */
  lemma StreamsShortStep(p: Pack, q: Pack, longs: seq<string>, f: string, maxChars: int)
    requires |f| <= maxChars && p.currentChunk == q.currentChunk
    requires Interleaving(NonEmpty(p.finalChunks), NonEmpty(q.finalChunks), longs)
    ensures var p', q' := PackStep(p, f, maxChars), PackStep(q, f, maxChars);
      p'.currentChunk == q'.currentChunk
      && Interleaving(NonEmpty(p'.finalChunks), NonEmpty(q'.finalChunks), longs)
  {
    if |p.currentChunk| + |f| + 1 > maxChars {
      InterleavingFlush(p.finalChunks, q.finalChunks, longs, Strip(p.currentChunk));
    }
  }

  /** The outer loop run over all fragments has the `current_chunk` of the
      same loop run over the short fragments alone, and its `final_chunks`
      merge that run's with the long fragments' pieces: a long fragment never
      touches `current_chunk`. */
  lemma {:induction false} PackPhrasesStreams(fs: seq<string>, maxChars: int)
    ensures var p, q := PackPhrases(fs, maxChars), PackPhrases(Shorts(fs, maxChars), maxChars);
      p.currentChunk == q.currentChunk
      && Interleaving(NonEmpty(p.finalChunks), NonEmpty(q.finalChunks), LongPieces(fs, maxChars))
  {
    if fs != [] {
      var init, f := fs[..|fs| - 1], fs[|fs| - 1];
      PackPhrasesStreams(init, maxChars);
      var s := Shorts(init, maxChars);
      var p, q := PackPhrases(init, maxChars), PackPhrases(s, maxChars);
      var longs := LongPieces(init, maxChars);
      assert PackPhrases(fs, maxChars) == PackStep(p, f, maxChars);
      if |f| > maxChars {
        assert Shorts(fs, maxChars) == s by {
          assert s + [] == s;
        }
        assert LongPieces(fs, maxChars) == longs + NonEmpty(SplitLongPhrase(f, maxChars));
        StreamsLongStep(p, q, longs, f, maxChars);
      } else {
        assert Shorts(fs, maxChars) == s + [f];
        assert LongPieces(fs, maxChars) == longs by {
          assert longs + [] == longs;
        }
        PackPhrasesSnoc(s, f, maxChars);
        StreamsShortStep(p, q, longs, f, maxChars);
      }
    }
  }

  /** The chunks merge those of packing the short fragments alone with the
      long fragments' pieces. */
  lemma PackedChunksStreams(fs: seq<string>, maxChars: int)
    ensures Interleaving(PackedChunks(fs, maxChars),
      PackedChunks(Shorts(fs, maxChars), maxChars), LongPieces(fs, maxChars))
  {
    PackPhrasesStreams(fs, maxChars);
    var p, q := PackPhrases(fs, maxChars), PackPhrases(Shorts(fs, maxChars), maxChars);
    if p.currentChunk != "" {
      InterleavingFlush(p.finalChunks, q.finalChunks, LongPieces(fs, maxChars), Strip(p.currentChunk));
    }
  }

  lemma AllNonEmptyAppend(xs: seq<string>, ys: seq<string>)
    requires AllNonEmpty(xs) && AllNonEmpty(ys)
    ensures AllNonEmpty(xs + ys)
  {
    assert forall i :: |xs| <= i < |xs + ys| ==> (xs + ys)[i] == ys[i - |xs|];
  }

  lemma {:induction false} LongStreamsNonEmpty(fs: seq<string>, maxChars: int)
    ensures AllNonEmpty(LongPieces(fs, maxChars)) && AllNonEmpty(LongWords(fs, maxChars))
  {
    if fs != [] {
      var init, f := fs[..|fs| - 1], fs[|fs| - 1];
      LongStreamsNonEmpty(init, maxChars);
      if |f| > maxChars {
        AllNonEmptyAppend(LongPieces(init, maxChars), NonEmpty(SplitLongPhrase(f, maxChars)));
        AllNonEmptyAppend(LongWords(init, maxChars), Words(f));
      } else {
        assert LongPieces(fs, maxChars) == LongPieces(init, maxChars) + [];
        assert LongWords(fs, maxChars) == LongWords(init, maxChars) + [];
        assert LongPieces(init, maxChars) + [] == LongPieces(init, maxChars);
        assert LongWords(init, maxChars) + [] == LongWords(init, maxChars);
      }
    }
  }

  /** The pieces of the long fragments, rejoined with single spaces, are their
      words joined with single spaces. */
  lemma {:induction false} LongPiecesRejoin(fs: seq<string>, maxChars: int)
    ensures Join(LongPieces(fs, maxChars)) == Join(LongWords(fs, maxChars))
  {
    if fs != [] {
      var init, f := fs[..|fs| - 1], fs[|fs| - 1];
      LongPiecesRejoin(init, maxChars);
      LongStreamsNonEmpty(init, maxChars);
      if |f| > maxChars {
        var pieces := NonEmpty(SplitLongPhrase(f, maxChars));
        SplitLongPhraseOk(f, maxChars);
        JoinAppend(LongPieces(init, maxChars), pieces);
        JoinAppend(LongWords(init, maxChars), Words(f));
      } else {
        assert LongPieces(fs, maxChars) == LongPieces(init, maxChars) + [];
        assert LongWords(fs, maxChars) == LongWords(init, maxChars) + [];
        assert LongPieces(init, maxChars) + [] == LongPieces(init, maxChars);
        assert LongWords(init, maxChars) + [] == LongWords(init, maxChars);
      }
    }
  }

  /** Nothing is lost, for every text: the chunks merge two streams, each in
      text order. Those packed from the fragments within the limit rejoin to
      those fragments, and the pieces of the longer fragments rejoin to their
      words; only a long fragment's pieces can overtake a pending chunk. */
  lemma SplitTextStreams(text: string, maxChars: int)
    ensures var fs := Fragments(ReplaceNewlines(text));
      var shortChunks := PackedChunks(Shorts(fs, maxChars), maxChars);
      Interleaving(SplitText(text, maxChars), shortChunks, LongPieces(fs, maxChars))
      && Join(shortChunks) == Join(Shorts(fs, maxChars))
      && Join(LongPieces(fs, maxChars)) == Join(LongWords(fs, maxChars))
  {
    var fs := Fragments(ReplaceNewlines(text));
    NormalizedFragments(text);
    var s := Shorts(fs, maxChars);
    assert ValidFragments(s) by {
      assert forall i :: 0 <= i < |s| ==> s[i] in fs;
    }
    PackedChunksStreams(fs, maxChars);
    PackedChunksRejoin(s, maxChars);
    LongPiecesRejoin(fs, maxChars);
  }

  /** The first fragment, if short, becomes `current_chunk`, with at most an
      empty chunk flushed before it. */
  lemma PackFirst(a: string, maxChars: int)
    requires a != "" && IsStripped(a) && |a| <= maxChars
    ensures var p := PackPhrases([a], maxChars);
      p.currentChunk == a && NonEmpty(p.finalChunks) == []
  {
    assert [a][..0] == [];
    StripJoined("", a);
  }

  /** A short fragment after `current_chunk` joins it when both fit. */
  lemma FlushJoined(f: seq<string>, a: string, b: string, maxChars: int)
    requires NonEmpty(f) == [] && a != "" && IsStripped(a)
    requires b != "" && IsStripped(b) && |a| + |b| + 1 <= maxChars
    ensures Flush(PackStep(Pack(f, a), b, maxChars)) == [a + " " + b]
  {
    StripJoined(a, b);
    var g := a + " " + b;
    assert PackStep(Pack(f, a), b, maxChars) == Pack(f, g);
    StripStripped(g);
    NonEmptyAppend(f, [g]);
  }

  /** A short fragment that does not fit flushes `current_chunk` first. */
  lemma FlushSeparate(f: seq<string>, a: string, b: string, maxChars: int)
    requires NonEmpty(f) == [] && a != "" && IsStripped(a)
    requires b != "" && IsStripped(b) && |b| <= maxChars < |a| + |b| + 1
    ensures Flush(PackStep(Pack(f, a), b, maxChars)) == [a, b]
  {
    StripStripped(a);
    StripStripped(b);
    assert PackStep(Pack(f, a), b, maxChars) == Pack(f + [a], b);
    NonEmptyAppend(f, [a]);
    NonEmptyAppend(f + [a], [b]);
  }

  /** Greedy packing: a second short fragment joins the first with one space
      exactly when the two and the space fit in `maxChars`; otherwise the
      first is emitted and the second starts a new chunk. */
  lemma GreedyPair(a: string, b: string, maxChars: int)
    requires a != "" && IsStripped(a) && |a| <= maxChars
    requires b != "" && IsStripped(b) && |b| <= maxChars
    ensures PackedChunks([a, b], maxChars) ==
      if |a| + |b| + 1 <= maxChars then [a + " " + b] else [a, b]
  {
    PackFirst(a, maxChars);
    PackPhrasesNext([a, b], 1, maxChars);
    assert [a, b][..1] == [a] && [a, b][..2] == [a, b];
    var f := PackPhrases([a], maxChars).finalChunks;
    if |a| + |b| + 1 <= maxChars {
      FlushJoined(f, a, b, maxChars);
    } else {
      FlushSeparate(f, a, b, maxChars);
    }
  }

  /** Three short fragments where the first two fit together and the third
      does not fit after them: two chunks, the first holding two fragments. */
  lemma GreedyTriple(a: string, b: string, c: string, maxChars: int)
    requires a != "" && IsStripped(a) && b != "" && IsStripped(b)
    requires c != "" && IsStripped(c) && |c| <= maxChars
    requires |a| + |b| + 1 <= maxChars < |a| + |b| + |c| + 2
    ensures PackedChunks([a, b, c], maxChars) == [a + " " + b, c]
  {
    var abc := [a, b, c];
    PackFirst(a, maxChars);
    PackPhrasesNext(abc, 1, maxChars);
    PackPhrasesNext(abc, 2, maxChars);
    assert abc[..1] == [a] && abc[..3] == abc;
    var f := PackPhrases([a], maxChars).finalChunks;
    var g := a + " " + b;
    StripJoined(a, b);
    assert PackStep(Pack(f, a), b, maxChars) == Pack(f, g);
    GlueStripped(a, b);
    FlushSeparate(f, g, c, maxChars);
  }

  /** A marked stretch is one stretch by itself. */
  lemma {:induction false} StretchesOfStretch(x: string)
    requires IsMarkedStretch(x)
    ensures MarkedStretches(x) == [x]
    decreases |x|
  {
    if |x| == 1 {
      assert x[1..] == [];
      assert x == [x[0]];
    } else {
      assert x[0] == x[..|x| - 1][0];
      assert x[1..][..|x| - 2] == x[..|x| - 1][1..];
      StretchesOfStretch(x[1..]);
      assert x == [x[0]] + x[1..];
    }
  }

  /** Text cut just after a mark: the stretches of each side, in order. */
  lemma {:induction false} StretchesAfterMark(x: string, y: string)
    requires x != [] && IsMark(x[|x| - 1])
    ensures MarkedStretches(x + y) == MarkedStretches(x) + MarkedStretches(y)
    decreases |x|
  {
    var t := x + y;
    assert t[0] == x[0];
    if |x| == 1 {
      assert t[1..] == y && x[1..] == [];
    } else {
      assert t[1..] == x[1..] + y;
      StretchesAfterMark(x[1..], y);
      MarkCountZero(x[1..]);
      assert x[1..][|x| - 2] == x[|x| - 1];
    }
  }

  /** A space in front of a marked stretch leaves it a marked stretch. */
  lemma SpacedStretch(x: string)
    requires IsMarkedStretch(x)
    ensures IsMarkedStretch(" " + x)
  {
    var y := " " + x;
    assert y[|y| - 1] == x[|x| - 1];
    assert y[..|y| - 1] == " " + x[..|x| - 1];
  }

  /** A marked stretch in front of a text is the first of its stretches. */
  lemma StretchThen(x: string, y: string)
    requires IsMarkedStretch(x)
    ensures MarkedStretches(x + y) == [x] + MarkedStretches(y)
  {
    StretchesAfterMark(x, y);
    StretchesOfStretch(x);
  }

  /** Two sentences, each after a single space, are two stretches. */
  lemma {:induction false} SpacedStretches(b: string, c: string)
    requires IsMarkedStretch(b) && IsMarkedStretch(c)
    ensures MarkedStretches(" " + b + (" " + c)) == [" " + b, " " + c]
  {
    var s2, s3 := " " + b, " " + c;
    SpacedStretch(b);
    SpacedStretch(c);
    StretchThen(s3, "");
    assert s3 + "" == s3;
    StretchThen(s2, s3);
  }

  /** Three sentences separated by single spaces are three stretches. */
  lemma {:induction false} ThreeStretches(a: string, b: string, c: string)
    requires IsMarkedStretch(a) && IsMarkedStretch(b) && IsMarkedStretch(c)
    ensures MarkedStretches(a + " " + b + " " + c) == [a, " " + b, " " + c]
  {
    var s := " " + b + (" " + c);
    SpacedStretches(b, c);
    StretchThen(a, s);
    assert a + " " + b + " " + c == a + s;
  }

  /** Three sentences separated by single spaces, the first two fitting in
      one chunk and the third not fitting after them. */
  lemma ThreeSentences(a: string, b: string, c: string, maxChars: int)
    requires IsMarkedStretch(a) && IsMarkedStretch(b) && IsMarkedStretch(c)
    requires IsStripped(a) && IsStripped(b) && IsStripped(c)
    requires '\n' !in a + " " + b + " " + c
    requires |c| <= maxChars && |a| + |b| + 1 <= maxChars < |a| + |b| + |c| + 2
    ensures SplitText(a + " " + b + " " + c, maxChars) == [a + " " + b, c]
  {
    var text := a + " " + b + " " + c;
    ReplaceNoNewline(text);
    ThreeStretches(a, b, c);
    FragmentsAreStrippedStretches(text);
    StripStripped(a);
    StripLeadingSpace(b);
    StripLeadingSpace(c);
    assert StripAll([a, " " + b, " " + c]) == [a, b, c];
    GreedyTriple(a, b, c, maxChars);
  }

  /** The three sentences of the example below. */
  const DawnFirst := "Рассвет наступил."
  const DawnSecond := "Город проснулся,"
  const DawnThird := "шумный и яркий."

  /** They are marked stretches. */
  lemma DawnStretches()
    ensures IsMarkedStretch(DawnFirst) && IsMarkedStretch(DawnSecond) && IsMarkedStretch(DawnThird)
  {
  }

  /** They are stripped, of lengths 17, 16 and 15, and with single spaces
      they spell the example's text, which has no newline. */
  lemma DawnSentences()
    ensures IsStripped(DawnFirst) && IsStripped(DawnSecond) && IsStripped(DawnThird)
    ensures |DawnFirst| == 17 && |DawnSecond| == 16 && |DawnThird| == 15
    ensures DawnFirst + " " + DawnSecond == "Рассвет наступил. Город проснулся,"
    ensures DawnFirst + " " + DawnSecond + " " + DawnThird ==
      "Рассвет наступил. Город проснулся, шумный и яркий."
    ensures '\n' !in "Рассвет наступил. Город проснулся, шумный и яркий."
  {
    LettersNotSpace(DawnFirst[0]);
    LettersNotSpace(DawnSecond[0]);
    LettersNotSpace(DawnThird[0]);
    PrintableNotSpace('.');
    PrintableNotSpace(',');
  }

  /** The example of a three-sentence text packed into 45 characters: the
      first two fragments share a chunk and the third has one of its own. */
  lemma DawnExample()
    ensures SplitText("Рассвет наступил. Город проснулся, шумный и яркий.", 45) ==
      ["Рассвет наступил. Город проснулся,", "шумный и яркий."]
  {
    DawnStretches();
    DawnSentences();
    ThreeSentences(DawnFirst, DawnSecond, DawnThird, 45);
  }

  /** A long fragment does not flush the pending chunk: its word pieces are
      emitted first and the fragment before it comes out after them. */
  lemma LongFragmentOvertakes(a: string, b: string, maxChars: int)
    requires a != "" && IsStripped(a) && |a| <= maxChars < |b|
    ensures PackedChunks([a, b], maxChars) == NonEmpty(SplitLongPhrase(b, maxChars)) + [a]
  {
    PackFirst(a, maxChars);
    PackPhrasesNext([a, b], 1, maxChars);
    assert [a, b][..1] == [a] && [a, b][..2] == [a, b];
    var f := PackPhrases([a], maxChars).finalChunks;
    assert PackStep(Pack(f, a), b, maxChars) == Pack(f + SplitLongPhrase(b, maxChars), a);
    FlushAfterPieces(f, SplitLongPhrase(b, maxChars), a);
  }

  /** The pending chunk is flushed after whatever pieces were emitted meanwhile. */
  lemma FlushAfterPieces(f: seq<string>, pieces: seq<string>, a: string)
    requires NonEmpty(f) == [] && a != "" && IsStripped(a)
    ensures Flush(Pack(f + pieces, a)) == NonEmpty(pieces) + [a]
  {
    StripStripped(a);
    var g := f + pieces;
    assert Flush(Pack(g, a)) == NonEmpty(g + [a]);
    NonEmptyAppend(f, pieces);
    NonEmptyAppend(g, [a]);
    assert NonEmpty([a]) == [a] by {
      assert [a][..0] == [];
    }
    assert NonEmpty(g) == NonEmpty(pieces);
  }

  /** Regrouping appends. Stated apart so that `PackFragments` sees only this
      fact and not the strings involved: asserted inline, its proof runs out
      of resource. */
  lemma AppendAssoc(a: seq<string>, b: seq<string>, c: seq<string>)
    ensures (a + b) + c == a + (b + c)
  {
  }

  /** One more fragment is one more turn of the outer loop. */
  lemma PackPhrasesNext(phrases: seq<string>, k: nat, maxChars: int)
    requires k < |phrases|
    ensures PackPhrases(phrases[..k + 1], maxChars) ==
      PackStep(PackPhrases(phrases[..k], maxChars), phrases[k], maxChars)
  {
    assert phrases[..k + 1][..k] == phrases[..k];
  }

  /** One more word is one more turn of the inner loop. */
  lemma WrapWordsNext(words: seq<string>, j: nat, maxChars: int)
    requires j < |words|
    ensures var w := WrapWords(words[..j], maxChars);
      WrapWords(words[..j + 1], maxChars) ==
        if |w.tempLine| + |words[j]| + 1 > maxChars then Wrap(w.pieces + [Strip(w.tempLine)], words[j])
        else Wrap(w.pieces, w.tempLine + " " + words[j])
  {
    assert words[..j + 1][..j] == words[..j];
  }

  // ---------------------------------------------------------------------
  // The splitter as the source writes it

  /** `VideoPipeline._smart_text_splitter`: blank out newlines, cut into
      fragments, then pack them. */
  method SmartTextSplitter(text: string, maxChars: int) returns (chunks: seq<string>)
    ensures chunks == SplitText(text, maxChars)
    ensures forall i :: 0 <= i < |chunks| ==> chunks[i] != "" && ChunkOk(chunks[i], maxChars)
    ensures chunks == [] <==> NoMark(text)
  {
    var normalized := ReplaceNewlines(text);
    var basePhrases := Fragments(normalized);
    chunks := PackFragments(basePhrases, maxChars);
    SplitTextChunksOk(text, maxChars);
    SplitTextEmptyIff(text, maxChars);
  }

  /** The loop of `_smart_text_splitter` over `base_phrases`, with its inner
      loop over the words of a long fragment. */
  method PackFragments(basePhrases: seq<string>, maxChars: int) returns (chunks: seq<string>)
    ensures chunks == PackedChunks(basePhrases, maxChars)
  {
    var finalChunks: seq<string> := [];
    var currentChunk := "";
    for k := 0 to |basePhrases|
      invariant Pack(finalChunks, currentChunk) == PackPhrases(basePhrases[..k], maxChars)
    {
      var phrase := basePhrases[k];
      if |phrase| > maxChars {
        var words := Words(phrase);
        var tempLine := "";
        ghost var before := finalChunks;
        for j := 0 to |words|
          invariant finalChunks == before + WrapWords(words[..j], maxChars).pieces
          invariant tempLine == WrapWords(words[..j], maxChars).tempLine
        {
          WrapWordsNext(words, j, maxChars);
          var word := words[j];
          if |tempLine| + |word| + 1 > maxChars {
            finalChunks := finalChunks + [Strip(tempLine)];
            tempLine := word;
          } else {
            tempLine := tempLine + " " + word;
          }
        }
        assert words[..|words|] == words;
        AppendAssoc(before, WrapWords(words, maxChars).pieces, [Strip(tempLine)]);
        finalChunks := finalChunks + [Strip(tempLine)];
        PackPhrasesNext(basePhrases, k, maxChars);
        continue;
      }
      PackPhrasesNext(basePhrases, k, maxChars);
      if |currentChunk| + |phrase| + 1 > maxChars {
        finalChunks := finalChunks + [Strip(currentChunk)];
        currentChunk := phrase;
      } else {
        currentChunk := currentChunk + " " + phrase;
        currentChunk := Strip(currentChunk);
      }
    }
    assert basePhrases[..|basePhrases|] == basePhrases;
    if currentChunk != "" {
      finalChunks := finalChunks + [Strip(currentChunk)];
    }
    chunks := NonEmpty(finalChunks);
  }
}
