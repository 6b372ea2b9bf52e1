/** The files `generate_audio_and_srt` names under `tmp/`, and the ffmpeg
    concat-demuxer list it writes for the audio chunks. */
module Artifacts {
  import opened Strings

  function SrtPath(base: string): string
  {
    "tmp/" + base + ".srt"
  }

  /** `f"tmp/{base_filename}_chunk_{i}.mp3"`. */
  function ChunkPath(base: string, i: nat): string
  {
    "tmp/" + base + "_chunk_" + Decimal(i) + ".mp3"
  }

  function FinalAudioPath(base: string): string
  {
    "tmp/" + base + "_final.mp3"
  }

  function ConcatListPath(base: string): string
  {
    "tmp/" + base + "_concat.txt"
  }

  /** The chunk paths of the first `n` chunks, in order. */
  function ChunkPaths(base: string, n: nat): (ps: seq<string>)
    ensures |ps| == n && forall i :: 0 <= i < n ==> ps[i] == ChunkPath(base, i)
  {
    seq(n, i requires 0 <= i < n => ChunkPath(base, i))
  }

  /** `os.path.basename`: what follows the last '/'. */
  function Basename(p: string): (b: string)
    ensures '/' !in b && |b| <= |p|
    ensures forall k :: 0 <= k < |b| ==> b[k] == p[|p| - |b| + k]
    ensures |b| < |p| ==> p[|p| - |b| - 1] == '/'
  {
    if p == [] || p[|p| - 1] == '/' then []
    else
      var b := Basename(p[..|p| - 1]) + [p[|p| - 1]];
      assert forall k :: 0 <= k < |b| - 1 ==> b[k] == p[..|p| - 1][|p| - |b| + k];
      b
  }

  /** The directive that follows every file in the list: `f"duration {pause}"`
      with `pause = 0.1`. */
  const DurationLine: string := "duration 0.1"

  function FileLine(path: string): string
  {
    "file '" + Basename(path) + "'"
  }

  /** The lines of the concat list: each chunk's file line, then the pause. */
  function ManifestLines(paths: seq<string>): seq<string>
  {
    if paths == [] then []
    else ManifestLines(paths[..|paths| - 1]) + [FileLine(paths[|paths| - 1]), DurationLine]
  }

  /** The text of `tmp/{base}_concat.txt`. */
  function ManifestText(paths: seq<string>): string
  {
    JoinLines(ManifestLines(paths))
  }

  // ---------------------------------------------------------------------
  // Writing the list

  /** The loop at the end of `generate_audio_and_srt` that writes two lines per chunk. */
  method WriteManifest(paths: seq<string>) returns (text: string)
    ensures text == ManifestText(paths)
  {
    text := "";
    for k := 0 to |paths|
      invariant text == ManifestText(paths[..k])
    {
      var before := ManifestLines(paths[..k]);
      assert paths[..k + 1][..k] == paths[..k];
      var pair := [FileLine(paths[k]), DurationLine];
      JoinLinesAppend(before, pair);
      JoinLinesPair(FileLine(paths[k]), DurationLine);
      text := text + FileLine(paths[k]) + "\n";
      text := text + DurationLine + "\n";
    }
    assert paths[..|paths|] == paths;
  }

  // ---------------------------------------------------------------------
  // Properties

  /** Two lines per recorded chunk, in chunk order: the file, then the pause,
      also after the last chunk. */
  lemma {:induction false} ManifestShape(paths: seq<string>)
    ensures |ManifestLines(paths)| == 2 * |paths|
    ensures forall i :: 0 <= i < |paths| ==>
      ManifestLines(paths)[2 * i] == FileLine(paths[i]) && ManifestLines(paths)[2 * i + 1] == DurationLine
  {
    if paths != [] {
      var n := |paths| - 1;
      ManifestShape(paths[..n]);
      var init := ManifestLines(paths[..n]);
      assert ManifestLines(paths) == init + [FileLine(paths[n]), DurationLine];
      assert forall i :: 0 <= i < n ==> paths[..n][i] == paths[i];
    }
  }

  lemma {:induction false} ManifestOneLinePerEntry(paths: seq<string>)
    requires forall i :: 0 <= i < |paths| ==> '\n' !in paths[i]
    ensures forall i :: 0 <= i < |ManifestLines(paths)| ==> '\n' !in ManifestLines(paths)[i]
  {
    ManifestShape(paths);
    var ls := ManifestLines(paths);
    forall i | 0 <= i < |ls| ensures '\n' !in ls[i] {
      var j := i / 2;
      assert i == 2 * j || i == 2 * j + 1;
      if i == 2 * j {
        var b := Basename(paths[j]);
        assert forall k :: 0 <= k < |b| ==> b[k] == paths[j][|paths[j]| - |b| + k];
        assert '\n' !in b;
      }
    }
  }

  /** Reading the list back line by line gives exactly the written lines,
      as long as no path holds a newline. */
  lemma ManifestReadsBack(paths: seq<string>)
    requires forall i :: 0 <= i < |paths| ==> '\n' !in paths[i]
    ensures SplitLines(ManifestText(paths)) == ManifestLines(paths)
  {
    ManifestOneLinePerEntry(paths);
    SplitJoinLines(ManifestLines(paths));
  }

  /** A string is its prefix and its last character. Stated apart over an
      abstract string: asserted inside `BasenameAfterSlash`, where the string
      is a concatenation, its proof runs out of resource. */
  lemma LastSplit(s: string)
    requires s != []
    ensures s[..|s| - 1] + [s[|s| - 1]] == s
  {
  }

  lemma BasenameSnoc(q: string, c: char)
    requires c != '/'
    ensures Basename(q + [c]) == Basename(q) + [c]
  {
    assert (q + [c])[..|q|] == q;
  }

  /** The base name of a path is what follows its last separator. */
  lemma {:induction false} BasenameAfterSlash(dir: string, name: string)
    requires '/' !in name
    ensures Basename(dir + "/" + name) == name
    decreases |name|
  {
    if name == [] {
      assert dir + "/" + name == dir + "/";
    } else {
      var n := |name| - 1;
      var q := dir + "/" + name[..n];
      assert dir + "/" + name == q + [name[n]];
      BasenameSnoc(q, name[n]);
      BasenameAfterSlash(dir, name[..n]);
      LastSplit(name);
    }
  }

  /** The list names each chunk by `{base}_chunk_{i}.mp3`, which the concat
      demuxer resolves next to the list in `tmp/`. */
  lemma ChunkBasename(base: string, i: nat)
    requires '/' !in base
    ensures Basename(ChunkPath(base, i)) == base + "_chunk_" + Decimal(i) + ".mp3"
  {
    var name := base + "_chunk_" + Decimal(i) + ".mp3";
    assert ChunkPath(base, i) == "tmp" + "/" + name;
    assert forall k :: 0 <= k < |Decimal(i)| ==> Decimal(i)[k] != '/';
    BasenameAfterSlash("tmp", name);
  }

  lemma ChunkFileLine(base: string, i: nat)
    requires '/' !in base
    ensures FileLine(ChunkPath(base, i)) == "file '" + base + "_chunk_" + Decimal(i) + ".mp3'"
  {
    ChunkBasename(base, i);
  }

  /** Distinct chunks are saved to distinct files. */
  lemma ChunkPathInjective(base: string, i: nat, j: nat)
    requires ChunkPath(base, i) == ChunkPath(base, j)
    ensures i == j
  {
    var pre := "tmp/" + base + "_chunk_";
    var a, b := Decimal(i) + ".mp3", Decimal(j) + ".mp3";
    assert ChunkPath(base, i) == pre + a && ChunkPath(base, j) == pre + b;
    assert a == (pre + a)[|pre|..] && b == (pre + b)[|pre|..];
    assert Decimal(i) == a[..|a| - 4] && Decimal(j) == b[..|b| - 4];
    DecimalInjective(i, j);
  }

  /** Nor do chunk files collide with the other artifacts of the run. */
  lemma ChunkPathsDistinctFromArtifacts(base: string, i: nat)
    ensures ChunkPath(base, i) != SrtPath(base)
    ensures ChunkPath(base, i) != FinalAudioPath(base)
    ensures ChunkPath(base, i) != ConcatListPath(base)
  {
    var pre := "tmp/" + base;
    assert ChunkPath(base, i) == pre + ("_chunk_" + Decimal(i) + ".mp3");
    assert SrtPath(base) == pre + ".srt";
    assert FinalAudioPath(base) == pre + "_final.mp3";
    assert ConcatListPath(base) == pre + "_concat.txt";
    var c := ChunkPath(base, i);
    assert c[|pre| + 1] == 'c';
    assert |c| > |pre| + 1 ==> c[|pre| + 1] == 'c';
  }

  /** The list for chunks `0 .. n-1` of a run: `file '{base}_chunk_{i}.mp3'`
      and `duration 0.1` for each, in chunk order. */
  lemma ManifestOfChunks(base: string, n: nat)
    requires '/' !in base
    ensures var ls := ManifestLines(ChunkPaths(base, n));
      |ls| == 2 * n &&
      forall i :: 0 <= i < n ==>
        ls[2 * i] == "file '" + base + "_chunk_" + Decimal(i) + ".mp3'" && ls[2 * i + 1] == DurationLine
  {
    var ps := ChunkPaths(base, n);
    ManifestShape(ps);
    forall i | 0 <= i < n
      ensures FileLine(ps[i]) == "file '" + base + "_chunk_" + Decimal(i) + ".mp3'"
    {
      ChunkFileLine(base, i);
    }
  }

  /** A chunk path is one line when the base name is. */
  lemma ChunkPathOneLine(base: string, i: nat)
    requires '\n' !in base
    ensures '\n' !in ChunkPath(base, i)
  {
    AllDigitsNoNewline(Decimal(i));
  }

  /** The list written for chunks `0 .. n-1`, read back line by line, is
      `2 n` lines: each chunk's file name, then the pause. */
  lemma ManifestOfChunksReadsBack(base: string, n: nat)
    requires '/' !in base && '\n' !in base
    ensures var ls := SplitLines(ManifestText(ChunkPaths(base, n)));
      |ls| == 2 * n &&
      forall i :: 0 <= i < n ==>
        ls[2 * i] == "file '" + base + "_chunk_" + Decimal(i) + ".mp3'" && ls[2 * i + 1] == DurationLine
  {
    var ps := ChunkPaths(base, n);
    forall i | 0 <= i < |ps| ensures '\n' !in ps[i] {
      ChunkPathOneLine(base, i);
    }
    ManifestReadsBack(ps);
    ManifestOfChunks(base, n);
  }
}
