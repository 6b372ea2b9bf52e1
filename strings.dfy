/** The Python string primitives the pipeline relies on, over strings of
    Unicode scalar values (Python's `len` counts code points, as `|s|` does). */
module Strings {

  /** Whether `n` lies in one of the closed ranges `rs`. */
  function InRanges(n: int, rs: seq<(int, int)>): bool
  {
    rs != [] && ((rs[0].0 <= n <= rs[0].1) || InRanges(n, rs[1..]))
  }

  /** Ranges listed in increasing order, without overlap. */
  predicate Ascending(rs: seq<(int, int)>)
  {
    forall i :: 0 <= i < |rs| ==> rs[i].0 <= rs[i].1 && (i + 1 < |rs| ==> rs[i].1 < rs[i + 1].0)
  }

  lemma {:induction false} BelowRanges(n: int, rs: seq<(int, int)>)
    requires Ascending(rs) && (rs != [] ==> n < rs[0].0)
    ensures !InRanges(n, rs)
  {
    if rs != [] {
      BelowRanges(n, rs[1..]);
    }
  }

  /** The code points for which Python's `str.isspace()` holds, as ranges;
      `str.split()` and `str.strip()` without arguments use the same set. */
  const SpaceTable: seq<(int, int)> :=
    [(0x09, 0x0D), (0x1C, 0x20), (0x85, 0x85), (0xA0, 0xA0), (0x1680, 0x1680),
     (0x2000, 0x200A), (0x2028, 0x2029), (0x202F, 0x202F), (0x205F, 0x205F), (0x3000, 0x3000)]

  function SpaceRanges(): seq<(int, int)>
  {
    SpaceTable
  }

  /** Python's `str.isspace()` of one character. */
  predicate IsSpace(c: char)
  {
    InRanges(c as int, SpaceRanges())
  }

  /** Of the ASCII characters from `!` up, none is whitespace. */
  lemma PrintableNotSpace(c: char)
    requires 0x21 <= c as int <= 0x84
    ensures !IsSpace(c)
  {
    var rs, n := SpaceRanges(), c as int;
    assert Ascending(rs[2..]);
    BelowRanges(n, rs[2..]);
    assert rs[1..][1..] == rs[2..] && rs[1..][0] == (0x1C, 0x20);
    assert !InRanges(n, rs[1..]);
  }

  /** Nor is any character from U+00A1 to U+167F: Latin-1 letters, Greek,
      Cyrillic and the other alphabets up to the Ogham space mark. */
  lemma LettersNotSpace(c: char)
    requires 0xA1 <= c as int <= 0x167F
    ensures !IsSpace(c)
  {
    var rs, n := SpaceRanges(), c as int;
    assert Ascending(rs[4..]);
    BelowRanges(n, rs[4..]);
    var r3 := rs[3..];
    assert r3[0] == (0xA0, 0xA0) && r3[1..] == rs[4..];
    assert !InRanges(n, r3);
    assert rs[2..][0] == (0x85, 0x85) && rs[2..][1..] == r3;
    assert !InRanges(n, rs[2..]);
    assert rs[1..][0] == (0x1C, 0x20) && rs[1..][1..] == rs[2..];
    assert !InRanges(n, rs[1..]);
  }

  /** A string without any whitespace: the shape of one word of `str.split()`. */
  predicate NoSpace(s: string)
  {
    forall k :: 0 <= k < |s| ==> !IsSpace(s[k])
  }

  /** Neither starts nor ends with whitespace. */
  predicate IsStripped(s: string)
  {
    s == [] || (!IsSpace(s[0]) && !IsSpace(s[|s| - 1]))
  }

  lemma SpaceAndNewlineAreSpace()
    ensures IsSpace(' ') && IsSpace('\n')
  {
    assert ' ' as int == 0x20 && '\n' as int == 0x0A;
    assert InRanges(0x20, SpaceRanges()[1..]);
  }

  lemma NoSpaceNoNewline(s: string)
    requires NoSpace(s)
    ensures '\n' !in s && IsStripped(s)
  {
    SpaceAndNewlineAreSpace();
    forall k | 0 <= k < |s| ensures s[k] != '\n' {
      assert !IsSpace(s[k]);
    }
  }

  /** Python's `str.strip()`: whitespace dropped at both ends. */
  function Strip(s: string): (r: string)
    ensures IsStripped(r) && |r| <= |s|
  {
    if s != [] && IsSpace(s[0]) then Strip(s[1..])
    else if s != [] && IsSpace(s[|s| - 1]) then Strip(s[..|s| - 1])
    else s
  }

  /** An already stripped string is its own strip. */
  lemma StripStripped(s: string)
    requires IsStripped(s)
    ensures Strip(s) == s
  {
  }

  /** Stripping keeps only characters of the string. */
  lemma {:induction false} StripChars(s: string)
    ensures forall c :: c in Strip(s) ==> c in s
  {
    if s != [] && IsSpace(s[0]) {
      StripChars(s[1..]);
    } else if s != [] && IsSpace(s[|s| - 1]) {
      StripChars(s[..|s| - 1]);
    }
  }

  /** Stripping gives the empty string exactly for all-whitespace strings. */
  lemma {:induction false} StripEmptyIff(s: string)
    ensures Strip(s) == [] <==> forall k :: 0 <= k < |s| ==> IsSpace(s[k])
  {
    if s != [] && IsSpace(s[0]) {
      StripEmptyIff(s[1..]);
      assert forall k :: 0 < k < |s| ==> s[k] == s[1..][k - 1];
    } else if s != [] && IsSpace(s[|s| - 1]) {
      StripEmptyIff(s[..|s| - 1]);
      assert forall k :: 0 <= k < |s| - 1 ==> s[k] == s[..|s| - 1][k];
    }
  }

  /** `s[a..b]` has only whitespace before and after it in `s`. */
  predicate SpaceAround(s: string, a: int, b: int)
  {
    0 <= a <= b <= |s| && (forall k :: 0 <= k < a ==> IsSpace(s[k]))
    && (forall k :: b <= k < |s| ==> IsSpace(s[k]))
  }

  lemma SpaceAroundFront(s: string, a: int, b: int)
    requires s != [] && IsSpace(s[0]) && SpaceAround(s[1..], a, b)
    ensures SpaceAround(s, a + 1, b + 1) && s[1..][a..b] == s[a + 1..b + 1]
  {
    assert forall k :: 1 <= k < |s| ==> s[k] == s[1..][k - 1];
  }

  lemma SpaceAroundBack(s: string, a: int, b: int)
    requires s != [] && IsSpace(s[|s| - 1]) && SpaceAround(s[..|s| - 1], a, b)
    ensures SpaceAround(s, a, b) && s[..|s| - 1][a..b] == s[a..b]
  {
  }

  /** Stripping removes whitespace at the two ends and nothing else: the
      result is a slice of the string with only whitespace around it. */
  lemma {:induction false} StripSlice(s: string)
    ensures exists a, b :: SpaceAround(s, a, b) && Strip(s) == s[a..b]
  {
    if s != [] && IsSpace(s[0]) {
      StripSlice(s[1..]);
      var a, b :| SpaceAround(s[1..], a, b) && Strip(s[1..]) == s[1..][a..b];
      SpaceAroundFront(s, a, b);
    } else if s != [] && IsSpace(s[|s| - 1]) {
      StripSlice(s[..|s| - 1]);
      var a, b :| SpaceAround(s[..|s| - 1], a, b) && Strip(s[..|s| - 1]) == s[..|s| - 1][a..b];
      SpaceAroundBack(s, a, b);
    } else {
      assert SpaceAround(s, 0, |s|) && Strip(s) == s[0..|s|];
    }
  }

  /** When the last character is not whitespace, stripping only drops a
      prefix. */
  lemma {:induction false} StripKeepsLast(s: string)
    requires s != [] && !IsSpace(s[|s| - 1])
    ensures Strip(s) != [] && Strip(s) == s[|s| - |Strip(s)|..]
  {
    if IsSpace(s[0]) {
      StripKeepsLast(s[1..]);
    }
  }

  /** Stripping a space in front of an already stripped string gives it back. */
  lemma StripLeadingSpace(s: string)
    requires IsStripped(s)
    ensures Strip(" " + s) == s
  {
    SpaceAndNewlineAreSpace();
    var t := " " + s;
    assert t[0] == ' ' && t[1..] == s;
  }

  /** Gluing two strings with one space, as `current += " " + phrase` followed
      by `.strip()` does when one side may be empty. */
  function Glue(a: string, b: string): string
  {
    if a == "" then b else if b == "" then a else a + " " + b
  }

  lemma GlueStripped(a: string, b: string)
    requires IsStripped(a) && IsStripped(b)
    ensures IsStripped(Glue(a, b))
    ensures '\n' !in a && '\n' !in b ==> '\n' !in Glue(a, b)
  {
    if a != "" && b != "" {
      var g := a + " " + b;
      assert g[0] == a[0] && g[|g| - 1] == b[|b| - 1];
      assert forall k :: 0 <= k < |g| ==> g[k] in a || g[k] == ' ' || g[k] in b;
    }
  }

  lemma GlueAssoc(a: string, b: string, c: string)
    ensures Glue(a, Glue(b, c)) == Glue(Glue(a, b), c)
  {
    if a != "" && b != "" && c != "" {
      assert a + " " + (b + " " + c) == (a + " " + b) + " " + c;
    }
  }

  /** Python's `" ".join(xs)`. */
  function Join(xs: seq<string>): string
  {
    if |xs| == 0 then "" else if |xs| == 1 then xs[0]
    else Join(xs[..|xs| - 1]) + " " + xs[|xs| - 1]
  }

  predicate AllNonEmpty(xs: seq<string>)
  {
    forall i :: 0 <= i < |xs| ==> xs[i] != ""
  }

  /** Appending a non-empty element to a list of non-empty strings glues it on. */
  lemma JoinSnoc(xs: seq<string>, x: string)
    requires AllNonEmpty(xs) && x != ""
    ensures Join(xs + [x]) == Glue(Join(xs), x)
  {
    assert (xs + [x])[..|xs|] == xs;
    if xs != [] {
      assert Join(xs) != "" by {
        if |xs| > 1 {
          assert |Join(xs)| >= |xs[|xs| - 1]|;
        }
      }
    }
  }

  /** Joining two lists of non-empty strings glues their joins. */
  lemma {:induction false} JoinAppend(xs: seq<string>, ys: seq<string>)
    requires AllNonEmpty(xs) && AllNonEmpty(ys)
    ensures Join(xs + ys) == Glue(Join(xs), Join(ys))
    decreases |ys|
  {
    if ys == [] {
      assert xs + ys == xs;
    } else {
      var init, y := ys[..|ys| - 1], ys[|ys| - 1];
      assert ys == init + [y];
      assert xs + ys == (xs + init) + [y];
      JoinAppend(xs, init);
      JoinSnoc(xs + init, y);
      JoinSnoc(init, y);
      GlueAssoc(Join(xs), Join(init), y);
    }
  }

  /** The list comprehension `[x for x in xs if x]`. */
  function NonEmpty(xs: seq<string>): (r: seq<string>)
    ensures AllNonEmpty(r) && |r| <= |xs|
    ensures forall i :: 0 <= i < |r| ==> r[i] in xs
    ensures AllNonEmpty(xs) ==> r == xs
  {
    if xs == [] then []
    else
      var init, last := xs[..|xs| - 1], xs[|xs| - 1];
      assert xs == init + [last];
      NonEmpty(init) + (if last == "" then [] else [last])
  }

  lemma NonEmptyAppend(xs: seq<string>, ys: seq<string>)
    ensures NonEmpty(xs + ys) == NonEmpty(xs) + NonEmpty(ys)
  {
    if ys != [] {
      var init := ys[..|ys| - 1];
      assert (xs + ys)[..|xs + ys| - 1] == xs + init;
      NonEmptyAppend(xs, init);
    } else {
      assert xs + ys == xs;
    }
  }

  /** Filtering out empty strings does not change the text joined from the
      non-empty ones when one more element is appended. */
  lemma JoinNonEmptySnoc(xs: seq<string>, x: string)
    ensures Join(NonEmpty(xs + [x])) == Glue(Join(NonEmpty(xs)), x)
  {
    NonEmptyAppend(xs, [x]);
    if x != "" {
      JoinSnoc(NonEmpty(xs), x);
    } else {
      assert NonEmpty(xs + [x]) == NonEmpty(xs);
    }
  }

  /** The length of the leading run of non-whitespace characters. */
  function WordLength(s: string): (n: nat)
    ensures n <= |s| && NoSpace(s[..n])
    ensures n < |s| ==> IsSpace(s[n])
  {
    if s == [] || IsSpace(s[0]) then 0
    else
      var n := 1 + WordLength(s[1..]);
      assert s[..n] == [s[0]] + s[1..][..n - 1];
      n
  }

  /** Python's `str.split()` without arguments: the maximal runs of
      non-whitespace characters, in order. */
  function Words(s: string): (ws: seq<string>)
    ensures forall i :: 0 <= i < |ws| ==> ws[i] != "" && NoSpace(ws[i])
    ensures ws == [] <==> forall k :: 0 <= k < |s| ==> IsSpace(s[k])
    decreases |s|
  {
    if s == [] then []
    else if IsSpace(s[0]) then
      var ws := Words(s[1..]);
      assert forall k :: 0 < k < |s| ==> s[k] == s[1..][k - 1];
      ws
    else
      var n := WordLength(s);
      var word, rest := s[..n], Words(s[n..]);
      var ws := [word] + rest;
      assert forall i :: 0 < i < |ws| ==> ws[i] == rest[i - 1];
      ws
  }

  /** A word runs up to the first whitespace character. */
  lemma {:induction false} WordLengthAppend(s: string, r: string)
    requires r != [] && IsSpace(r[0])
    ensures WordLength(s + r) == WordLength(s)
  {
    if s != [] && !IsSpace(s[0]) {
      assert (s + r)[1..] == s[1..] + r;
      WordLengthAppend(s[1..], r);
    } else if s == [] {
      assert s + r == r;
    }
  }

  /** A string without whitespace is one word. */
  lemma {:induction false} WordLengthNoSpace(w: string)
    requires NoSpace(w)
    ensures WordLength(w) == |w|
  {
    if w != [] {
      WordLengthNoSpace(w[1..]);
    }
  }

  /** `w.split()` of a single word is that word. */
  lemma WordsOfWord(w: string)
    requires w != "" && NoSpace(w)
    ensures Words(w) == [w]
  {
    WordLengthNoSpace(w);
    assert w[..|w|] == w && w[|w|..] == [];
  }

  lemma WordsSkipSpace(u: string)
    requires u != [] && IsSpace(u[0])
    ensures Words(u) == Words(u[1..])
  {
  }

  lemma WordsTakeWord(u: string)
    requires u != [] && !IsSpace(u[0])
    ensures Words(u) == [u[..WordLength(u)]] + Words(u[WordLength(u)..])
  {
  }

  lemma SliceOfAppend(s: string, r: string, n: nat)
    requires n <= |s|
    ensures (s + r)[..n] == s[..n] && (s + r)[n..] == s[n..] + r
  {
  }

  lemma WordsAppendSpace(s: string, r: string)
    requires s != [] && IsSpace(s[0])
    requires Words(s[1..] + r) == Words(s[1..]) + Words(r)
    ensures Words(s + r) == Words(s) + Words(r)
  {
    SliceOfAppend(s, r, 1);
    assert (s + r)[0] == s[0];
    WordsSkipSpace(s + r);
    WordsSkipSpace(s);
  }

  lemma ConsThenAppend(a: seq<string>, b: seq<string>, x: seq<string>, y: seq<string>, z: seq<string>, h: string)
    requires a == [h] + x && b == [h] + y && x == y + z
    ensures a == b + z
  {
  }

  lemma WordsAppendWord(s: string, r: string)
    requires r != [] && IsSpace(r[0]) && s != [] && !IsSpace(s[0])
    requires Words(s[WordLength(s)..] + r) == Words(s[WordLength(s)..]) + Words(r)
    ensures Words(s + r) == Words(s) + Words(r)
  {
    WordLengthAppend(s, r);
    var n := WordLength(s);
    SliceOfAppend(s, r, n);
    assert (s + r)[0] == s[0];
    WordsTakeWord(s + r);
    WordsTakeWord(s);
    ConsThenAppend(Words(s + r), Words(s), Words(s[n..] + r), Words(s[n..]), Words(r), s[..n]);
  }

  /** Words followed by text that starts with whitespace: no word spans the
      boundary and none is lost. */
  lemma {:induction false} WordsAppend(s: string, r: string)
    requires r != [] && IsSpace(r[0])
    ensures Words(s + r) == Words(s) + Words(r)
    decreases |s|
  {
    if s == [] {
      assert s + r == r;
    } else if IsSpace(s[0]) {
      WordsAppend(s[1..], r);
      WordsAppendSpace(s, r);
    } else {
      WordsAppend(s[WordLength(s)..], r);
      WordsAppendWord(s, r);
    }
  }

  /** Splitting at a whitespace character splits the words: no word spans it
      and none is lost. */
  lemma WordsSplitAt(s: string, c: char, t: string)
    requires IsSpace(c)
    ensures Words(s + [c] + t) == Words(s) + Words(t)
  {
    var r := [c] + t;
    assert s + [c] + t == s + r;
    WordsAppend(s, r);
    assert r[1..] == t;
    WordsSkipSpace(r);
  }

  /** `str.replace('\n', ' ')`. */
  function ReplaceNewlines(s: string): (r: string)
    ensures |r| == |s| && '\n' !in r
    ensures forall k :: 0 <= k < |s| && s[k] != '\n' ==> r[k] == s[k]
    ensures forall k :: 0 <= k < |s| && s[k] == '\n' ==> r[k] == ' '
  {
    seq(|s|, k requires 0 <= k < |s| => if s[k] == '\n' then ' ' else s[k])
  }

  lemma ReplaceNewlinesAppend(s: string, t: string)
    ensures ReplaceNewlines(s + t) == ReplaceNewlines(s) + ReplaceNewlines(t)
  {
    assert forall k :: 0 <= k < |s + t| ==>
      ReplaceNewlines(s + t)[k] == (ReplaceNewlines(s) + ReplaceNewlines(t))[k];
  }

  /** A text without newlines is left as it is. */
  lemma ReplaceNoNewline(s: string)
    requires '\n' !in s
    ensures ReplaceNewlines(s) == s
  {
    assert forall k :: 0 <= k < |s| ==> s[k] != '\n';
  }

  // ---------------------------------------------------------------------
  // Decimal numerals: Python's str() of a non-negative int

  predicate IsDigit(c: char)
  {
    '0' <= c <= '9'
  }

  predicate AllDigits(s: string)
  {
    forall k :: 0 <= k < |s| ==> IsDigit(s[k])
  }

  lemma AllDigitsNoNewline(s: string)
    requires AllDigits(s)
    ensures '\n' !in s
  {
    forall k | 0 <= k < |s| ensures s[k] != '\n' {
      assert IsDigit(s[k]);
    }
  }

  function DigitChar(d: nat): (c: char)
    requires d < 10
    ensures IsDigit(c) && c as int - '0' as int == d
  {
    (48 + d) as char
  }

  /** The value of a string of decimal digits (leading zeros allowed). */
  function DigitsValue(s: string): nat
    requires AllDigits(s)
  {
    if s == [] then 0
    else DigitsValue(s[..|s| - 1]) * 10 + (s[|s| - 1] as int - '0' as int)
  }

  /** Python's `str(n)` for `n >= 0`: shortest decimal numeral, no leading zeros. */
  function Decimal(n: nat): (s: string)
    ensures 1 <= |s| && AllDigits(s)
    ensures DigitsValue(s) == n
    ensures |s| > 1 ==> s[0] != '0'
  {
    if n < 10 then [DigitChar(n)]
    else
      var s := Decimal(n / 10) + [DigitChar(n % 10)];
      assert s[..|s| - 1] == Decimal(n / 10);
      s
  }

  /** Distinct numbers have distinct numerals. */
  lemma DecimalInjective(m: nat, n: nat)
    requires Decimal(m) == Decimal(n)
    ensures m == n
  {
  }

  lemma DecimalShort(n: nat)
    ensures n < 10 ==> |Decimal(n)| == 1
    ensures 10 <= n < 100 ==> |Decimal(n)| == 2
    ensures 100 <= n < 1000 ==> |Decimal(n)| == 3
    ensures 100 <= n ==> |Decimal(n)| >= 3
  {
    if n >= 10 {
      DecimalShort(n / 10);
    }
  }

  function Zeros(k: int): (z: string)
    ensures |z| == (if k < 0 then 0 else k) && AllDigits(z)
    ensures forall i :: 0 <= i < |z| ==> z[i] == '0'
  {
    if k <= 0 then "" else Zeros(k - 1) + "0"
  }

  /** Left padding with '0' up to a width, as the `0` fill of a format spec. */
  function ZeroPad(s: string, width: int): (r: string)
    ensures |r| == (if |s| < width then width else |s|)
    ensures AllDigits(s) ==> AllDigits(r)
  {
    Zeros(width - |s|) + s
  }

  lemma DigitsValueZeros(k: int, s: string)
    requires AllDigits(s)
    ensures DigitsValue(Zeros(k) + s) == DigitsValue(s)
    decreases |s|
  {
    if s == [] {
      assert Zeros(k) + s == Zeros(k);
      ZerosValue(k);
    } else {
      var t, init := Zeros(k) + s, s[..|s| - 1];
      assert t[..|t| - 1] == Zeros(k) + init;
      assert t[|t| - 1] == s[|s| - 1];
      assert AllDigits(init);
      DigitsValueZeros(k, init);
      assert DigitsValue(t) == DigitsValue(Zeros(k) + init) * 10 + (s[|s| - 1] as int - '0' as int);
    }
  }

  lemma ZerosValue(k: int)
    ensures DigitsValue(Zeros(k)) == 0
    decreases k
  {
    if k > 0 {
      var z := Zeros(k);
      assert z[..|z| - 1] == Zeros(k - 1);
      ZerosValue(k - 1);
    }
  }

  // ---------------------------------------------------------------------
  // Lines of a text file

  /** The text written by `write(line + "\n")` for each line in turn. */
  function JoinLines(ls: seq<string>): string
  {
    if ls == [] then "" else ls[0] + "\n" + JoinLines(ls[1..])
  }

  lemma JoinLinesAppend(a: seq<string>, b: seq<string>)
    ensures JoinLines(a + b) == JoinLines(a) + JoinLines(b)
  {
    if a != [] {
      assert (a + b)[1..] == a[1..] + b;
      JoinLinesAppend(a[1..], b);
    } else {
      assert a + b == b;
    }
  }

  lemma JoinLinesPair(a: string, b: string)
    ensures JoinLines([a, b]) == a + "\n" + b + "\n"
  {
    assert [b][1..] == [];
    assert JoinLines([b]) == b + "\n";
    assert [a, b][1..] == [b];
    assert JoinLines([a, b]) == a + "\n" + (b + "\n");
  }

  /** The length of the first line, up to (not including) the first '\n'. */
  function LineLength(s: string): (k: nat)
    ensures k <= |s| && '\n' !in s[..k]
    ensures k < |s| ==> s[k] == '\n'
  {
    if s == [] || s[0] == '\n' then 0
    else
      var k := 1 + LineLength(s[1..]);
      assert s[..k] == [s[0]] + s[1..][..k - 1];
      k
  }

  lemma {:induction false} LineLengthOfLine(l: string, rest: string)
    requires '\n' !in l
    ensures LineLength(l + ("\n" + rest)) == |l|
  {
    if l != [] {
      assert (l + ("\n" + rest))[1..] == l[1..] + ("\n" + rest);
      LineLengthOfLine(l[1..], rest);
    }
  }

  /** Reading a text file back as its '\n'-terminated lines (a last line
      without its terminator is kept too). */
  function SplitLines(s: string): seq<string>
    decreases |s|
  {
    if s == [] then []
    else
      var k := LineLength(s);
      if k == |s| then [s] else [s[..k]] + SplitLines(s[k + 1..])
  }

  /** Reading back what was written line by line gives the lines again,
      as long as no line holds a '\n' of its own. */
  lemma {:induction false} SplitJoinLines(ls: seq<string>)
    requires forall i :: 0 <= i < |ls| ==> '\n' !in ls[i]
    ensures SplitLines(JoinLines(ls)) == ls
  {
    if ls != [] {
      var s := JoinLines(ls);
      var l := ls[0];
      assert s == l + ("\n" + JoinLines(ls[1..]));
      LineLengthOfLine(l, JoinLines(ls[1..]));
      assert s[..|l|] == l;
      assert s[|l| + 1..] == JoinLines(ls[1..]);
      SplitJoinLines(ls[1..]);
    }
  }
}
