/** The string post-processing applied to every generated question: each
    occurrence of the quizzed word is replaced by a run of `*` of the same
    length, then every line break is removed. */
module Masking {

  const MaskChar: char := '*'
  const LineBreak: char := '\n'

  /** A run of `n` mask characters. */
  function Stars(n: nat): string
  {
    seq(n, _ => MaskChar)
  }

  /** `w` sits in `t` starting at position `k`. */
  predicate OccursAt(w: string, t: string, k: int)
  {
    0 <= k <= |t| - |w| && t[k..k + |w|] == w
  }

  /** `t` contains `w` as a contiguous block. */
  predicate Occurs(w: string, t: string)
  {
    exists k :: 0 <= k <= |t| && OccursAt(w, t, k)
  }

  /** Left-to-right, non-overlapping replacement of `w` by `Stars(|w|)`, as
      Python's `str.replace` does. Replacing the empty word by the empty
      string leaves the text as it is. */
  function MaskOccurrences(s: string, w: string): (r: string)
    ensures |r| == |s|
    ensures forall i :: 0 <= i < |s| ==> r[i] == s[i] || r[i] == MaskChar
    decreases |s|
  {
    if |w| == 0 || |s| < |w| then s
    else if s[..|w|] == w then Stars(|w|) + MaskOccurrences(s[|w|..], w)
    else [s[0]] + MaskOccurrences(s[1..], w)
  }

  /** Removal of every occurrence of `c`; all other characters keep their
      order and multiplicity. */
  function DropChar(s: string, c: char): (r: string)
    ensures c !in r
    ensures multiset(r) == multiset(s)[c := 0]
    ensures |r| == |s| - multiset(s)[c]
  {
    if |s| == 0 then s
    else
      assert s == [s[0]] + s[1..];
      if s[0] == c then DropChar(s[1..], c)
      else [s[0]] + DropChar(s[1..], c)
  }

  /** The question text shown for `w`, built from the raw sentence. */
  function Mask(sentence: string, w: string): (r: string)
    ensures r == DropChar(MaskOccurrences(sentence, w), LineBreak)
    ensures LineBreak !in r
    ensures LineBreak !in w ==> |r| == |sentence| - multiset(sentence)[LineBreak]
  {
    var masked := MaskOccurrences(sentence, w);
    MaskKeepsLineBreaks(sentence, w);
    DropChar(masked, LineBreak)
  }

  /** Masking a word without line breaks keeps the number of line breaks. */
  lemma {:induction false} MaskKeepsLineBreaks(s: string, w: string)
    ensures LineBreak !in w ==> multiset(MaskOccurrences(s, w))[LineBreak] == multiset(s)[LineBreak]
    decreases |s|
  {
    if LineBreak in w || |w| == 0 || |s| < |w| {
    } else if s[..|w|] == w {
      MaskKeepsLineBreaks(s[|w|..], w);
      LineBreaksAfterMatch(s, w);
    } else {
      MaskKeepsLineBreaks(s[1..], w);
      LineBreaksAfterSkip(s, w);
    }
  }

  /** Replacing a matched word without line breaks by stars removes none. */
  lemma LineBreaksAfterMatch(s: string, w: string)
    requires |w| > 0 && LineBreak !in w && |s| >= |w| && s[..|w|] == w
    requires multiset(MaskOccurrences(s[|w|..], w))[LineBreak] == multiset(s[|w|..])[LineBreak]
    ensures multiset(MaskOccurrences(s, w))[LineBreak] == multiset(s)[LineBreak]
  {
    var r := MaskOccurrences(s, w);
    MaskUnfoldMatch(s, w);
    assert r[..|w|] == Stars(|w|) && r[|w|..] == MaskOccurrences(s[|w|..], w);
    SplitCount(r, |w|, LineBreak);
    SplitCount(s, |w|, LineBreak);
    assert multiset(w)[LineBreak] == 0;
    assert multiset(Stars(|w|))[LineBreak] == 0;
  }

  /** Keeping the first character keeps its line break, if it is one. */
  lemma LineBreaksAfterSkip(s: string, w: string)
    requires |w| > 0 && |s| >= |w| && s[..|w|] != w
    requires multiset(MaskOccurrences(s[1..], w))[LineBreak] == multiset(s[1..])[LineBreak]
    ensures multiset(MaskOccurrences(s, w))[LineBreak] == multiset(s)[LineBreak]
  {
    var r := MaskOccurrences(s, w);
    MaskUnfoldSkip(s, w);
    assert r[..1] == s[..1] && r[1..] == MaskOccurrences(s[1..], w);
    SplitCount(r, 1, LineBreak);
    SplitCount(s, 1, LineBreak);
  }

  /** Counting a character in a text counts it before and after a cut. */
  lemma SplitCount(s: string, d: int, c: char)
    requires 0 <= d <= |s|
    ensures multiset(s)[c] == multiset(s[..d])[c] + multiset(s[d..])[c]
  {
    assert s == s[..d] + s[d..];
  }

  /** One step of the scan over a match at the front. */
  lemma MaskUnfoldMatch(s: string, w: string)
    requires |w| > 0 && |s| >= |w| && s[..|w|] == w
    ensures MaskOccurrences(s, w) == Stars(|w|) + MaskOccurrences(s[|w|..], w)
  {
  }

  /** One step of the scan over a character that starts no match. */
  lemma MaskUnfoldSkip(s: string, w: string)
    requires |w| > 0 && |s| >= |w| && s[..|w|] != w
    ensures MaskOccurrences(s, w) == [s[0]] + MaskOccurrences(s[1..], w)
  {
  }

  /** The occurrence of `w` at `k` is one the left-to-right scan replaces:
      it occurs there, and no replaced occurrence starts in the `|w| - 1`
      positions before it (that one would have consumed position `k`). */
  predicate Reached(w: string, t: string, k: int)
    decreases k
  {
    OccursAt(w, t, k) && forall j :: 0 <= j < k && k - |w| < j ==> !Reached(w, t, j)
  }

  /** Position `i` of `t` lies inside an occurrence the scan replaces. */
  predicate Replaced(w: string, t: string, i: int)
  {
    exists k :: 0 <= k <= i && i < k + |w| && Reached(w, t, k)
  }

  /** Masking at every position: a character becomes `*` exactly when it lies
      inside an occurrence the scan replaces, and is kept otherwise. */
  lemma {:induction false} MaskOccurrencesExact(s: string, w: string, i: int)
    requires 0 <= i < |s|
    ensures MaskOccurrences(s, w)[i] == if Replaced(w, s, i) then MaskChar else s[i]
    decreases |s|
  {
    var n := |w|;
    if n == 0 {
    } else if |s| < n {
    } else if s[..n] == w {
      FrontReached(s, w);
      if i < n {
        MaskedHead(s, w, i);
        assert 0 <= 0 <= i && i < 0 + n && Reached(w, s, 0);
      } else {
        MaskOccurrencesExact(s[n..], w, i - n);
        MaskShiftMatch(s, w, i);
        ReplacedAfterMatch(s, w, i);
        assert s[n..][i - n] == s[i];
      }
    } else {
      assert !OccursAt(w, s, 0) by {
        assert s[..n] == s[0..n];
      }
      if i == 0 {
        MaskKeptHead(s, w);
      } else {
        MaskOccurrencesExact(s[1..], w, i - 1);
        MaskShiftSkip(s, w, i);
        ReplacedAfterSkip(s, w, i);
        assert s[1..][i - 1] == s[i];
      }
    }
  }

  /** A match at the very front is replaced, and no occurrence starting
      inside it is. */
  lemma FrontReached(s: string, w: string)
    requires |w| > 0 && |s| >= |w| && s[..|w|] == w
    ensures Reached(w, s, 0)
    ensures forall j :: 0 < j < |w| ==> !Reached(w, s, j)
  {
    assert s[0..|w|] == s[..|w|];
    assert OccursAt(w, s, 0);
  }

  /** Behind a replaced match at the front, a position is replaced exactly
      when it is replaced in the rest of the text. */
  lemma ReplacedAfterMatch(s: string, w: string, i: int)
    requires |w| > 0 && |s| >= |w| && s[..|w|] == w && |w| <= i < |s|
    ensures Replaced(w, s, i) <==> Replaced(w, s[|w|..], i - |w|)
  {
    ReplacedLeavesFront(s, w, i);
    ReplacedEntersFront(s, w, i);
  }

  lemma ReplacedLeavesFront(s: string, w: string, i: int)
    requires |w| > 0 && |s| >= |w| && s[..|w|] == w && |w| <= i < |s|
    ensures Replaced(w, s, i) ==> Replaced(w, s[|w|..], i - |w|)
  {
    var n := |w|;
    if Replaced(w, s, i) {
      var k :| 0 <= k <= i && i < k + n && Reached(w, s, k);
      FrontReached(s, w);
      ReachedShift(s, w, n, k);
      assert 0 <= k - n <= i - n && i - n < k - n + n && Reached(w, s[n..], k - n);
    }
  }

  lemma ReplacedEntersFront(s: string, w: string, i: int)
    requires |w| > 0 && |s| >= |w| && s[..|w|] == w && |w| <= i < |s|
    ensures Replaced(w, s[|w|..], i - |w|) ==> Replaced(w, s, i)
  {
    var n := |w|;
    if Replaced(w, s[n..], i - n) {
      var k :| 0 <= k <= i - n && i - n < k + n && Reached(w, s[n..], k);
      FrontReached(s, w);
      ReachedShift(s, w, n, k + n);
      assert 0 <= k + n <= i && i < k + n + n && Reached(w, s, k + n);
    }
  }

  /** Without a match at the front, a later position is replaced exactly when
      it is replaced in the text from the second character on. */
  lemma ReplacedAfterSkip(s: string, w: string, i: int)
    requires |w| > 0 && |s| >= |w| && s[..|w|] != w && 1 <= i < |s|
    ensures Replaced(w, s, i) <==> Replaced(w, s[1..], i - 1)
  {
    ReplacedLeavesSkip(s, w, i);
    ReplacedEntersSkip(s, w, i);
  }

  /** Without a match at the front, nothing is replaced from position 0. */
  lemma FrontNotReached(s: string, w: string)
    requires |w| > 0 && |s| >= |w| && s[..|w|] != w
    ensures !Reached(w, s, 0)
  {
    assert s[..|w|] == s[0..|w|];
  }

  lemma ReplacedLeavesSkip(s: string, w: string, i: int)
    requires |w| > 0 && |s| >= |w| && s[..|w|] != w && 1 <= i < |s|
    ensures Replaced(w, s, i) ==> Replaced(w, s[1..], i - 1)
  {
    if Replaced(w, s, i) {
      var k :| 0 <= k <= i && i < k + |w| && Reached(w, s, k);
      FrontNotReached(s, w);
      ReachedShift(s, w, 1, k);
      assert 0 <= k - 1 <= i - 1 && i - 1 < k - 1 + |w| && Reached(w, s[1..], k - 1);
    }
  }

  lemma ReplacedEntersSkip(s: string, w: string, i: int)
    requires |w| > 0 && |s| >= |w| && s[..|w|] != w && 1 <= i < |s|
    ensures Replaced(w, s[1..], i - 1) ==> Replaced(w, s, i)
  {
    if Replaced(w, s[1..], i - 1) {
      var k :| 0 <= k <= i - 1 && i - 1 < k + |w| && Reached(w, s[1..], k);
      FrontNotReached(s, w);
      ReachedShift(s, w, 1, k + 1);
      assert 0 <= k + 1 <= i && i < k + 1 + |w| && Reached(w, s, k + 1);
    }
  }

  /** Cutting off a prefix of length `d` that no replaced occurrence reaches
      beyond shifts the replaced occurrences after it by `d`. */
  lemma {:induction false} ReachedShift(s: string, w: string, d: int, k: int)
    requires |w| > 0 && 0 <= d <= |s| && d <= k
    requires forall j :: 0 <= j < d && Reached(w, s, j) ==> j + |w| <= d
    ensures Reached(w, s, k) <==> Reached(w, s[d..], k - d)
    decreases k
  {
    var t := s[d..];
    OccursInSuffix(s, w, d, k - d);
    forall j | 0 <= j < k && k - |w| < j && d <= j
      ensures Reached(w, s, j) <==> Reached(w, t, j - d)
    {
      ReachedShift(s, w, d, j);
    }
    if Reached(w, t, k - d) {
      forall j | 0 <= j < k && k - |w| < j
        ensures !Reached(w, s, j)
      {
        if d <= j {
          assert !Reached(w, t, j - d);
        }
      }
    }
    if Reached(w, s, k) {
      forall j | 0 <= j < k - d && k - d - |w| < j
        ensures !Reached(w, t, j)
      {
        assert !Reached(w, s, j + d);
      }
    }
  }

  /** An occurrence that no other occurrence overlaps from the left (the
      first one, say) is replaced. */
  lemma UnoverlappedIsReached(s: string, w: string, k: int)
    requires OccursAt(w, s, k) && NotOverlapped(w, s, k)
    ensures Reached(w, s, k)
  {
    forall j | 0 <= j < k && k - |w| < j
      ensures !Reached(w, s, j)
    {
      assert !OccursAt(w, s, j);
    }
  }

  /** No occurrence of `w` in `t` starts in the `|w| - 1` positions just
      before `k`. */
  predicate NotOverlapped(w: string, t: string, k: int)
  {
    forall j :: k - |w| < j < k ==> !OccursAt(w, t, j)
  }

  /** An occurrence the left-to-right scan reaches is replaced by a full
      run of stars. */
  lemma MaskStarsReachedOccurrence(s: string, w: string, k: int)
    requires Reached(w, s, k)
    ensures MaskOccurrences(s, w)[k..k + |w|] == Stars(|w|)
  {
    forall i | k <= i < k + |w|
      ensures MaskOccurrences(s, w)[i] == MaskChar
    {
      MaskOccurrencesExact(s, w, i);
      assert 0 <= k <= i && i < k + |w| && Reached(w, s, k);
    }
  }

  /** Position `i` of `t` lies inside some occurrence of `w`. */
  predicate Covered(w: string, t: string, i: int)
  {
    exists k :: 0 <= k <= i && i < k + |w| && OccursAt(w, t, k)
  }

  lemma ReplacedIsCovered(s: string, w: string, i: int)
    ensures Replaced(w, s, i) ==> Covered(w, s, i)
  {
    if Replaced(w, s, i) {
      var k :| 0 <= k <= i && i < k + |w| && Reached(w, s, k);
      assert OccursAt(w, s, k);
    }
  }

  /** Masking only touches characters that lie inside an occurrence of the
      word: every other character is kept. */
  lemma MaskKeepsUncovered(s: string, w: string, i: int)
    requires 0 <= i < |s| && !Covered(w, s, i)
    ensures MaskOccurrences(s, w)[i] == s[i]
  {
    MaskOccurrencesExact(s, w, i);
    ReplacedIsCovered(s, w, i);
  }

  /** After masking, a non-empty word that contains no `*` appears nowhere
      in the text. */
  lemma MaskOccurrencesHidesWord(s: string, w: string)
    requires |w| > 0 && MaskChar !in w
    ensures !Occurs(w, MaskOccurrences(s, w))
  {
    var r := MaskOccurrences(s, w);
    forall k | 0 <= k < |s|
      ensures !OccursAt(w, r, k)
    {
      MaskOccurrencesExact(s, w, k);
      if Replaced(w, s, k) {
        StarBlocksOccurrence(w, r, k, k);
      } else {
        forall j | 0 <= j < k && k - |w| < j
          ensures !Reached(w, s, j)
        {
        }
        assert !Reached(w, s, k);
        assert !OccursAt(w, s, k);
        WindowKept(w, r, s, k);
      }
    }
  }

  /** A `*` inside the window rules out an occurrence of a star-free word. */
  lemma StarBlocksOccurrence(w: string, t: string, k: int, p: int)
    requires MaskChar !in w && 0 <= k <= p < |t| && p < k + |w| && t[p] == MaskChar
    ensures !OccursAt(w, t, k)
  {
  }

  /** Where `r` differs from `s` only by stars, a star-free word occurring in
      `r` occurs at the same place in `s`. */
  lemma WindowKept(w: string, r: string, s: string, k: int)
    requires MaskChar !in w && |r| == |s|
    requires forall p :: 0 <= p < |s| ==> r[p] == s[p] || r[p] == MaskChar
    ensures OccursAt(w, r, k) ==> OccursAt(w, s, k)
  {
    if OccursAt(w, r, k) {
      forall p | 0 <= p < |w|
        ensures s[k..k + |w|][p] == w[p]
      {
        assert r[k..k + |w|][p] == w[p];
        assert r[k + p] != MaskChar;
      }
    }
  }

  /** A match at the front of the text is masked in full. */
  lemma MaskedHead(s: string, w: string, i: int)
    requires |w| > 0 && |s| >= |w| && s[..|w|] == w && 0 <= i < |w|
    ensures MaskOccurrences(s, w)[i] == MaskChar
  {
    assert MaskOccurrences(s, w) == Stars(|w|) + MaskOccurrences(s[|w|..], w);
  }

  /** After a match at the front, masking goes on in the rest of the text. */
  lemma MaskShiftMatch(s: string, w: string, i: int)
    requires |w| > 0 && |s| >= |w| && s[..|w|] == w && |w| <= i < |s|
    ensures MaskOccurrences(s, w)[i] == MaskOccurrences(s[|w|..], w)[i - |w|]
  {
    assert MaskOccurrences(s, w) == Stars(|w|) + MaskOccurrences(s[|w|..], w);
  }

  /** Without a match at the front, the first character is kept. */
  lemma MaskKeptHead(s: string, w: string)
    requires |w| > 0 && |s| >= |w| && s[..|w|] != w
    ensures MaskOccurrences(s, w)[0] == s[0]
  {
    assert MaskOccurrences(s, w) == [s[0]] + MaskOccurrences(s[1..], w);
  }

  /** Without a match at the front, masking goes on one character later. */
  lemma MaskShiftSkip(s: string, w: string, i: int)
    requires |w| > 0 && |s| >= |w| && s[..|w|] != w && 1 <= i < |s|
    ensures MaskOccurrences(s, w)[i] == MaskOccurrences(s[1..], w)[i - 1]
  {
    assert MaskOccurrences(s, w) == [s[0]] + MaskOccurrences(s[1..], w);
  }

  /** An occurrence in a suffix is an occurrence in the whole text, shifted
      by the length of what was cut off. */
  lemma OccursInSuffix(s: string, w: string, d: int, k: int)
    requires 0 <= d <= |s| && 0 <= k
    ensures OccursAt(w, s[d..], k) <==> OccursAt(w, s, k + d)
  {
    if 0 <= k <= |s| - d - |w| {
      assert s[d..][k..k + |w|] == s[k + d..k + d + |w|];
    }
  }

  /** Python's scan on self-overlapping words: "banana" masked for "ana"
      reads "b***na", and "aaa" masked for "aa" reads "**a". */
  lemma SelfOverlapExamples()
    ensures MaskOccurrences("banana", "ana") == "b***na"
    ensures MaskOccurrences("aaa", "aa") == "**a"
  {
  }

  /** Dropping from a text with a known first character. */
  lemma DropCharCons(x: char, t: string, c: char)
    ensures DropChar([x] + t, c) == if x == c then DropChar(t, c) else [x] + DropChar(t, c)
  {
    assert ([x] + t)[1..] == t;
  }

  /** Concatenation regroups freely. */
  lemma Associative(x: string, y: string, z: string)
    ensures x + (y + z) == (x + y) + z
  {
  }

  /** Dropping a character works piece by piece, so the kept characters
      stay in their order. */
  lemma {:induction false} DropCharAppend(a: string, b: string, c: char)
    ensures DropChar(a + b, c) == DropChar(a, c) + DropChar(b, c)
    decreases |a|
  {
    if |a| == 0 {
      assert a + b == b;
    } else {
      var x, t := a[0], a[1..];
      assert a == [x] + t;
      assert a + b == [x] + (t + b);
      DropCharAppend(t, b, c);
      DropCharCons(x, t, c);
      DropCharCons(x, t + b, c);
      if x != c {
        Associative([x], DropChar(t, c), DropChar(b, c));
      }
    }
  }

  /** A question built from a sentence without line breaks never shows a
      non-empty word that contains no `*`. */
  lemma MaskHidesWord(sentence: string, w: string)
    requires |w| > 0 && MaskChar !in w && LineBreak !in sentence
    ensures !Occurs(w, Mask(sentence, w))
  {
    var masked := MaskOccurrences(sentence, w);
    MaskOccurrencesHidesWord(sentence, w);
    assert LineBreak !in masked by {
      forall i | 0 <= i < |masked|
        ensures masked[i] != LineBreak
      {
        assert sentence[i] != LineBreak;
      }
    }
    DropAbsent(masked, LineBreak);
  }

  /** Dropping a character that does not occur changes nothing. */
  lemma {:induction false} DropAbsent(s: string, c: char)
    requires c !in s
    ensures DropChar(s, c) == s
  {
    if |s| > 0 {
      assert c !in s[1..];
      DropAbsent(s[1..], c);
    }
  }

  /** Masking runs before line breaks are removed, so a line break inside
      the word lets it through: "ca\nt" masked for "cat" reads "cat". */
  lemma LineBreakInsideWordIsNotMasked()
    ensures Mask("ca\nt", "cat") == "cat"
    ensures Occurs("cat", Mask("ca\nt", "cat"))
  {
    var masked := Mask("ca\nt", "cat");
    assert masked == "cat" by {
      SplitWordSurvivesReplacement();
      SplitWordLosesLineBreak();
    }
    assert OccursAt("cat", masked, 0);
  }

  lemma SplitWordSurvivesReplacement()
    ensures MaskOccurrences("ca\nt", "cat") == "ca\nt"
  {
    var s := "ca\nt";
    var w := "cat";
    assert s[..3] != w by { assert s[..3][2] != w[2]; }
    assert s[1..] == "a\nt";
    assert s[1..][..3] != w by { assert s[1..][..3][0] != w[0]; }
    assert s[1..][1..] == "\nt";
    assert MaskOccurrences("\nt", w) == "\nt";
  }

  lemma SplitWordLosesLineBreak()
    ensures DropChar("ca\nt", LineBreak) == "cat"
  {
    DropOneBreak("ca", "t", LineBreak);
    assert "ca" + [LineBreak] + "t" == "ca\nt";
  }

  /** Removing the one occurrence of `c` between two parts that lack it
      joins the parts. */
  lemma DropOneBreak(a: string, b: string, c: char)
    requires c !in a && c !in b
    ensures DropChar(a + [c] + b, c) == a + b
  {
    assert a + [c] + b == a + ([c] + b);
    calc {
      DropChar(a + ([c] + b), c);
      { DropCharAppend(a, [c] + b, c); }
      DropChar(a, c) + DropChar([c] + b, c);
      { DropCharCons(c, b, c); }
      DropChar(a, c) + DropChar(b, c);
      { DropAbsent(a, c); DropAbsent(b, c); }
      a + b;
    }
  }
}
