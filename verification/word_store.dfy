/** The word list: one record per registered word, kept in insertion order,
    with the lookups, additions, deletions and attribute rewrites that the
    rest of the drill is built from. Time is an integer count of
    microseconds, the resolution of the stored timestamps. */
module WordStore {
  import opened Wrappers
  import Masking

  /** Level counted as "memorized". */
  const Memorized: int := 6

  datatype Record = Record(
    word: string,
    registered: int,
    lastAnswered: int,
    question: string,
    result: bool,
    falseCount: nat,
    level: int)

  type Store = seq<Record>

  /** What `add_word` answers: "OK" or "Failed". */
  datatype AddReply = OK | Failed

  /** A single-attribute assignment, as `_update_word_attribute` performs it. */
  datatype Change =
    | SetLastAnswered(time: int)
    | SetResult(correct: bool)
    | SetQuestion(text: string)
    | SetFalseCount(count: nat)
    | SetLevel(to: int)

  /** The question shown for `w`: the externally composed sentence, masked.
      `compose` stands for the language-model chain, about which nothing is
      assumed. */
  function Question(compose: string -> string, w: string): (q: string)
    ensures Masking.LineBreak !in q
  {
    Masking.Mask(compose(w), w)
  }

  /** The words present in the store. */
  function Words(s: Store): set<string>
  {
    set i | 0 <= i < |s| :: s[i].word
  }

  lemma WordsCons(x: Record, t: Store)
    ensures Words([x] + t) == {x.word} + Words(t)
  {
    var s := [x] + t;
    forall v | v in Words(s)
      ensures v in {x.word} + Words(t)
    {
      var i :| 0 <= i < |s| && s[i].word == v;
      if i > 0 {
        assert t[i - 1].word == v;
      }
    }
    forall v | v in Words(t)
      ensures v in Words(s)
    {
      var i :| 0 <= i < |t| && t[i].word == v;
      assert s[i + 1].word == v;
    }
    assert s[0].word == x.word;
  }

  /** No word is stored twice. */
  predicate Unique(s: Store)
  {
    forall i, j :: 0 <= i < j < |s| ==> s[i].word != s[j].word
  }

  /** The per-record invariants every operation keeps: the level floor, a
      correct last answer leaves no pending failures, failures only pile up
      past two at level 0, and the question is a single line. */
  predicate ValidRecord(r: Record)
  {
    && r.level >= 0
    && (r.result ==> r.falseCount == 0)
    && (r.level > 0 ==> r.falseCount < 3)
    && Masking.LineBreak !in r.question
  }

  predicate WellFormed(s: Store)
  {
    Unique(s) && forall i :: 0 <= i < |s| ==> ValidRecord(s[i])
  }

  /** Position of the first record for `w`. */
  function IndexOf(s: Store, w: string): (r: Option<nat>)
    ensures r.None? <==> w !in Words(s)
    ensures r.Some? ==> r.value < |s| && s[r.value].word == w
    ensures r.Some? ==> forall j :: 0 <= j < r.value ==> s[j].word != w
  {
    if |s| == 0 then None
    else if s[0].word == w then Some(0)
    else
      WordsCons(s[0], s[1..]);
      assert s == [s[0]] + s[1..];
      match IndexOf(s[1..], w)
      case None => None
      case Some(i) => Some(i + 1)
  }

  /** `_get_word_attribute`: the first record for `w`, whose fields are the
      attributes; absent instead of the word-as-sentinel. */
  function Find(s: Store, w: string): (r: Option<Record>)
    ensures r.Some? <==> w in Words(s)
    ensures r.Some? ==> r.value.word == w && r.value in s
  {
    match IndexOf(s, w)
    case None => None
    case Some(i) => Some(s[i])
  }

  /** Position `i` holds the only record for `w`. */
  predicate OnlyAt(s: Store, w: string, i: int)
  {
    0 <= i < |s| && s[i].word == w &&
    forall j :: 0 <= j < |s| && j != i ==> s[j].word != w
  }

  lemma UniqueOnlyAt(s: Store, i: int)
    requires Unique(s) && 0 <= i < |s|
    ensures OnlyAt(s, s[i].word, i)
  {
  }

  /** When a word has one record, the lookup finds it. */
  lemma FindAt(s: Store, w: string, i: int)
    requires OnlyAt(s, w, i)
    ensures Find(s, w) == Some(s[i])
  {
  }

  function Apply(r: Record, c: Change): Record
  {
    match c
    case SetLastAnswered(t) => r.(lastAnswered := t)
    case SetResult(b) => r.(result := b)
    case SetQuestion(q) => r.(question := q)
    case SetFalseCount(n) => r.(falseCount := n)
    case SetLevel(l) => r.(level := l)
  }

  /** Applies `c` to every record for `w`. */
  function Rewrite(s: Store, w: string, c: Change): (r: Store)
    ensures |r| == |s|
    ensures forall i :: 0 <= i < |s| ==> r[i] == if s[i].word == w then Apply(s[i], c) else s[i]
  {
    if |s| == 0 then s
    else [if s[0].word == w then Apply(s[0], c) else s[0]] + Rewrite(s[1..], w, c)
  }

  /** `_update_word_attribute`: rewrites the attribute of every record for
      `w` and reports whether there was one. Words and their order stay. */
  function UpdateAttribute(s: Store, w: string, c: Change): (res: (bool, Store))
    ensures res.0 <==> w in Words(s)
    ensures !res.0 ==> res.1 == s
    ensures |res.1| == |s|
    ensures forall i :: 0 <= i < |s| ==> res.1[i].word == s[i].word
    ensures Words(res.1) == Words(s)
    ensures forall i :: 0 <= i < |s| && s[i].word != w ==> res.1[i] == s[i]
    ensures forall i :: 0 <= i < |s| && s[i].word == w ==> res.1[i] == Apply(s[i], c)
  {
    if w in Words(s) then
      var r := Rewrite(s, w, c);
      assert forall i :: 0 <= i < |s| ==> r[i].word == s[i].word;
      assert Words(r) == Words(s) by {
        forall v | v in Words(r)
          ensures v in Words(s)
        {
          var i :| 0 <= i < |r| && r[i].word == v;
          assert s[i].word == v;
        }
        forall v | v in Words(s)
          ensures v in Words(r)
        {
          var i :| 0 <= i < |s| && s[i].word == v;
          assert r[i].word == v;
        }
      }
      (true, r)
    else
      (false, s)
  }

  /** When a word has one record, the rewrite touches exactly that slot. */
  lemma RewriteAt(s: Store, w: string, c: Change, i: int)
    requires OnlyAt(s, w, i)
    ensures Rewrite(s, w, c) == s[i := Apply(s[i], c)]
    ensures OnlyAt(Rewrite(s, w, c), w, i)
  {
    var r := Rewrite(s, w, c);
    forall j | 0 <= j < |s|
      ensures r[j] == s[i := Apply(s[i], c)][j]
    {
      if j != i {
        assert s[j].word != w;
      }
    }
  }

  /** `add_word`: a new word is appended as a fresh, correctly answered
      level-0 record; a known word is refused and nothing changes. */
  function AddWord(s: Store, w: string, now: int, compose: string -> string): (res: (AddReply, Store))
    ensures w in Words(s) ==> res == (Failed, s)
    ensures w !in Words(s) ==> res.0 == OK && |res.1| == |s| + 1 && res.1[..|s|] == s
    ensures w !in Words(s) ==>
      var r := res.1[|s|];
      && r.word == w && r.registered == now && r.lastAnswered == now
      && r.result && r.falseCount == 0 && r.level == 0
      && r.question == Question(compose, w)
  {
    if w in Words(s) then (Failed, s)
    else (OK, s + [Record(w, now, now, Question(compose, w), true, 0, 0)])
  }

  /** Removes every record for `w`, keeping the others in order. */
  function Remove(s: Store, w: string): (r: Store)
    ensures forall x :: x in r <==> x in s && x.word != w
    ensures Words(r) == Words(s) - {w}
    ensures Subsequence(r, s)
    ensures w !in Words(s) ==> r == s
  {
    if |s| == 0 then s
    else
      WordsCons(s[0], s[1..]);
      assert s == [s[0]] + s[1..];
      var rest := Remove(s[1..], w);
      if s[0].word == w then rest
      else
        WordsCons(s[0], rest);
        [s[0]] + rest
  }

  /** `a` is `b` with some elements left out, order kept. */
  predicate Subsequence<T(==)>(a: seq<T>, b: seq<T>)
    decreases |b|
  {
    |a| <= |b| &&
    (|a| == 0 || (a[0] == b[0] && Subsequence(a[1..], b[1..])) || Subsequence(a, b[1..]))
  }

  /** `delete_word`: reports whether `w` was stored; afterwards it is not,
      and every other record is still there in its old order. */
  function DeleteWord(s: Store, w: string): (res: (bool, Store))
    ensures res.0 <==> w in Words(s)
    ensures !res.0 ==> res.1 == s
    ensures Words(res.1) == Words(s) - {w}
    ensures forall x :: x in res.1 <==> x in s && x.word != w
    ensures forall x :: multiset(res.1)[x] == if x.word != w then multiset(s)[x] else 0
    ensures Subsequence(res.1, s)
  {
    RemoveCounts(s, w);
    (w in Words(s), Remove(s, w))
  }

  /** `Remove` keeps every other record as many times as it was stored, so
      identical rows are neither merged nor duplicated. */
  lemma {:induction false} RemoveCounts(s: Store, w: string)
    ensures forall x :: multiset(Remove(s, w))[x] == if x.word != w then multiset(s)[x] else 0
  {
    if |s| > 0 {
      RemoveCounts(s[1..], w);
      assert s == [s[0]] + s[1..];
      assert multiset(s) == multiset([s[0]]) + multiset(s[1..]);
      var rest := Remove(s[1..], w);
      if s[0].word != w {
        assert Remove(s, w) == [s[0]] + rest;
        assert multiset(Remove(s, w)) == multiset([s[0]]) + multiset(rest);
      }
    }
  }

  /** `get_num_total_words`: the number of distinct words. Duplicate rows
      make it smaller than the number of records. */
  function TotalWords(s: Store): (n: nat)
    ensures n <= |s|
    ensures n == 0 <==> |s| == 0
  {
    WordsBound(s);
    if |s| > 0 then assert s[0].word in Words(s); |Words(s)| else |Words(s)|
  }

  lemma {:induction false} WordsBound(s: Store)
    ensures |Words(s)| <= |s|
  {
    if |s| > 0 {
      assert s == [s[0]] + s[1..];
      WordsCons(s[0], s[1..]);
      WordsBound(s[1..]);
    }
  }

  /** Number of records at `level`. */
  function CountLevel(s: Store, level: int): (n: nat)
    ensures n <= |s|
    ensures n == 0 <==> forall i :: 0 <= i < |s| ==> s[i].level != level
  {
    if |s| == 0 then 0
    else (if s[0].level == level then 1 else 0) + CountLevel(s[1..], level)
  }

  /** `get_num_memorized_words`: records at exactly the memorized level;
      promoted words beyond it are not counted. */
  function MemorizedWords(s: Store): (n: nat)
    ensures n <= |s|
    ensures n == 0 <==> forall i :: 0 <= i < |s| ==> s[i].level != Memorized
  {
    CountLevel(s, Memorized)
  }

  /** `get_memorizing_level`. */
  function GetLevel(s: Store, w: string): (r: Option<int>)
    ensures r.Some? <==> w in Words(s)
    ensures r.Some? ==> exists i :: 0 <= i < |s| && s[i].word == w && s[i].level == r.value
  {
    match Find(s, w)
    case None => None
    case Some(rec) => Some(rec.level)
  }

  /** `reset_memorizing_level`: sets the level of `w` to 0 and nothing else. */
  function ResetLevel(s: Store, w: string): (res: (bool, Store))
    ensures res.0 <==> w in Words(s)
    ensures |res.1| == |s|
    ensures forall i :: 0 <= i < |s| ==>
      res.1[i] == if s[i].word == w then s[i].(level := 0) else s[i]
  {
    UpdateAttribute(s, w, SetLevel(0))
  }

  // Properties of the store operations.

  /** Without duplicates, the distinct-word count is the number of records. */
  lemma {:induction false} UniqueWordCount(s: Store)
    requires Unique(s)
    ensures TotalWords(s) == |s|
  {
    if |s| > 0 {
      assert s == [s[0]] + s[1..];
      WordsCons(s[0], s[1..]);
      assert s[0].word !in Words(s[1..]) by {
        forall i | 0 <= i < |s[1..]|
          ensures s[1..][i].word != s[0].word
        {
          assert s[1..][i] == s[i + 1];
        }
      }
      UniqueWordCount(s[1..]);
    }
  }

  /** Adding grows the word count by one exactly when the word is new. */
  lemma AddWordCount(s: Store, w: string, now: int, compose: string -> string)
    ensures TotalWords(AddWord(s, w, now, compose).1) == TotalWords(s) + (if w in Words(s) then 0 else 1)
  {
    if w !in Words(s) {
      var r := AddWord(s, w, now, compose).1;
      assert r == s + [r[|s|]];
      assert Words(r) == Words(s) + {w} by {
        forall v | v in Words(r)
          ensures v in Words(s) + {w}
        {
          var i :| 0 <= i < |r| && r[i].word == v;
          if i < |s| {
            assert s[i].word == v;
          }
        }
        assert r[|s|].word == w;
        forall v | v in Words(s)
          ensures v in Words(r)
        {
          var i :| 0 <= i < |s| && s[i].word == v;
          assert r[i].word == v;
        }
      }
    }
  }

  /** Adding keeps the store free of duplicates and every record valid. */
  lemma AddPreservesWellFormed(s: Store, w: string, now: int, compose: string -> string)
    requires WellFormed(s)
    ensures WellFormed(AddWord(s, w, now, compose).1)
  {
    if w !in Words(s) {
      var r := AddWord(s, w, now, compose).1;
      forall i | 0 <= i < |s|
        ensures r[i] == s[i] && s[i].word != w
      {
        assert r[..|s|][i] == s[i];
      }
    }
  }

  /** Removing the last record of a word that occurs only there. */
  lemma {:induction false} RemoveAppended(s: Store, x: Record)
    requires x.word !in Words(s)
    ensures Remove(s + [x], x.word) == s
  {
    if |s| == 0 {
      assert [x][1..] == [];
    } else {
      WordsCons(s[0], s[1..]);
      assert s == [s[0]] + s[1..];
      assert (s + [x])[1..] == s[1..] + [x];
      RemoveAppended(s[1..], x);
    }
  }

  /** Deleting a word just added gives back the store it was added to. */
  lemma DeleteUndoesAdd(s: Store, w: string, now: int, compose: string -> string)
    requires w !in Words(s)
    ensures DeleteWord(AddWord(s, w, now, compose).1, w) == (true, s)
  {
    var r := AddWord(s, w, now, compose).1;
    assert r == s + [r[|s|]];
    RemoveAppended(s, r[|s|]);
  }

  /** Deleting a stored word from a store without duplicates drops exactly
      one record. */
  lemma {:induction false} DeleteDropsOne(s: Store, w: string)
    requires Unique(s) && w in Words(s)
    ensures |DeleteWord(s, w).1| == |s| - 1
  {
    WordsCons(s[0], s[1..]);
    assert s == [s[0]] + s[1..];
    if s[0].word == w {
      assert w !in Words(s[1..]) by {
        forall i | 0 <= i < |s[1..]|
          ensures s[1..][i].word != w
        {
          assert s[1..][i] == s[i + 1];
        }
      }
    } else {
      DeleteDropsOne(s[1..], w);
    }
  }

  /** Deleting keeps the store free of duplicates and every record valid. */
  lemma DeletePreservesWellFormed(s: Store, w: string)
    requires WellFormed(s)
    ensures WellFormed(DeleteWord(s, w).1)
  {
    var r := DeleteWord(s, w).1;
    SubsequenceUnique(r, s);
    forall i | 0 <= i < |r|
      ensures ValidRecord(r[i])
    {
      assert r[i] in s;
    }
  }

  /** A subsequence of a duplicate-free store is duplicate-free. */
  lemma {:induction false} SubsequenceUnique(a: Store, b: Store)
    requires Subsequence(a, b) && Unique(b)
    ensures Unique(a)
    ensures forall x :: x in a ==> x in b
    decreases |b|
  {
    if |a| == 0 {
    } else if a[0] == b[0] && Subsequence(a[1..], b[1..]) {
      SubsequenceUnique(a[1..], b[1..]);
      assert a == [a[0]] + a[1..];
      assert b == [b[0]] + b[1..];
      forall i, j | 0 <= i < j < |a|
        ensures a[i].word != a[j].word
      {
        assert a[j] == a[1..][j - 1];
        assert a[j] in b[1..];
        var k :| 0 <= k < |b[1..]| && b[1..][k] == a[j];
        assert b[k + 1] == a[j];
        if i > 0 {
          assert a[i] == a[1..][i - 1];
        }
      }
    } else {
      SubsequenceUnique(a, b[1..]);
    }
  }

  /** In a store without duplicates the level read is that of the record. */
  lemma GetLevelUnique(s: Store, w: string, i: int)
    requires Unique(s) && 0 <= i < |s| && s[i].word == w
    ensures GetLevel(s, w) == Some(s[i].level)
  {
    UniqueOnlyAt(s, i);
    FindAt(s, w, i);
  }

  /** A newly added word reads back at level 0. */
  lemma AddThenGetLevel(s: Store, w: string, now: int, compose: string -> string)
    requires w !in Words(s)
    ensures GetLevel(AddWord(s, w, now, compose).1, w) == Some(0)
  {
    var r := AddWord(s, w, now, compose).1;
    assert IndexOf(r, w) == Some(|s|) by {
      forall j | 0 <= j < |s|
        ensures r[j].word != w
      {
        assert r[..|s|][j] == s[j];
      }
    }
  }

  /** A reset word reads back at level 0; a missing one stays missing. */
  lemma ResetThenGetLevel(s: Store, w: string)
    ensures GetLevel(ResetLevel(s, w).1, w) == if w in Words(s) then Some(0) else None
  {
    var res := ResetLevel(s, w);
    if w in Words(s) {
      var i := IndexOf(res.1, w).value;
      assert res.1[i].level == 0;
    } else {
      assert res.1 == s;
    }
  }

  /** Resetting keeps the store free of duplicates and every record valid. */
  lemma ResetPreservesWellFormed(s: Store, w: string)
    requires WellFormed(s)
    ensures WellFormed(ResetLevel(s, w).1)
  {
    var r := ResetLevel(s, w).1;
    forall i | 0 <= i < |r|
      ensures ValidRecord(r[i])
    {
      assert ValidRecord(s[i]);
    }
  }

  /** Replacing one record changes the count at a level by the difference. */
  lemma {:induction false} CountLevelUpdate(s: Store, i: int, x: Record, level: int)
    requires 0 <= i < |s|
    ensures CountLevel(s[i := x], level) ==
      CountLevel(s, level) - (if s[i].level == level then 1 else 0) + (if x.level == level then 1 else 0)
  {
    if i > 0 {
      assert s[i := x][1..] == s[1..][i - 1 := x];
      CountLevelUpdate(s[1..], i - 1, x, level);
    } else {
      assert s[i := x][1..] == s[1..];
    }
  }

  /** Adding a word leaves the memorized count alone. */
  lemma {:induction false} AddKeepsMemorized(s: Store, w: string, now: int, compose: string -> string)
    ensures MemorizedWords(AddWord(s, w, now, compose).1) == MemorizedWords(s)
  {
    if w !in Words(s) {
      var r := AddWord(s, w, now, compose).1;
      assert r == s + [r[|s|]];
      CountLevelAppend(s, r[|s|], Memorized);
    }
  }

  lemma {:induction false} CountLevelAppend(s: Store, x: Record, level: int)
    ensures CountLevel(s + [x], level) == CountLevel(s, level) + (if x.level == level then 1 else 0)
  {
    if |s| == 0 {
      assert [x][1..] == [];
    } else {
      assert (s + [x])[1..] == s[1..] + [x];
      CountLevelAppend(s[1..], x, level);
    }
  }
}
