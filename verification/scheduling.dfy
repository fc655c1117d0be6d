/** `get_target_words`: which words are due for review. A word is due once
    the time since its last answer reaches the interval of its level. */
module Scheduling {
  import opened WordStore

  /** One day, in microseconds. */
  const Day: int := 86_400_000_000

  /** Review interval in days for levels 0 to 6: new words and memorized
      words are always due. */
  const IntervalDays: seq<nat> := [0, 1, 3, 7, 30, 30, 0]

  /** Levels the interval table can be read at. A negative level counts
      from the end of the table, as a Python list index does; below -7 the
      lookup raises IndexError. */
  predicate Indexable(level: int)
  {
    level >= -|IntervalDays|
  }

  predicate AllIndexable(s: Store)
  {
    forall i :: 0 <= i < |s| ==> Indexable(s[i].level)
  }

  /** Waiting time required at `level`; levels above 6 fall back to the
      level-0 entry. */
  function Threshold(level: int): (t: nat)
    requires Indexable(level)
    ensures t <= 30 * Day
    ensures t == 0 <==> level in {0, Memorized, -1, -|IntervalDays|} || level > Memorized
  {
    if level <= 6 then
      IntervalDays[if level >= 0 then level else level + |IntervalDays|] * Day
    else
      IntervalDays[0] * Day
  }

  predicate IsDue(r: Record, now: int)
    requires Indexable(r.level)
  {
    now - r.lastAnswered >= Threshold(r.level)
  }

  /** The due records, in store order. */
  function DueWords(s: Store, now: int): (r: Store)
    requires AllIndexable(s)
    ensures forall x :: x in r <==> x in s && IsDue(x, now)
    ensures Subsequence(r, s)
    ensures Unique(s) ==> Unique(r)
  {
    if |s| == 0 then s
    else
      assert s == [s[0]] + s[1..];
      var rest := DueWords(s[1..], now);
      if IsDue(s[0], now) then
        var r := [s[0]] + rest;
        assert Unique(s) ==> Unique(r) by {
          if Unique(s) {
            forall i, j | 0 <= i < j < |r|
              ensures r[i].word != r[j].word
            {
              assert r[j] == rest[j - 1];
              if i == 0 {
                assert rest[j - 1] in rest;
                assert r[j] in s[1..];
                var k :| 0 <= k < |s[1..]| && s[1..][k] == r[j];
                assert s[k + 1] == r[j];
              } else {
                assert r[i] == rest[i - 1];
              }
            }
          }
        }
        r
      else
        rest
  }

  /** Each due record appears in the result as often as it is stored; the
      others do not appear. */
  lemma {:induction false} DueWordsCounts(s: Store, now: int)
    requires AllIndexable(s)
    ensures forall x :: multiset(DueWords(s, now))[x] == if x in s && IsDue(x, now) then multiset(s)[x] else 0
  {
    if |s| > 0 {
      DueWordsCounts(s[1..], now);
      assert s == [s[0]] + s[1..];
      assert multiset(s) == multiset([s[0]]) + multiset(s[1..]);
      var rest := DueWords(s[1..], now);
      if IsDue(s[0], now) {
        assert DueWords(s, now) == [s[0]] + rest;
        assert multiset(DueWords(s, now)) == multiset([s[0]]) + multiset(rest);
      }
      forall x | x in s
        ensures multiset(DueWords(s, now))[x] == if x in s && IsDue(x, now) then multiset(s)[x] else 0
      {
        if x !in s[1..] {
          assert multiset(s[1..])[x] == 0;
        }
      }
    }
  }

  /** `get_num_target_words`. */
  function NumDueWords(s: Store, now: int): (n: nat)
    requires AllIndexable(s)
    ensures n <= |s|
    ensures n == 0 <==> forall i :: 0 <= i < |s| ==> !IsDue(s[i], now)
  {
    var r := DueWords(s, now);
    if |r| > 0 then assert r[0] in r; |r| else |r|
  }

  /** The words of the due records. */
  function DueWordSet(s: Store, now: int): set<string>
    requires AllIndexable(s)
  {
    set i | 0 <= i < |s| && IsDue(s[i], now) :: s[i].word
  }

  /** Without duplicates, the due count is the number of distinct words
      whose record is due. */
  lemma DueCount(s: Store, now: int)
    requires AllIndexable(s) && Unique(s)
    ensures NumDueWords(s, now) == |DueWordSet(s, now)|
    ensures NumDueWords(s, now) <= TotalWords(s)
  {
    var r := DueWords(s, now);
    UniqueWordCount(r);
    UniqueWordCount(s);
    assert Words(r) == DueWordSet(s, now) by {
      forall v | v in Words(r)
        ensures v in DueWordSet(s, now)
      {
        var i :| 0 <= i < |r| && r[i].word == v;
        assert r[i] in s;
        var k :| 0 <= k < |s| && s[k] == r[i];
      }
      forall v | v in DueWordSet(s, now)
        ensures v in Words(r)
      {
        var k :| 0 <= k < |s| && IsDue(s[k], now) && s[k].word == v;
        assert s[k] in r;
        var i :| 0 <= i < |r| && r[i] == s[k];
      }
    }
  }

  /** A due word stays due as time passes. */
  lemma DueStaysDue(r: Record, now: int, later: int)
    requires Indexable(r.level) && IsDue(r, now) && now <= later
    ensures IsDue(r, later)
  {
  }

  /** A word answered right now is due again immediately exactly when its
      level is 0, 6 or above 6: new and memorized words have no interval. */
  lemma DueRightAfterAnswer(r: Record, now: int)
    requires r.level >= 0 && r.lastAnswered == now
    ensures IsDue(r, now) <==> r.level == 0 || r.level >= Memorized
  {
  }

  /** After a full 30 days every word is due, whatever its level. */
  lemma LongestInterval(r: Record, now: int)
    requires Indexable(r.level) && now - r.lastAnswered >= 30 * Day
    ensures IsDue(r, now)
  {
  }
}
