/** `update_word`: the spaced-repetition level state machine. Each answer
    stamps the record and then moves it according to the PREVIOUS answer:
    two correct answers in a row promote, failures after a failure pile up
    and demote at three, and a correct answer after a failure only clears
    the failure count. */
module LevelMachine {
  import opened Wrappers
  import opened WordStore
  import Scheduling

  /** Failures in a row that demote a word. */
  const DemoteAfter: nat := 3

  /** Reference rule for the level and failure count, given the outcome
      of the previous answer and of this one. */
  function Rescheduled(r: Record, wasCorrect: bool, isCorrect: bool, compose: string -> string): Record
  {
    if wasCorrect && isCorrect then
      r.(level := r.level + 1, question := Question(compose, r.word))
    else if wasCorrect then
      r.(falseCount := 1)
    else if isCorrect then
      r.(falseCount := 0)
    else if r.falseCount + 1 >= DemoteAfter && r.level > 0 then
      r.(level := r.level - 1, falseCount := 0)
    else
      r.(falseCount := r.falseCount + 1)
  }

  /** Reference rule: the record after its word is answered. */
  function Answered(r: Record, isCorrect: bool, now: int, compose: string -> string): Record
  {
    Rescheduled(r.(lastAnswered := now, result := isCorrect), r.result, isCorrect, compose)
  }

  /** `r` agrees with `s` on the key and on the answer stamp of every record. */
  predicate KeepsStamp(s: Store, r: Store)
  {
    |r| == |s| &&
    forall i :: 0 <= i < |s| ==>
      r[i].word == s[i].word && r[i].lastAnswered == s[i].lastAnswered && r[i].result == s[i].result
  }

  lemma KeepsStampTrans(s: Store, t: Store, u: Store)
    requires KeepsStamp(s, t) && KeepsStamp(t, u)
    ensures KeepsStamp(s, u)
  {
  }

  /** One `_update_word_attribute` call whose status is not looked at. */
  function Assign(s: Store, w: string, c: Change): (r: Store)
    ensures |r| == |s|
    ensures !c.SetLastAnswered? && !c.SetResult? ==> KeepsStamp(s, r)
    ensures forall i :: 0 <= i < |s| ==> r[i] == if s[i].word == w then Apply(s[i], c) else s[i]
  {
    var r := UpdateAttribute(s, w, c).1;
    assert !c.SetLastAnswered? && !c.SetResult? ==> KeepsStamp(s, r) by {
      if !c.SetLastAnswered? && !c.SetResult? {
        forall i | 0 <= i < |s|
          ensures r[i].word == s[i].word && r[i].lastAnswered == s[i].lastAnswered && r[i].result == s[i].result
        {
          ApplyKeepsStamp(s[i], c);
        }
      }
    }
    r
  }

  /** Writes other than the answer time and the result leave the key and
      the answer stamp of a record alone. */
  lemma ApplyKeepsStamp(rec: Record, c: Change)
    requires !c.SetLastAnswered? && !c.SetResult?
    ensures var r := Apply(rec, c);
      r.word == rec.word && r.lastAnswered == rec.lastAnswered && r.result == rec.result
  {
  }

  /** The two writes every answer makes: time of answer and outcome. */
  function Stamp(s: Store, w: string, isCorrect: bool, now: int): (r: Store)
    ensures |r| == |s|
    ensures forall i :: 0 <= i < |s| ==>
      r[i] == if s[i].word == w then s[i].(lastAnswered := now, result := isCorrect) else s[i]
  {
    Assign(Assign(s, w, SetLastAnswered(now)), w, SetResult(isCorrect))
  }

  /** Second correct answer in a row: one level up, fresh question. */
  function Promote(s: Store, w: string, level: int, question: string): (r: Store)
    ensures |r| == |s|
    ensures forall i :: 0 <= i < |s| && s[i].word != w ==> r[i] == s[i]
    ensures KeepsStamp(s, r)
  {
    var s1 := Assign(s, w, SetLevel(level + 1));
    var s2 := Assign(s1, w, SetQuestion(question));
    KeepsStampTrans(s, s1, s2);
    s2
  }

  /** Another failure after a failure: count it, and at three demote a
      word above level 0 and start counting afresh. */
  function CountFailure(s: Store, w: string, level: int, falseCount: nat): (r: Store)
    ensures |r| == |s|
    ensures forall i :: 0 <= i < |s| && s[i].word != w ==> r[i] == s[i]
    ensures KeepsStamp(s, r)
  {
    var count := falseCount + 1;
    if count >= DemoteAfter && level > 0 then
      var s1 := Assign(s, w, SetLevel(level - 1));
      var s2 := Assign(s1, w, SetFalseCount(0));
      KeepsStampTrans(s, s1, s2);
      s2
    else
      Assign(s, w, SetFalseCount(count))
  }

  /** The level and failure-count writes, chosen by the previous outcome.
      `prev` is the word's first record as read before the answer was
      stamped; the code reads the level and failure count again after
      stamping, which leaves both as they were. */
  function Reschedule(s: Store, w: string, prev: Record, isCorrect: bool, compose: string -> string): (r: Store)
    ensures |r| == |s|
    ensures forall i :: 0 <= i < |s| && s[i].word != w ==> r[i] == s[i]
    ensures KeepsStamp(s, r)
  {
    if prev.result then
      if isCorrect then Promote(s, w, prev.level, Question(compose, w))
      else Assign(s, w, SetFalseCount(1))
    else if isCorrect then
      Assign(s, w, SetFalseCount(0))
    else
      CountFailure(s, w, prev.level, prev.falseCount)
  }

  /** `update_word`, as the sequence of attribute reads and writes the code
      performs. An unknown word is reported and nothing changes; otherwise
      only the records of `w` change, and each is stamped with the time
      and the outcome of this answer. */
  function UpdateWord(s: Store, w: string, isCorrect: bool, now: int, compose: string -> string): (res: (bool, Store))
    ensures res.0 <==> w in Words(s)
    ensures !res.0 ==> res.1 == s
    ensures |res.1| == |s|
    ensures forall i :: 0 <= i < |s| && s[i].word != w ==> res.1[i] == s[i]
    ensures forall i :: 0 <= i < |s| && s[i].word == w ==>
      res.1[i].word == w && res.1[i].lastAnswered == now && res.1[i].result == isCorrect
  {
    match Find(s, w)
    case None => (false, s)
    case Some(prev) =>
      var stamped := Stamp(s, w, isCorrect, now);
      var r := Reschedule(stamped, w, prev, isCorrect, compose);
      assert forall i :: 0 <= i < |s| ==>
        r[i].word == stamped[i].word && r[i].lastAnswered == stamped[i].lastAnswered && r[i].result == stamped[i].result;
      (true, r)
  }

  /** On a store without duplicates an assignment rewrites one slot. */
  lemma AssignAt(s: Store, w: string, c: Change, i: int)
    requires OnlyAt(s, w, i)
    ensures Assign(s, w, c) == s[i := Apply(s[i], c)]
    ensures OnlyAt(Assign(s, w, c), w, i)
  {
    RewriteAt(s, w, c, i);
  }

  lemma StampAt(s: Store, w: string, isCorrect: bool, now: int, i: int)
    requires OnlyAt(s, w, i)
    ensures Stamp(s, w, isCorrect, now) == s[i := s[i].(lastAnswered := now, result := isCorrect)]
    ensures OnlyAt(Stamp(s, w, isCorrect, now), w, i)
  {
    var s1 := Assign(s, w, SetLastAnswered(now));
    AssignAt(s, w, SetLastAnswered(now), i);
    AssignAt(s1, w, SetResult(isCorrect), i);
  }

  lemma PromoteAt(s: Store, w: string, question: string, i: int)
    requires OnlyAt(s, w, i)
    ensures Promote(s, w, s[i].level, question) == s[i := s[i].(level := s[i].level + 1, question := question)]
  {
    var r := s[i];
    var s1 := Assign(s, w, SetLevel(r.level + 1));
    AssignAt(s, w, SetLevel(r.level + 1), i);
    AssignAt(s1, w, SetQuestion(question), i);
  }

  lemma CountFailureAt(s: Store, w: string, i: int, compose: string -> string)
    requires OnlyAt(s, w, i)
    ensures CountFailure(s, w, s[i].level, s[i].falseCount) == s[i := Rescheduled(s[i], false, false, compose)]
  {
    var r := s[i];
    if r.falseCount + 1 >= DemoteAfter && r.level > 0 {
      var s1 := Assign(s, w, SetLevel(r.level - 1));
      AssignAt(s, w, SetLevel(r.level - 1), i);
      AssignAt(s1, w, SetFalseCount(0), i);
    } else {
      AssignAt(s, w, SetFalseCount(r.falseCount + 1), i);
    }
  }

  /** The writes chosen by the previous outcome, on the word's one record;
      `prev` agrees with that record on level and failure count. */
  lemma RescheduleAt(s: Store, w: string, prev: Record, isCorrect: bool, compose: string -> string, i: int)
    requires OnlyAt(s, w, i) && prev.level == s[i].level && prev.falseCount == s[i].falseCount
    ensures Reschedule(s, w, prev, isCorrect, compose) == s[i := Rescheduled(s[i], prev.result, isCorrect, compose)]
  {
    if prev.result && isCorrect {
      PromoteAt(s, w, Question(compose, w), i);
    } else if prev.result {
      AssignAt(s, w, SetFalseCount(1), i);
    } else if isCorrect {
      AssignAt(s, w, SetFalseCount(0), i);
    } else {
      CountFailureAt(s, w, i, compose);
    }
  }

  /** On a store without duplicates, `update_word` replaces the record of
      the word by the reference rule's result and touches nothing else. */
  lemma UpdateWordIsAnswered(s: Store, w: string, isCorrect: bool, now: int, compose: string -> string, i: int)
    requires Unique(s) && 0 <= i < |s| && s[i].word == w
    ensures UpdateWord(s, w, isCorrect, now, compose) == (true, s[i := Answered(s[i], isCorrect, now, compose)])
  {
    UniqueOnlyAt(s, i);
    UpdateWordAt(s, w, isCorrect, now, compose, i);
  }

  lemma UpdateWordAt(s: Store, w: string, isCorrect: bool, now: int, compose: string -> string, i: int)
    requires OnlyAt(s, w, i)
    ensures UpdateWord(s, w, isCorrect, now, compose) == (true, s[i := Answered(s[i], isCorrect, now, compose)])
  {
    var s1 := Stamp(s, w, isCorrect, now);
    var stamped := s[i].(lastAnswered := now, result := isCorrect);
    var after := Rescheduled(stamped, s[i].result, isCorrect, compose);
    assert s1 == s[i := stamped] by {
      StampAt(s, w, isCorrect, now, i);
    }
    assert Reschedule(s1, w, s[i], isCorrect, compose) == s[i := after] by {
      StampAt(s, w, isCorrect, now, i);
      RescheduleAt(s1, w, s[i], isCorrect, compose, i);
      assert s1[i := after] == s[i := after];
    }
    assert UpdateWord(s, w, isCorrect, now, compose) == (true, Reschedule(s1, w, s[i], isCorrect, compose)) by {
      FindAt(s, w, i);
    }
  }

  /** The rule keeps the level floor, the correct-means-no-failures rule,
      the bound on failures above level 0, and single-line questions. */
  lemma AnsweredKeepsValid(r: Record, isCorrect: bool, now: int, compose: string -> string)
    requires ValidRecord(r)
    ensures ValidRecord(Answered(r, isCorrect, now, compose))
  {
  }

  /** How one answer moves a record: the word and registration never
      change, the level moves by at most one step, up exactly on a second
      correct answer in a row and down exactly on a third failure in a row
      above level 0, and the question is regenerated exactly on promotion. */
  lemma AnsweredSteps(r: Record, isCorrect: bool, now: int, compose: string -> string)
    requires ValidRecord(r)
    ensures var a := Answered(r, isCorrect, now, compose);
      && a.word == r.word && a.registered == r.registered
      && a.lastAnswered == now && a.result == isCorrect
      && (a.level == r.level + 1 <==> r.result && isCorrect)
      && (a.level == r.level - 1 <==> !r.result && !isCorrect && r.falseCount == DemoteAfter - 1 && r.level > 0)
      && r.level - 1 <= a.level <= r.level + 1
      && (a.question == if r.result && isCorrect then Question(compose, r.word) else r.question)
  {
  }

  /** Updating keeps the store free of duplicates and every record valid. */
  lemma UpdateWordPreservesWellFormed(s: Store, w: string, isCorrect: bool, now: int, compose: string -> string)
    requires WellFormed(s)
    ensures WellFormed(UpdateWord(s, w, isCorrect, now, compose).1)
  {
    if w in Words(s) {
      var i := IndexOf(s, w).value;
      UpdateWordIsAnswered(s, w, isCorrect, now, compose, i);
      AnsweredKeepsValid(s[i], isCorrect, now, compose);
      var r := UpdateWord(s, w, isCorrect, now, compose).1;
      forall j | 0 <= j < |r|
        ensures ValidRecord(r[j])
      {
        assert ValidRecord(s[j]);
      }
    }
  }

  /** Three failures in a row after a correct answer demote a word above
      level 0 by exactly one level and clear its failure count. */
  lemma ThreeFailuresDemote(r: Record, t1: int, t2: int, t3: int, compose: string -> string)
    requires ValidRecord(r) && r.result && r.level > 0
    ensures var a := Answered(Answered(Answered(r, false, t1, compose), false, t2, compose), false, t3, compose);
      a.level == r.level - 1 && a.falseCount == 0 && !a.result
  {
  }

  /** At level 0 failures keep counting and the level stays put. */
  lemma FailureAtFloor(r: Record, now: int, compose: string -> string)
    requires r.level == 0 && !r.result
    ensures Answered(r, false, now, compose).level == 0
    ensures Answered(r, false, now, compose).falseCount == r.falseCount + 1
  {
  }

  /** After a failure it takes two correct answers to gain a level: the
      first only clears the failure count. */
  lemma RecoveryTakesTwo(r: Record, t1: int, t2: int, compose: string -> string)
    requires !r.result
    ensures Answered(r, true, t1, compose).level == r.level
    ensures Answered(r, true, t1, compose).falseCount == 0
    ensures Answered(Answered(r, true, t1, compose), true, t2, compose).level == r.level + 1
  {
  }

  /** Promotion is not capped: a memorized word answered correctly twice in a row
      reaches level 7, stops being counted as memorized and, since the
      interval table falls back to level 0 above 6, is due again at once. */
  lemma PromotionBeyondMemorized(s: Store, i: int, now: int, compose: string -> string)
    requires Unique(s) && 0 <= i < |s| && s[i].level == Memorized && s[i].result
    ensures var s' := UpdateWord(s, s[i].word, true, now, compose).1;
      && s'[i].level == Memorized + 1
      && MemorizedWords(s') == MemorizedWords(s) - 1
      && Scheduling.IsDue(s'[i], now)
  {
    UpdateWordIsAnswered(s, s[i].word, true, now, compose, i);
    CountLevelUpdate(s, i, Answered(s[i], true, now, compose), Memorized);
  }
}
