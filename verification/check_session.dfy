/** `CheckSession`: a timed quiz over the words that were due when it was
    started. A tick counter runs per word; passing the time limit counts as
    a wrong answer and moves on, and so does a correct answer. The session
    keeps a frozen copy of the due records, so later changes to the store
    never reach it. */
module CheckSession {
  import opened Wrappers
  import opened WordStore
  import Scheduling
  import LevelMachine
  import Masking

  /** Ticks a word may stay on screen before it counts as failed. */
  const TimeLimit: nat := 30

  /** Before the first start there is no snapshot at all; after it the
      snapshot stays readable whether or not the session runs. */
  datatype Phase = Unstarted | Idle(snapshot: Store) | Running(snapshot: Store)

  datatype Session = Session(phase: Phase, index: nat, correct: nat, elapsed: nat)

  /** The Python exceptions a session call can raise. `MissingSnapshot` is
      the AttributeError of reading the snapshot before any start;
      `IndexOutOfRange` is the IndexError of reading the current word of an
      empty snapshot. */
  datatype Fault = MissingSnapshot | IndexOutOfRange

  /** What `answer` returns: "", "correct!" or "wrong...". */
  datatype Reply = Neutral | Correct | Wrong

  /** What `get_progress` prints: position, snapshot size, correct answers. */
  datatype Progress = Progress(position: int, total: nat, correct: nat)

  /** What `get_count` prints: ticks so far and the limit. */
  datatype Countdown = Countdown(elapsed: nat, limit: nat)

  /** A new session, as the class attributes initialise it. */
  const Initial: Session := Session(Unstarted, 0, 0, 0)

  /** The session invariant: correct answers never outnumber the words
      passed, the counter stays within the limit, and a running session is
      never past its snapshot unless the snapshot is empty. */
  predicate Valid(ses: Session)
  {
    && ses.correct <= ses.index
    && ses.elapsed <= TimeLimit
    && match ses.phase
       case Unstarted => ses.index == 0
       case Idle(snap) => ses.index <= |snap|
       case Running(snap) => ses.index < |snap| || (|snap| == 0 && ses.index == 0)
  }

  lemma InitialValid()
    ensures Valid(Initial) && Initial.phase.Unstarted?
  {
  }

  /** `start`: a no-op while running; otherwise snapshots the due records,
      rewinds to the first and clears the correct count. The tick counter
      is left as it was. */
  function Start(ses: Session, store: Store, now: int): (r: Session)
    requires !ses.phase.Running? ==> Scheduling.AllIndexable(store)
    ensures ses.phase.Running? ==> r == ses
    ensures !ses.phase.Running? ==>
      && r.phase.Running? && r.index == 0 && r.correct == 0 && r.elapsed == ses.elapsed
      && r.phase.snapshot == Scheduling.DueWords(store, now)
      && Subsequence(r.phase.snapshot, store)
      && forall x :: x in r.phase.snapshot <==> x in store && Scheduling.IsDue(x, now)
    ensures Valid(ses) ==> Valid(r)
  {
    if ses.phase.Running? then ses
    else Session(Running(Scheduling.DueWords(store, now)), 0, 0, ses.elapsed)
  }

  /** `stop`: a no-op unless running; otherwise only stops the session. */
  function Stop(ses: Session): (r: Session)
    ensures !ses.phase.Running? ==> r == ses
    ensures ses.phase.Running? ==>
      r.phase == Idle(ses.phase.snapshot) && r.index == ses.index
      && r.correct == ses.correct && r.elapsed == ses.elapsed
    ensures Valid(ses) ==> Valid(r)
  {
    match ses.phase
    case Running(snap) => ses.(phase := Idle(snap))
    case _ => ses
  }

  /** Moves past the current word; the session ends after the last one. */
  function Advance(ses: Session, snap: Store, correct: nat): Session
  {
    var next := ses.index + 1;
    Session(if next >= |snap| then Idle(snap) else Running(snap), next, correct, 0)
  }

  /** The `update_word` call a session step makes: the word and whether it
      counts as answered correctly. */
  datatype Verdict = Verdict(word: string, correct: bool)

  /** Carries out a step's `update_word` call on the store, if it made one. */
  function Commit(store: Store, verdict: Option<Verdict>, now: int, compose: string -> string): (r: Store)
    ensures |r| == |store|
    ensures verdict.None? ==> r == store
    ensures verdict.Some? ==> forall i :: 0 <= i < |store| ==>
      if store[i].word == verdict.value.word
      then r[i].word == store[i].word && r[i].lastAnswered == now && r[i].result == verdict.value.correct
      else r[i] == store[i]
  {
    match verdict
    case None => store
    case Some(v) =>
      LevelMachine.UpdateWord(store, v.word, v.correct, now, compose).1
  }

  /** `count`: one tick. Idle sessions ignore it. Past the time limit the
      current word is failed, the session moves on and the counter
      restarts. */
  function Tick(ses: Session): (r: Result<(Session, Option<Verdict>), Fault>)
    ensures !ses.phase.Running? ==> r == Ok((ses, None))
    ensures ses.phase.Running? && ses.elapsed + 1 <= TimeLimit ==>
      r == Ok((ses.(elapsed := ses.elapsed + 1), None))
    ensures ses.phase.Running? && ses.elapsed + 1 > TimeLimit && ses.index < |ses.phase.snapshot| ==>
      var snap := ses.phase.snapshot;
      && r.Ok?
      && r.value.1 == Some(Verdict(snap[ses.index].word, false))
      && r.value.0.index == ses.index + 1 && r.value.0.correct == ses.correct && r.value.0.elapsed == 0
      && r.value.0.phase == (if ses.index + 1 >= |snap| then Idle(snap) else Running(snap))
    ensures Valid(ses) ==>
      (r.Err? <==> ses.phase.Running? && |ses.phase.snapshot| == 0 && ses.elapsed == TimeLimit)
    ensures Valid(ses) && r.Ok? ==> Valid(r.value.0)
  {
    match ses.phase
    case Running(snap) =>
      var elapsed := ses.elapsed + 1;
      if elapsed > TimeLimit then
        if ses.index >= |snap| then Err(IndexOutOfRange)
        else Ok((Advance(ses, snap, ses.correct), Some(Verdict(snap[ses.index].word, false))))
      else
        Ok((ses.(elapsed := elapsed), None))
    case _ => Ok((ses, None))
  }

  /** `answer`: idle sessions reply neutrally. A wrong word changes
      nothing, not even the counter; the exact word is recorded as a
      correct answer, counted, and the session moves on. */
  function Answer(ses: Session, given: string): (r: Result<(Reply, Session, Option<Verdict>), Fault>)
    ensures !ses.phase.Running? ==> r == Ok((Neutral, ses, None))
    ensures ses.phase.Running? && ses.index < |ses.phase.snapshot| ==>
      var snap := ses.phase.snapshot;
      if given == snap[ses.index].word then
        && r.Ok? && r.value.0 == Correct && r.value.2 == Some(Verdict(given, true))
        && r.value.1.index == ses.index + 1 && r.value.1.correct == ses.correct + 1 && r.value.1.elapsed == 0
        && r.value.1.phase == (if ses.index + 1 >= |snap| then Idle(snap) else Running(snap))
      else
        r == Ok((Wrong, ses, None))
    ensures Valid(ses) ==> (r.Err? <==> ses.phase.Running? && |ses.phase.snapshot| == 0)
    ensures Valid(ses) && r.Ok? ==> Valid(r.value.1)
  {
    match ses.phase
    case Running(snap) =>
      if ses.index >= |snap| then Err(IndexOutOfRange)
      else if snap[ses.index].word == given then
        Ok((Correct, Advance(ses, snap, ses.correct + 1), Some(Verdict(given, true))))
      else
        Ok((Wrong, ses, None))
    case _ => Ok((Neutral, ses, None))
  }

  /** `reset_count`: restarts the counter and nothing else. */
  function ResetCount(ses: Session): (r: Session)
    ensures r.elapsed == 0 && r.phase == ses.phase && r.index == ses.index && r.correct == ses.correct
    ensures Valid(ses) ==> Valid(r)
  {
    ses.(elapsed := 0)
  }

  /** `get_progress`: needs a snapshot; reports the one-based position,
      which reads one past the total once the session has finished. */
  function GetProgress(ses: Session): (r: Result<Progress, Fault>)
    ensures r.Err? <==> ses.phase.Unstarted?
    ensures r.Ok? ==> r.value == Progress(ses.index + 1, |ses.phase.snapshot|, ses.correct)
  {
    match ses.phase
    case Unstarted => Err(MissingSnapshot)
    case Idle(snap) => Ok(Progress(ses.index + 1, |snap|, ses.correct))
    case Running(snap) => Ok(Progress(ses.index + 1, |snap|, ses.correct))
  }

  /** `get_count`: the seconds used on the current word against the limit. */
  function GetCount(ses: Session): (r: Countdown)
    ensures r.elapsed == ses.elapsed && r.limit == TimeLimit
    ensures Valid(ses) ==> r.elapsed <= r.limit
  {
    Countdown(ses.elapsed, TimeLimit)
  }

  /** `get_question`: needs a snapshot; the current word's question as it
      was when the session started, or "" once past the end. */
  function GetQuestion(ses: Session): (r: Result<string, Fault>)
    ensures r.Err? <==> ses.phase.Unstarted?
    ensures r.Ok? && ses.index < |ses.phase.snapshot| ==> r.value == ses.phase.snapshot[ses.index].question
    ensures r.Ok? && ses.index >= |ses.phase.snapshot| ==> r.value == ""
  {
    match ses.phase
    case Unstarted => Err(MissingSnapshot)
    case Idle(snap) => Ok(if ses.index < |snap| then snap[ses.index].question else "")
    case Running(snap) => Ok(if ses.index < |snap| then snap[ses.index].question else "")
  }

  /** `n` calls of `count` in a row, each carried out on the store,
      stopping at the first fault. */
  function Ticks(ses: Session, store: Store, n: nat, now: int, compose: string -> string): (r: Result<(Session, Store), Fault>)
    ensures !ses.phase.Running? ==> r == Ok((ses, store))
    decreases n
  {
    if n == 0 then Ok((ses, store))
    else
      match Ticks(ses, store, n - 1, now, compose)
      case Err(f) => Err(f)
      case Ok(state) =>
        match Tick(state.0)
        case Err(f) => Err(f)
        case Ok(step) => Ok((step.0, Commit(state.1, step.1, now, compose)))
  }

  /** Within the time limit ticks only advance the counter. */
  lemma {:induction false} TicksBelowLimit(ses: Session, store: Store, k: nat, now: int, compose: string -> string)
    requires ses.phase.Running? && ses.elapsed + k <= TimeLimit
    ensures Ticks(ses, store, k, now, compose) == Ok((ses.(elapsed := ses.elapsed + k), store))
  {
    if k > 0 {
      TicksBelowLimit(ses, store, k - 1, now, compose);
    }
  }

  /** A word left unanswered for one tick more than the limit is recorded
      as a wrong answer and the session moves on. */
  lemma TimeoutFailsWord(ses: Session, store: Store, now: int, compose: string -> string)
    requires Valid(ses) && ses.phase.Running? && ses.elapsed == 0
    requires ses.index < |ses.phase.snapshot|
    ensures var snap := ses.phase.snapshot;
      var r := Ticks(ses, store, TimeLimit + 1, now, compose);
      && r.Ok?
      && r.value.1 == Commit(store, Some(Verdict(snap[ses.index].word, false)), now, compose)
      && r.value.0.index == ses.index + 1 && r.value.0.correct == ses.correct && r.value.0.elapsed == 0
      && r.value.0.phase == (if ses.index + 1 >= |snap| then Idle(snap) else Running(snap))
  {
    TicksBelowLimit(ses, store, TimeLimit, now, compose);
  }

  /** Resetting the counter gives the current word a full time limit again. */
  lemma ResetDefersTimeout(ses: Session, store: Store, now: int, compose: string -> string)
    requires ses.phase.Running?
    ensures Ticks(ResetCount(ses), store, TimeLimit, now, compose) == Ok((ses.(elapsed := TimeLimit), store))
  {
    TicksBelowLimit(ResetCount(ses), store, TimeLimit, now, compose);
  }

  /** No session call ever changes a snapshot once taken; only `start`
      replaces it. */
  lemma SnapshotFrozen(ses: Session, given: string)
    requires !ses.phase.Unstarted?
    ensures Stop(ses).phase.snapshot == ses.phase.snapshot
    ensures ResetCount(ses).phase.snapshot == ses.phase.snapshot
    ensures Tick(ses).Ok? ==> Tick(ses).value.0.phase.snapshot == ses.phase.snapshot
    ensures Answer(ses, given).Ok? ==> Answer(ses, given).value.1.phase.snapshot == ses.phase.snapshot
  {
  }

  /** Every record of the snapshot satisfies the store's record invariant. */
  predicate SnapshotValid(ses: Session)
  {
    !ses.phase.Unstarted? ==> forall i :: 0 <= i < |ses.phase.snapshot| ==> ValidRecord(ses.phase.snapshot[i])
  }

  /** Starting from a well-formed store takes a snapshot of valid records
      with distinct words. */
  lemma StartSnapshotValid(ses: Session, store: Store, now: int)
    requires !ses.phase.Running? && WellFormed(store)
    ensures var r := Start(ses, store, now);
      SnapshotValid(r) && Unique(r.phase.snapshot)
  {
    var snap := Start(ses, store, now).phase.snapshot;
    forall i | 0 <= i < |snap|
      ensures ValidRecord(snap[i])
    {
      assert snap[i] in snap;
    }
  }

  /** The question shown is always a single line. */
  lemma ShownQuestionIsSingleLine(ses: Session)
    requires SnapshotValid(ses)
    ensures GetQuestion(ses).Ok? ==> Masking.LineBreak !in GetQuestion(ses).value
  {
  }

  /** Carrying out a step's verdict keeps the word store well-formed. */
  lemma CommitKeepsWellFormed(store: Store, verdict: Option<Verdict>, now: int, compose: string -> string)
    requires WellFormed(store)
    ensures WellFormed(Commit(store, verdict, now, compose))
  {
    if verdict.Some? {
      LevelMachine.UpdateWordPreservesWellFormed(store, verdict.value.word, verdict.value.correct, now, compose);
    }
  }

  /** Every verdict names the word on screen, and only a correct answer
      yields a positive one. */
  lemma VerdictsNameCurrentWord(ses: Session, given: string)
    requires ses.phase.Running? && ses.index < |ses.phase.snapshot|
    ensures var t := Tick(ses);
      t.Ok? && t.value.1.Some? ==> t.value.1.value == Verdict(ses.phase.snapshot[ses.index].word, false)
    ensures var a := Answer(ses, given);
      a.Ok? && a.value.2.Some? ==> a.value.2.value == Verdict(ses.phase.snapshot[ses.index].word, true) && a.value.0 == Correct
  {
  }

  /** A correct answer moves the progress one word on, counts the answer
      and shows the next word's question. */
  lemma CorrectAnswerMovesOn(ses: Session)
    requires Valid(ses) && ses.phase.Running? && ses.index + 1 < |ses.phase.snapshot|
    ensures var snap := ses.phase.snapshot;
      var r := Answer(ses, snap[ses.index].word);
      && r.Ok? && r.value.0 == Correct
      && GetProgress(r.value.1) == Ok(Progress(ses.index + 2, |snap|, ses.correct + 1))
      && GetQuestion(r.value.1) == Ok(snap[ses.index + 1].question)
  {
  }

  /** Answering the last word ends the session; afterwards answers are
      neutral and the progress reads one past the total. */
  lemma LastAnswerEndsSession(ses: Session, later: string)
    requires Valid(ses) && ses.phase.Running? && ses.index + 1 == |ses.phase.snapshot|
    ensures var r := Answer(ses, ses.phase.snapshot[ses.index].word);
      && r.Ok? && r.value.1.phase.Idle?
      && GetQuestion(r.value.1) == Ok("")
      && GetProgress(r.value.1).value.position == |ses.phase.snapshot| + 1
      && Answer(r.value.1, later) == Ok((Neutral, r.value.1, None))
  {
  }

  /** A two-word session: the first word answered, the second left to time
      out. The session then ends and ignores further answers. The session's
      course does not depend on the store, so `store` stands for whatever
      the store holds once the first answer is committed. */
  lemma TwoWordSession(ses: Session, store: Store, now: int, compose: string -> string)
    requires Valid(ses) && ses.phase.Running? && |ses.phase.snapshot| == 2 && ses.index == 0
    ensures var snap := ses.phase.snapshot;
      var a := Answer(ses, snap[0].word);
      && a.Ok? && a.value.0 == Correct
      && GetProgress(a.value.1) == Ok(Progress(2, 2, 1))
      && GetQuestion(a.value.1) == Ok(snap[1].question)
      && var t := Ticks(a.value.1, store, TimeLimit + 1, now, compose);
         && t.Ok? && t.value.0.phase == Idle(snap)
         && GetProgress(t.value.0) == Ok(Progress(3, 2, 1))
         && Answer(t.value.0, snap[1].word) == Ok((Neutral, t.value.0, None))
  {
    var snap := ses.phase.snapshot;
    var next := Session(Running(snap), 1, 1, 0);
    assert Answer(ses, snap[0].word) == Ok((Correct, next, Some(Verdict(snap[0].word, true))));
    TimeoutFailsWord(next, store, now, compose);
  }
}
