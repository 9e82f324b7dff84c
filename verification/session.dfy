/**
 * The quiz session: which question is selected, what the last run produced,
 * and the `runQuery` transition that executes the user's query and the
 * reference solution and turns the comparison into feedback.
 *
 * The SQL engine is an oracle over an abstract database state `D`: running a
 * query yields an outcome and the (possibly changed) database, since the one
 * engine instance is shared read-write by every run.
 */
module Session {
  import opened Wrappers
  import opened Values
  import opened ResultSets
  import opened Verifier

  datatype Tier = Easy | Medium | Hard | Superhard

  datatype Question = Question(prompt: string, summary: string, solution: string, hint: string)

  /** The question bank: an ordered list of questions per tier. */
  type Bank = Tier -> seq<Question>

  /** Every tier offers at least one question (the shipped bank has ten per tier). */
  predicate ValidBank(bank: Bank)
  {
    forall t: Tier :: |bank(t)| > 0
  }

  /** What `db.exec` does: throw with a message, or return the list of result sets. */
  datatype ExecOutcome = Threw(message: string) | Ran(sets: seq<ResultSet>)

  datatype Step<D> = Step(outcome: ExecOutcome, db: D)

  /** The engine: a query run against a database state. */
  type Engine<!D> = (D, string) -> Step<D>

  datatype Feedback = Correct | NotQuite

  /** The component state that the run and selection handlers touch. */
  datatype State<D> = State(
    db: Option<D>,
    difficulty: Tier,
    questionIdx: nat,
    query: string,
    result: Option<seq<Row>>,
    error: Option<string>,
    feedback: Option<Feedback>,
    showHint: bool,
    showAnswer: bool)

  /** Before the engine has loaded: easy tier, first question, nothing shown. */
  function InitialState<D>(): State<D>
  {
    State(None, Easy, 0, "", None, None, None, false, false)
  }

  /** The selected question exists. */
  predicate ValidState<D>(s: State<D>, bank: Bank)
  {
    s.questionIdx < |bank(s.difficulty)|
  }

  /** The message of the TypeError raised when the selected question does not exist. */
  const MissingQuestionMessage: string := "Cannot read properties of undefined (reading 'solution')"

  /** The `catch` branch: the message is shown, the result and verdict cleared, the hint revealed. */
  function Failed<D>(s: State<D>, db: D, message: string): State<D>
  {
    s.(db := Some(db), result := None, error := Some(message), feedback := None, showHint := true)
  }

  /** The rows of an engine answer: those of its first result set, or none at all. */
  function FirstRows(sets: seq<ResultSet>): seq<Row>
  {
    if |sets| > 0 then ZipRows(sets[0]) else []
  }

  /**
   * `runQuery`. Exactly one of the error and the verdict is set after a run
   * on a loaded engine; a correct verdict hides the hint and every other
   * outcome reveals it; the selection, the query and the answer panel are
   * left as they were.
   */
  function RunQuery<D>(s: State<D>, bank: Bank, exec: Engine<D>): (s': State<D>)
    ensures s'.difficulty == s.difficulty && s'.questionIdx == s.questionIdx
    ensures s'.query == s.query && s'.showAnswer == s.showAnswer
    ensures s.db.None? ==> s'.db.None? && s'.error.None? && !s'.showHint && s'.result == s.result && s'.feedback == s.feedback
    ensures s.db.Some? ==> s'.db.Some?
    ensures s.db.Some? ==> (s'.error.Some? <==> s'.feedback.None?)
    ensures s.db.Some? ==> (s'.showHint <==> s'.feedback != Some(Correct))
    ensures s'.error.Some? ==> s'.result.None?
    ensures s'.feedback == Some(Correct) ==> !s'.showHint
  {
    if s.db.None? then
      s.(error := None, showHint := false)
    else
      var user := exec(s.db.value, s.query);
      match user.outcome
      case Threw(message) => Failed(s, user.db, message)
      case Ran(sets) =>
        if |sets| == 0 then
          s.(db := Some(user.db), result := Some([]), error := None, feedback := Some(NotQuite), showHint := true)
        else if s.questionIdx >= |bank(s.difficulty)| then
          Failed(s, user.db, MissingQuestionMessage)
        else
          var rows := ZipRows(sets[0]);
          var reference := exec(user.db, bank(s.difficulty)[s.questionIdx].solution);
          match reference.outcome
          case Threw(message) => Failed(s, reference.db, message)
          case Ran(solutionSets) =>
            var correct := SameRows(rows, FirstRows(solutionSets));
            s.(db := Some(reference.db), result := Some(rows), error := None,
               feedback := Some(if correct then Correct else NotQuite), showHint := !correct)
  }

  /**
   * A failing user query surfaces the engine's message with no verdict, and
   * the reference solution is not run: the database is the one the failed
   * query left behind.
   */
  lemma RunQueryUserError<D>(s: State<D>, bank: Bank, exec: Engine<D>)
    requires s.db.Some? && exec(s.db.value, s.query).outcome.Threw?
    ensures var s' := RunQuery(s, bank, exec);
            && s'.error == Some(exec(s.db.value, s.query).outcome.message)
            && s'.result.None? && s'.feedback.None? && s'.showHint
            && s'.db == Some(exec(s.db.value, s.query).db)
  {
  }

  /** A statement that yields no result set shows an empty result and "not quite", never an error. */
  lemma RunQueryNoResultSet<D>(s: State<D>, bank: Bank, exec: Engine<D>)
    requires s.db.Some? && exec(s.db.value, s.query).outcome == Ran([])
    ensures var s' := RunQuery(s, bank, exec);
            && s'.result == Some([]) && s'.feedback == Some(NotQuite) && s'.error.None? && s'.showHint
            && s'.db == Some(exec(s.db.value, s.query).db)
  {
  }

  /**
   * When both queries run, the result shown is the user's first result set
   * as rows, and the verdict is "correct" exactly when the checker accepts
   * it against the reference rows; for engine output that is exactly
   * equality of the two row sequences.
   */
  lemma RunQueryVerdict<D>(s: State<D>, bank: Bank, exec: Engine<D>)
    requires s.db.Some? && ValidState(s, bank)
    requires exec(s.db.value, s.query).outcome.Ran?
    requires |exec(s.db.value, s.query).outcome.sets| > 0
    requires var db1 := exec(s.db.value, s.query).db;
             exec(db1, bank(s.difficulty)[s.questionIdx].solution).outcome.Ran?
    ensures var user := exec(s.db.value, s.query).outcome.sets[0];
            var reference := exec(exec(s.db.value, s.query).db, bank(s.difficulty)[s.questionIdx].solution).outcome.sets;
            var s' := RunQuery(s, bank, exec);
            && s'.result == Some(ZipRows(user))
            && s'.db == Some(exec(exec(s.db.value, s.query).db, bank(s.difficulty)[s.questionIdx].solution).db)
            && s'.error.None?
            && (s'.feedback == Some(Correct) <==> SameRows(ZipRows(user), FirstRows(reference)))
            && (WellFormedSet(user) ==> (s'.feedback == Some(Correct) <==> ZipRows(user) == FirstRows(reference)))
  {
    var user := exec(s.db.value, s.query).outcome.sets[0];
    var reference := exec(exec(s.db.value, s.query).db, bank(s.difficulty)[s.questionIdx].solution).outcome.sets;
    SameRowsIsEquality(ZipRows(user), FirstRows(reference));
  }

  /**
   * A reference solution that throws, which the shared database makes
   * possible (a user statement may drop a table it reads), surfaces the
   * engine's message with no result and no verdict, reveals the hint, and
   * keeps the database the reference left.
   */
  lemma RunQueryReferenceError<D>(s: State<D>, bank: Bank, exec: Engine<D>)
    requires s.db.Some? && ValidState(s, bank)
    requires exec(s.db.value, s.query).outcome.Ran?
    requires |exec(s.db.value, s.query).outcome.sets| > 0
    requires var db1 := exec(s.db.value, s.query).db;
             exec(db1, bank(s.difficulty)[s.questionIdx].solution).outcome.Threw?
    ensures var reference := exec(exec(s.db.value, s.query).db, bank(s.difficulty)[s.questionIdx].solution);
            var s' := RunQuery(s, bank, exec);
            && s'.error == Some(reference.outcome.message)
            && s'.result.None? && s'.feedback.None? && s'.showHint
            && s'.db == Some(reference.db)
  {
  }

  /**
   * A selection that names no question of its tier makes reading the
   * reference solution throw a TypeError once the user query has produced a
   * result set: its message is shown, with no result and no verdict, and the
   * database is the one the user query left.
   */
  lemma RunQueryMissingQuestion<D>(s: State<D>, bank: Bank, exec: Engine<D>)
    requires s.db.Some? && !ValidState(s, bank)
    requires exec(s.db.value, s.query).outcome.Ran?
    requires |exec(s.db.value, s.query).outcome.sets| > 0
    ensures var s' := RunQuery(s, bank, exec);
            && s'.error == Some(MissingQuestionMessage)
            && s'.result.None? && s'.feedback.None? && s'.showHint
            && s'.db == Some(exec(s.db.value, s.query).db)
  {
  }

  /**
   * A reference solution without a result set compares as zero rows: any
   * user table with a row is judged wrong, and an empty one right.
   */
  lemma ReferenceWithoutResultSet<D>(s: State<D>, bank: Bank, exec: Engine<D>)
    requires s.db.Some? && ValidState(s, bank)
    requires exec(s.db.value, s.query).outcome.Ran?
    requires |exec(s.db.value, s.query).outcome.sets| > 0
    requires var db1 := exec(s.db.value, s.query).db;
             exec(db1, bank(s.difficulty)[s.questionIdx].solution).outcome == Ran([])
    ensures var user := exec(s.db.value, s.query).outcome.sets[0];
            RunQuery(s, bank, exec).feedback == Some(if |user.values| > 0 then NotQuite else Correct)
  {
  }

  /**
   * Column order is irrelevant to the verdict: a user query that returns the
   * reference's columns in another order, with the same values, is correct.
   */
  lemma ReorderedColumnsAreCorrect<D>(s: State<D>, bank: Bank, exec: Engine<D>)
    requires s.db.Some? && ValidState(s, bank)
    requires exec(s.db.value, s.query).outcome.Ran?
    requires |exec(s.db.value, s.query).outcome.sets| > 0
    requires var db1 := exec(s.db.value, s.query).db;
             var reference := exec(db1, bank(s.difficulty)[s.questionIdx].solution).outcome;
             && reference.Ran? && |reference.sets| > 0
             && ReorderedColumns(exec(s.db.value, s.query).outcome.sets[0], reference.sets[0])
    ensures RunQuery(s, bank, exec).feedback == Some(Correct)
  {
    var db1 := exec(s.db.value, s.query).db;
    var reference := exec(db1, bank(s.difficulty)[s.questionIdx].solution).outcome;
    ReorderedColumnsZipEqual(exec(s.db.value, s.query).outcome.sets[0], reference.sets[0]);
    SameRowsIsEquivalence(FirstRows(reference.sets), FirstRows(reference.sets), FirstRows(reference.sets));
  }

  /**
   * Selecting a (tier, question) pair; React re-runs the reset effect only
   * when the pair actually changed, and then clears the query, the result,
   * the error, the verdict and both panels.
   */
  function Select<D>(s: State<D>, difficulty: Tier, questionIdx: nat): State<D>
  {
    if difficulty == s.difficulty && questionIdx == s.questionIdx then s
    else State(s.db, difficulty, questionIdx, "", None, None, None, false, false)
  }

  /** The difficulty menu: switches tier and goes back to the first question. */
  function SelectDifficulty<D>(s: State<D>, t: Tier): (s': State<D>)
    ensures s'.difficulty == t && s'.questionIdx == 0
    ensures s'.db == s.db
    ensures (t, 0) == (s.difficulty, s.questionIdx) ==> s' == s
    ensures (t, 0) != (s.difficulty, s.questionIdx) ==>
              s'.query == "" && s'.result.None? && s'.error.None? && s'.feedback.None? && !s'.showHint && !s'.showAnswer
  {
    Select(s, t, 0)
  }

  /** The question menu: picks a question of the current tier. */
  function SelectQuestion<D>(s: State<D>, i: nat): (s': State<D>)
    ensures s'.difficulty == s.difficulty && s'.questionIdx == i
    ensures s'.db == s.db
    ensures i == s.questionIdx ==> s' == s
    ensures i != s.questionIdx ==>
              s'.query == "" && s'.result.None? && s'.error.None? && s'.feedback.None? && !s'.showHint && !s'.showAnswer
  {
    Select(s, s.difficulty, i)
  }

  /**
   * Every question the menus can reach exists: the initial session, a tier
   * change, a pick among the tier's listed questions and a run all keep the
   * selection valid.
   */
  lemma SelectionStaysValid<D>(s: State<D>, bank: Bank, exec: Engine<D>, t: Tier, i: nat)
    requires ValidBank(bank)
    ensures ValidState(InitialState<D>(), bank)
    ensures ValidState(SelectDifficulty(s, t), bank)
    ensures ValidState(s, bank) && i < |bank(s.difficulty)| ==> ValidState(SelectQuestion(s, i), bank)
    ensures ValidState(s, bank) ==> ValidState(RunQuery(s, bank, exec), bank)
  {
    assert |bank(t)| > 0;
    assert |bank(Easy)| > 0;
  }
}
