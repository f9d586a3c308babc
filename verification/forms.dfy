/** `Form` and `Form::Filling`: the index of every question reachable from a
    start question, and a session that walks it. A session's cursor is the id
    of the current question, or `None` once the form has ended; its answers
    are an insertion-ordered hash from question id to answer token. */
module Forms {
  import opened Wrappers
  import opened OrderedMap
  import opened Questionnaire
  import opened Traversal

  datatype Form = Form(start: nat, questions: Graph)

  /** The start is indexed and every follow-up of an indexed question is
      indexed too: what `Form#initialize` establishes. */
  ghost predicate ValidForm(form: Form) {
    && form.start in form.questions
    && forall id, t :: id in form.questions && t in FollowUps(form.questions[id]) ==> t in form.questions
  }

  /** `Form.new(start:)`: index every question reachable from `start`. */
  function NewForm(g: Graph, rank: map<nat, nat>, start: nat): (form: Form)
    requires Acyclic(g, rank) && start in g
    ensures form.start == start
    ensures forall x :: x in form.questions <==> Reachable(g, start, x)
    ensures forall x :: x in form.questions ==> x in g && form.questions[x] == g[x]
    ensures ValidForm(form)
  {
    var questions := Collect(g, rank, start, map[]);
    CollectIsReachable(g, rank, start);
    CollectIsClosed(g, rank, start);
    Form(start, questions)
  }

  /** `Form#find_question`: `Hash#fetch`, which raises `KeyError` for an id
      that was never indexed, nil included. */
  function FindQuestion(form: Form, id: Option<nat>): (r: Result<Question, Error>)
    ensures r.Success? <==> id.Some? && id.value in form.questions
    ensures r.Success? ==> r.value == form.questions[id.value]
    ensures r.Failure? ==> r.error == KeyError(id)
  {
    if id.Some? && id.value in form.questions then Success(form.questions[id.value])
    else Failure(KeyError(id))
  }

  datatype Filling = Filling(form: Form, answers: Entries<nat, Value>, current: Option<nat>)

  /** What every session reachable from `Form#filling` satisfies: the form is
      valid, answers are keyed by distinct indexed questions, and the cursor,
      unless the form has ended, is an indexed question. */
  ghost predicate Valid(f: Filling) {
    && ValidForm(f.form)
    && UniqueKeys(f.answers)
    && (forall k :: k in Keys(f.answers) ==> k in f.form.questions)
    && (f.current.Some? ==> f.current.value in f.form.questions)
  }

  /** `Filling#ended?`. */
  predicate Ended(f: Filling) {
    f.current.None?
  }

  /** `Form#filling`: a fresh session at the start question. */
  function NewFilling(form: Form): (f: Filling)
    ensures f.form == form && f.answers == [] && f.current == Some(form.start)
    ensures !Ended(f)
    ensures ValidForm(form) ==> Valid(f)
  {
    Filling(form, [], Some(form.start))
  }

  /** The result of a session step: the session afterwards, and the exception
      the step raised, if any. Ruby mutates the session before it raises, so
      a raising step still has a successor state. */
  datatype Step = Step(filling: Filling, raised: Option<Error>)

  /** `Filling#answer`: store the answer under the current question, then
      move to whatever its connector yields. The store comes first, so an
      answer the connector rejects stays recorded while the cursor stays put.
      Answering after the form has ended stores under `nil.object_id` and
      then raises `NoMethodError` at `nil.connector`; that case is excluded. */
  function Answer(f: Filling, v: Value): (s: Step)
    requires f.current.Some? && f.current.value in f.form.questions
    ensures s.filling.form == f.form
    ensures Get(s.filling.answers, f.current.value) == Some(v)
    ensures forall k :: k != f.current.value ==> Get(s.filling.answers, k) == Get(f.answers, k)
    ensures var c := f.form.questions[f.current.value].connector;
      s.raised.None? <==> c.NullConnector? || v in Keys(c.branches)
    ensures s.raised.Some? ==> s.filling.current == f.current
    ensures s.raised.None? && s.filling.current.Some? ==>
      s.filling.current.value in FollowUps(f.form.questions[f.current.value])
    ensures Ended(s.filling) ==> s.raised.None?
    ensures var r := Call(f.form.questions[f.current.value].connector, v);
      && (r.Success? ==> s.raised.None? && s.filling.current == r.value)
      && (r.Failure? ==> s.raised == Some(r.error))
  {
    var id := f.current.value;
    var answers := Store(f.answers, id, v);
    var q := f.form.questions[id];
    match Call(q.connector, v)
    case Success(next) =>
      assert next.Some? ==> next.value in FollowUps(q) by {
        if next.Some? { CallStaysInFollowUps(q, v, next.value); }
      }
      Step(Filling(f.form, answers, next), None)
    case Failure(e) =>
      Step(Filling(f.form, answers, f.current), Some(e))
  }

  /** `Filling#rollback`: delete the current question's answer, then move to
      the question of the last remaining key. With nothing left the lookup of
      nil raises `KeyError` after the delete. When the form has ended the
      cursor is nil, whose Ruby `object_id` is no question's, so nothing is
      deleted. */
  function Rollback(f: Filling): (s: Step)
    ensures s.filling.form == f.form
    ensures f.current.Some? ==> Get(s.filling.answers, f.current.value).None?
    ensures forall k: nat :: f.current != Some(k) ==> Get(s.filling.answers, k) == Get(f.answers, k)
    ensures s.raised.None? ==>
      && s.filling.current == LastKey(s.filling.answers)
      && s.filling.current.Some?
      && s.filling.current.value in f.form.questions
    ensures s.raised.Some? ==> s.filling.current == f.current
    ensures s.filling.answers == [] ==> s.raised == Some(KeyError(None))
  {
    var answers := if f.current.Some? then Delete(f.answers, f.current.value) else f.answers;
    var last := LastKey(answers);
    match FindQuestion(f.form, last)
    case Success(_) => Step(Filling(f.form, answers, last), None)
    case Failure(e) => Step(Filling(f.form, answers, f.current), Some(e))
  }

  /** Answering keeps a session valid: the answer is keyed by the current
      question, which is indexed, and the next question is a follow-up of an
      indexed question, hence indexed itself. */
  lemma AnswerKeepsValid(f: Filling, v: Value)
    requires Valid(f) && f.current.Some?
    ensures Valid(Answer(f, v).filling)
  {
    var id := f.current.value;
    StoreUnique(f.answers, id, v);
    StoreKeys(f.answers, id, v);
    var s := Answer(f, v);
    if s.raised.None? && s.filling.current.Some? {
      assert s.filling.current.value in FollowUps(f.form.questions[id]);
    }
  }

  /** Rolling back keeps a session valid, and on a valid session it raises
      exactly when no answer remains. */
  lemma RollbackKeepsValid(f: Filling)
    requires Valid(f)
    ensures Valid(Rollback(f).filling)
    ensures Rollback(f).raised.None? <==> Rollback(f).filling.answers != []
  {
    var s := Rollback(f);
    if f.current.Some? {
      DeleteUnique(f.answers, f.current.value);
    }
    forall k | k in Keys(s.filling.answers) ensures k in f.form.questions {
      assert Get(s.filling.answers, k).Some?;
    }
  }

  /** The answers in first-insertion order, each resolved to its question's
      label: what `Filling#print_out` prints, minus the formatting. */
  function Summary(f: Filling): (r: Result<seq<(string, Value)>, Error>)
  {
    Report(f.form, f.answers)
  }

  /** One (label, answer) line per entry, in order; the first entry whose id
      the form never indexed raises `KeyError` for that id. */
  function Report(form: Form, answers: Entries<nat, Value>): (r: Result<seq<(string, Value)>, Error>)
    ensures r.Success? <==> forall i :: 0 <= i < |answers| ==> answers[i].0 in form.questions
    ensures r.Success? ==>
      && |r.value| == |answers|
      && forall i :: 0 <= i < |answers| ==>
           r.value[i] == (form.questions[answers[i].0].text, answers[i].1)
    ensures r.Failure? ==>
      exists i :: 0 <= i < |answers| && answers[i].0 !in form.questions && r.error == KeyError(Some(answers[i].0))
        && forall j :: 0 <= j < i ==> answers[j].0 in form.questions
  {
    if answers == [] then Success([])
    else
      match FindQuestion(form, Some(answers[0].0))
      case Failure(e) => Failure(e)
      case Success(q) =>
        match Report(form, answers[1..])
        case Failure(e) => Failure(e)
        case Success(rest) => Success([(q.text, answers[0].1)] + rest)
  }

  /** A form indexes exactly the questions reachable from its start: looking
      up any other id, or nil, raises `KeyError`. */
  lemma FindQuestionIndexesReachable(g: Graph, rank: map<nat, nat>, start: nat, x: nat)
    requires Acyclic(g, rank) && start in g
    ensures var form := NewForm(g, rank, start);
      && FindQuestion(form, Some(start)) == Success(g[start])
      && (Reachable(g, start, x) ==> x in g && FindQuestion(form, Some(x)) == Success(g[x]))
      && (!Reachable(g, start, x) ==> FindQuestion(form, Some(x)) == Failure(KeyError(Some(x))))
      && FindQuestion(form, None) == Failure(KeyError(None))
  {
  }

  /** When every question of `g` is reachable from the start, the form
      indexes all of `g`, each question under its own id. */
  lemma NewFormOfConnected(g: Graph, rank: map<nat, nat>, start: nat)
    requires Acyclic(g, rank) && start in g
    requires forall x :: x in g ==> Reachable(g, start, x)
    ensures NewForm(g, rank, start) == Form(start, g)
  {
    var q := NewForm(g, rank, start).questions;
    assert q.Keys == g.Keys;
  }

  /** A fresh session on a new form sits on the start question, has no
      answers, has not ended, and reports nothing. */
  lemma NewFillingAtStart(g: Graph, rank: map<nat, nat>, start: nat)
    requires Acyclic(g, rank) && start in g
    ensures var f := NewFilling(NewForm(g, rank, start));
      && Valid(f)
      && FindQuestion(f.form, f.current) == Success(g[start])
      && !Ended(f)
      && Summary(f) == Success([])
  {
  }

  /** Answering ends the form exactly when the connector yields the exit. */
  lemma AnswerEndsExactlyOnExit(f: Filling, v: Value)
    requires f.current.Some? && f.current.value in f.form.questions
    ensures Ended(Answer(f, v).filling) <==>
      Call(f.form.questions[f.current.value].connector, v) == Success(None)
  {
  }

  /** A first answer to a question goes last in the report order; answering a
      question again overwrites its value where it already stands. */
  lemma AnswerOrder(f: Filling, v: Value)
    requires f.current.Some? && f.current.value in f.form.questions
    ensures var id := f.current.value;
      var after := Answer(f, v).filling.answers;
      && (id in Keys(f.answers) ==> Keys(after) == Keys(f.answers))
      && (id !in Keys(f.answers) ==> Keys(after) == Keys(f.answers) + [id])
  {
    StoreKeys(f.answers, f.current.value, v);
  }

  /** Rolling back removes the current question's entry and nothing else:
      the answers before and after it keep their order. */
  lemma RollbackRemovesOnlyCurrent(f: Filling, pre: Entries<nat, Value>, v: Value, post: Entries<nat, Value>)
    requires Valid(f) && f.current.Some?
    requires f.answers == pre + [(f.current.value, v)] + post
    ensures Rollback(f).filling.answers == pre + post
  {
    DeleteEntry(pre, (f.current.value, v), post);
  }

  /** Rolling back a session whose current question was never answered
      (a fresh branch, or the end of the form) keeps every answer and moves
      back to the most recently answered question. */
  lemma RollbackToLastAnswered(f: Filling)
    requires Valid(f) && f.answers != []
    requires f.current.None? || f.current.value !in Keys(f.answers)
    ensures Rollback(f) == Step(Filling(f.form, f.answers, Some(f.answers[|f.answers| - 1].0)), None)
  {
    if f.current.Some? {
      DeleteAbsent(f.answers, f.current.value);
    }
  }

  /** Answering a question for the first time and rolling back returns the
      cursor to that question; unlike an undo, its answer stays recorded. */
  lemma AnswerThenRollback(f: Filling, v: Value)
    requires Valid(f) && f.current.Some? && f.current.value !in Keys(f.answers)
    requires Answer(f, v).raised.None?
    requires var next := Answer(f, v).filling;
      next.current.None? || next.current.value !in Keys(next.answers)
    ensures var back := Rollback(Answer(f, v).filling);
      && back.raised.None?
      && back.filling.current == f.current
      && Get(back.filling.answers, f.current.value) == Some(v)
      && Keys(back.filling.answers) == Keys(f.answers) + [f.current.value]
  {
    var next := Answer(f, v).filling;
    AnswerKeepsValid(f, v);
    StoreKeys(f.answers, f.current.value, v);
    assert Keys(next.answers)[|next.answers| - 1] == f.current.value;
    RollbackToLastAnswered(next);
  }

  /** A valid session always reports: one (label, answer) line per answered
      question, in first-insertion order. */
  lemma SummaryOfValid(f: Filling)
    requires Valid(f)
    ensures Summary(f).Success?
    ensures var lines := Summary(f).value;
      && |lines| == |f.answers|
      && forall i :: 0 <= i < |f.answers| ==>
           lines[i] == (f.form.questions[f.answers[i].0].text, f.answers[i].1)
  {
    forall i | 0 <= i < |f.answers| ensures f.answers[i].0 in f.form.questions {
      assert Keys(f.answers)[i] == f.answers[i].0;
    }
  }
}
