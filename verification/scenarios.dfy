/** The traces the repository's own tests pin down, replayed on the model:
    the two-way branching form (test setup at drumfire_lob.rb:112-120) and the
    branching unit tests. */
module Scenarios {
  import opened Wrappers
  import opened OrderedMap
  import opened Questionnaire
  import opened Traversal
  import opened Forms

  /** The labels of the four test questions. The traces below hold for any
      labels; TestLabels are the test's own. */
  datatype Labels = Labels(q1: string, q2: string, q3: string, q4: string)

  const TestLabels := Labels(
    "Are you 18 or more?",
    "Fancy some Swiss mulled wine?",
    "Fancy some Swiss chocolate?",
    "Awesome! Do you prefer dark chocolate or milk chocolate?")

  /** Question 1 branches to 2 on yes and 3 on no; question 3 branches to 4
      on yes and exits on no; questions 2 and 4 keep the null connector. */
  function TestQuestions(l: Labels): (g: Graph) {
    map[
      1 := Question(l.q1, Branching([("yes", Some(2)), ("no", Some(3))])),
      2 := Question(l.q2, NullConnector),
      3 := Question(l.q3, Branching([("yes", Some(4)), ("no", None)])),
      4 := Question(l.q4, NullConnector)]
  }

  const Ranks: map<nat, nat> := map[1 := 2, 2 := 0, 3 := 1, 4 := 0]

  /** The follow-ups of the four test questions. */
  lemma TestFollowUps(l: Labels)
    ensures FollowUps(TestQuestions(l)[1]) == [2, 3]
    ensures FollowUps(TestQuestions(l)[2]) == []
    ensures FollowUps(TestQuestions(l)[3]) == [4]
    ensures FollowUps(TestQuestions(l)[4]) == []
  {
    var t1: seq<Target> := [Some(2), Some(3)];
    assert t1[1..] == [Some(3)];
    var t3: seq<Target> := [Some(4), None];
    assert t3[1..] == [None];
  }

  lemma TestFormIsAcyclic(l: Labels)
    ensures Acyclic(TestQuestions(l), Ranks)
  {
    var g := TestQuestions(l);
    forall id | id in g ensures id in Ranks && RankedAbove(g, Ranks, id) {
      TestFollowUps(l);
    }
  }

  /** Every question of the test form is reachable from question 1. */
  lemma TestQuestionsReachable(l: Labels)
    ensures forall x :: x in TestQuestions(l) ==> Reachable(TestQuestions(l), 1, x)
  {
    var g := TestQuestions(l);
    assert Reachable(g, 1, 1) by {
      var p: seq<nat> := [1];
      assert IsPath(g, p);
    }
    forall x | x in g ensures Reachable(g, 1, x) {
      TestFollowUps(l);
      if x == 2 || x == 3 {
        ReachableStep(g, 1, 1, x);
      } else if x == 4 {
        ReachableStep(g, 1, 1, 3);
        ReachableStep(g, 1, 3, 4);
      }
    }
  }

  /** `Form.new start: question1` indexes all four questions. */
  lemma TestFormIndexesAll(l: Labels)
    ensures Acyclic(TestQuestions(l), Ranks)
    ensures NewForm(TestQuestions(l), Ranks, 1) == TestForm(l)
  {
    TestFormIsAcyclic(l);
    TestQuestionsReachable(l);
    NewFormOfConnected(TestQuestions(l), Ranks, 1);
  }

  /** With the test's own labels, the questions the traces visit carry the
      labels the tests assert for the current question. */
  lemma TestLabelsAtCursors()
    ensures FindQuestion(TestForm(TestLabels), Some(1)).Success?
    ensures FindQuestion(TestForm(TestLabels), Some(1)).value.text == "Are you 18 or more?"
    ensures FindQuestion(TestForm(TestLabels), Some(2)).Success?
    ensures FindQuestion(TestForm(TestLabels), Some(2)).value.text == "Fancy some Swiss mulled wine?"
    ensures FindQuestion(TestForm(TestLabels), Some(3)).Success?
    ensures FindQuestion(TestForm(TestLabels), Some(3)).value.text == "Fancy some Swiss chocolate?"
    ensures FindQuestion(TestForm(TestLabels), Some(4)).Success?
    ensures FindQuestion(TestForm(TestLabels), Some(4)).value.text == "Awesome! Do you prefer dark chocolate or milk chocolate?"
  {
  }

  /** The test form, as `Form.new start: question1` builds it. */
  function TestForm(l: Labels): (form: Form) {
    Form(1, TestQuestions(l))
  }

  /** A session state on the test form. */
  function At(l: Labels, answers: Entries<nat, Value>, current: Option<nat>): (f: Filling) {
    Filling(TestForm(l), answers, current)
  }

  /** Reading off a report: when every answered id is indexed and the
      expected lines carry each question's label and answer in order, that is
      the summary. */
  lemma SummaryIs(f: Filling, expected: seq<(string, Value)>)
    requires |expected| == |f.answers|
    requires forall i :: 0 <= i < |f.answers| ==>
      f.answers[i].0 in f.form.questions && expected[i] == (f.form.questions[f.answers[i].0].text, f.answers[i].1)
    ensures Summary(f) == Success(expected)
  {
    var r := Report(f.form, f.answers);
    assert r.value == expected;
  }

  /** An accepted answer: the session afterwards holds the stored answers and
      sits on the connector's target. */
  lemma AnswerStep(f: Filling, v: Value, answers: Entries<nat, Value>, next: Option<nat>)
    requires f.current.Some? && f.current.value in f.form.questions
    requires Store(f.answers, f.current.value, v) == answers
    requires Call(f.form.questions[f.current.value].connector, v) == Success(next)
    ensures Answer(f, v) == Step(Filling(f.form, answers, next), None)
  {
  }

  /** Question 1 answered yes moves to question 2. */
  lemma Q1Yes(l: Labels)
    ensures Answer(At(l, [], Some(1)), "yes") == Step(At(l, [(1, "yes")], Some(2)), None)
  {
    AnswerStep(At(l, [], Some(1)), "yes", [(1, "yes")], Some(2));
  }

  /** Question 1 answered no moves to question 3. */
  lemma Q1No(l: Labels)
    ensures Answer(At(l, [], Some(1)), "no") == Step(At(l, [(1, "no")], Some(3)), None)
  {
    AnswerStep(At(l, [], Some(1)), "no", [(1, "no")], Some(3));
  }

  /** Question 2 has the null connector: any answer, "no" included, is
      recorded and ends the form. */
  lemma Q2AnyAnswerEnds(l: Labels, v: Value)
    ensures Answer(At(l, [(1, "yes")], Some(2)), v) == Step(At(l, [(1, "yes"), (2, v)], None), None)
  {
    var a: Entries<nat, Value> := [(1, "yes")];
    assert a[1..] == [];
    AnswerStep(At(l, a, Some(2)), v, [(1, "yes"), (2, v)], None);
  }

  /** Question 3 answered no takes the exit branch. */
  lemma Q3NoEnds(l: Labels)
    ensures Answer(At(l, [(1, "no")], Some(3)), "no") == Step(At(l, [(1, "no"), (3, "no")], None), None)
  {
    var a: Entries<nat, Value> := [(1, "no")];
    assert a[1..] == [];
    AnswerStep(At(l, a, Some(3)), "no", [(1, "no"), (3, "no")], None);
  }

  /** Rolling back from question 2, which has no answer yet, deletes nothing and returns to question 1 with its answer kept. */
  lemma RollbackFromQ2(l: Labels)
    ensures Rollback(At(l, [(1, "yes")], Some(2))) == Step(At(l, [(1, "yes")], Some(1)), None)
  {
    var a: Entries<nat, Value> := [(1, "yes")];
    assert a[1..] == [];
    assert Delete(a, 2) == a;
  }

  /** Answering question 1 again overwrites its answer in place. */
  lemma Q1ReansweredNo(l: Labels)
    ensures Answer(At(l, [(1, "yes")], Some(1)), "no") == Step(At(l, [(1, "no")], Some(3)), None)
  {
    var a: Entries<nat, Value> := [(1, "yes")];
    AnswerStep(At(l, a, Some(1)), "no", [(1, "no")], Some(3));
  }

  /** Question 3 answered yes moves to question 4. */
  lemma Q3Yes(l: Labels)
    ensures Answer(At(l, [(1, "no")], Some(3)), "yes") == Step(At(l, [(1, "no"), (3, "yes")], Some(4)), None)
  {
    var b: Entries<nat, Value> := [(1, "no")];
    assert b[1..] == [];
    AnswerStep(At(l, b, Some(3)), "yes", [(1, "no"), (3, "yes")], Some(4));
  }

  /** Question 4 keeps the null connector, so "milk" ends the form although its `choices:` are never consulted. */
  lemma Q4Milk(l: Labels)
    ensures Answer(At(l, [(1, "no"), (3, "yes")], Some(4)), "milk") == Step(At(l, [(1, "no"), (3, "yes"), (4, "milk")], None), None)
  {
    var c: Entries<nat, Value> := [(1, "no"), (3, "yes")];
    assert c[1..] == [(3, "yes")] && c[1..][1..] == [];
    AnswerStep(At(l, c, Some(4)), "milk", [(1, "no"), (3, "yes"), (4, "milk")], None);
  }

  /** test_2_way_branching_short ends after yes (Q1Yes), no (Q2AnyAnswerEnds) and
      reports both answers in order. */
  lemma ShortReport(l: Labels)
    ensures Ended(At(l, [(1, "yes"), (2, "no")], None))
    ensures Summary(At(l, [(1, "yes"), (2, "no")], None)) == Success([(l.q1, "yes"), (l.q2, "no")])
  {
    SummaryIs(At(l, [(1, "yes"), (2, "no")], None), [(l.q1, "yes"), (l.q2, "no")]);
  }

  /** test_2_way_branching_medium ends after no (Q1No), no (Q3NoEnds). */
  lemma MediumReport(l: Labels)
    ensures Ended(At(l, [(1, "no"), (3, "no")], None))
    ensures Summary(At(l, [(1, "no"), (3, "no")], None)) == Success([(l.q1, "no"), (l.q3, "no")])
  {
    SummaryIs(At(l, [(1, "no"), (3, "no")], None), [(l.q1, "no"), (l.q3, "no")]);
  }

  /** test_2_way_branching_long_with_rollback ends after yes (Q1Yes),
      rollback (RollbackFromQ2), no (Q1ReansweredNo), yes (Q3Yes), milk
      (Q4Milk); the report lists question 1 with "no", question 3 with "yes",
      question 4 with "milk", in that order. */
  lemma LongWithRollbackReport(l: Labels)
    ensures Ended(At(l, [(1, "no"), (3, "yes"), (4, "milk")], None))
    ensures Summary(At(l, [(1, "no"), (3, "yes"), (4, "milk")], None))
      == Success([(l.q1, "no"), (l.q3, "yes"), (l.q4, "milk")])
  {
    SummaryIs(At(l, [(1, "no"), (3, "yes"), (4, "milk")], None), [(l.q1, "no"), (l.q3, "yes"), (l.q4, "milk")]);
  }

  /** An answer question 1 does not accept is still recorded, since the store
      precedes the connector call; the cursor stays on question 1 and the
      error lists the accepted tokens. */
  lemma Q1RejectsMaybe(l: Labels)
    ensures Answer(At(l, [], Some(1)), "maybe")
      == Step(At(l, [(1, "maybe")], Some(1)),
              Some(ArgumentError("only " + "yes or no" + " are accepted answers, got " + "maybe")))
  {
    var keys: seq<Value> := ["yes", "no"];
    assert Keys(TestQuestions(l)[1].connector.branches) == keys;
    assert keys[..1] == ["yes"];
    assert AcceptedValues(keys) == "yes or no" by {
      assert "yes" + " or " + "no" == "yes or no";
    }
    assert "maybe" !in keys;
  }

  /** Rolling back a fresh session deletes nothing and then raises
      `KeyError` for the nil last key; the cursor stays on question 1. */
  lemma RollbackFreshSession(l: Labels)
    ensures Rollback(At(l, [], Some(1))) == Step(At(l, [], Some(1)), Some(KeyError(None)))
  {
  }

  /** Rolling back once per answer does not undo the short trace: the first
      rollback, from the end, deletes nothing and returns to question 2; the
      second deletes question 2's answer and returns to question 1, whose
      answer stays. */
  lemma ShortTraceRolledBackTwice(l: Labels)
    ensures Rollback(At(l, [(1, "yes"), (2, "no")], None)) == Step(At(l, [(1, "yes"), (2, "no")], Some(2)), None)
    ensures Rollback(At(l, [(1, "yes"), (2, "no")], Some(2))) == Step(At(l, [(1, "yes")], Some(1)), None)
  {
    var a: Entries<nat, Value> := [(1, "yes"), (2, "no")];
    assert a[1..] == [(2, "no")] && a[1..][1..] == [];
    assert Delete(a, 2) == [(1, "yes")];
  }

  /** The accepted tokens of the table foo, bar, baz read "foo, bar or baz". */
  lemma FooBarBazAccepted()
    ensures AcceptedValues(["foo", "bar", "baz"]) == "foo, bar or baz"
  {
    var keys: seq<Value> := ["foo", "bar", "baz"];
    assert keys[..2] == ["foo", "bar"];
    var init: seq<string> := ["foo", "bar"];
    assert init[1..] == ["bar"];
    assert Join(init, ", ") == "foo, bar";
    assert "foo, bar" + " or " + "baz" == "foo, bar or baz";
  }

  /** test_calling_with_a_wrong_answer: keys foo, bar, baz reject qux with
      "only foo, bar or baz are accepted answers, got qux". */
  lemma WrongAnswerMessage(foo: Target, bar: Target, baz: Target)
    ensures Call(Branching([("foo", foo), ("bar", bar), ("baz", baz)]), "qux")
      == Failure(ArgumentError("only " + "foo, bar or baz" + " are accepted answers, got " + "qux"))
  {
    var keys: seq<Value> := ["foo", "bar", "baz"];
    assert Keys([("foo", foo), ("bar", bar), ("baz", baz)]) == keys;
    assert "qux" !in keys;
    FooBarBazAccepted();
  }

  /** test_branching_to_an_exit: a branch to a question yields it, a branch
      to nil yields the exit. */
  lemma BranchingToAnExit(foo: nat)
    ensures Call(Branching([("foo", Some(foo)), ("bar", None)]), "foo") == Success(Some(foo))
    ensures Call(Branching([("foo", Some(foo)), ("bar", None)]), "bar") == Success(None)
  {
  }

  /** Two answers leading to the same question give it twice among the
      follow-ups, and an exit gives nothing: `follow_ups` compacts but does not
      deduplicate. */
  lemma RepeatedFollowUp(text: string, next: nat)
    ensures FollowUps(Question(text, Branching([("a", Some(next)), ("b", None), ("c", Some(next))]))) == [next, next]
  {
    var bs: Entries<Value, Target> := [("a", Some(next)), ("b", None), ("c", Some(next))];
    assert bs[1..] == [("b", None), ("c", Some(next))] && bs[1..][1..] == [("c", Some(next))];
    var ts: seq<Target> := [Some(next), None, Some(next)];
    assert Values(bs) == ts;
    assert ts[1..] == [None, Some(next)] && ts[1..][1..] == [Some(next)];
    assert Compact(ts[1..][1..]) == [next];
    assert Compact(ts[1..]) == [next];
  }
}
