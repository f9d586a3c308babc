/** Questions and connectors: the nodes of a questionnaire graph and the
    decision logic that picks the question after an answer. A question's
    identity (its Ruby `object_id`) is an explicit `nat`; a connector names
    its follow-up questions by those ids. */
module Questionnaire {
  import opened Wrappers
  import opened OrderedMap

  /** An answer token (a Ruby symbol, compared and printed by its name). */
  type Value = string

  /** What a connector yields: the id of the next question, or `None` for the
      exit of the form. */
  type Target = Option<nat>

  /** The closed set of connectors. `Branching` is an exact-match table from
      answer token to target, in declaration order. */
  datatype Connector =
    | NullConnector
    | Branching(branches: Entries<Value, Target>)

  /** A question; `text` is its Ruby `label` (a reserved word in Dafny). */
  datatype Question = Question(text: string, connector: Connector)

  /** The two exceptions the core raises: `ArgumentError` for an answer a
      branching does not accept, `KeyError` for an id a form never collected
      (`key` is `None` when the id looked up is nil). */
  datatype Error =
    | ArgumentError(message: string)
    | KeyError(key: Option<nat>)

  /** Ruby `Array#join`. */
  function Join(xs: seq<string>, sep: string): (s: string)
    ensures xs == [] ==> s == ""
    ensures |xs| == 1 ==> s == xs[0]
  {
    if xs == [] then ""
    else if |xs| == 1 then xs[0]
    else xs[0] + sep + Join(xs[1..], sep)
  }

  /** The accepted tokens as "a, b or c": every key but the last joined with
      commas, then " or ", then the last key. As in Ruby's `accepted_values`, an empty or
      one-key table still gets the " or " (see SingleKeyMessage). */
  function AcceptedValues(keys: seq<Value>): (s: string)
  {
    var init := if keys == [] then [] else keys[..|keys| - 1];
    var last := if keys == [] then "" else keys[|keys| - 1];
    Join(init, ", ") + " or " + last
  }

  /** The message of the `ArgumentError` for an unaccepted answer. */
  function RejectionMessage(keys: seq<Value>, answer: Value): (m: string)
  {
    "only " + AcceptedValues(keys) + " are accepted answers, got " + answer
  }

  /** `connector.(answer)`: the null connector always exits; a branching
      yields the target its table maps the answer to and raises for any token
      that is not a key of the table. */
  function Call(c: Connector, answer: Value): (r: Result<Target, Error>)
    ensures c.NullConnector? ==> r == Success(None)
    ensures c.Branching? ==> (r.Success? <==> answer in Keys(c.branches))
    ensures c.Branching? && r.Success? ==> (answer, r.value) in c.branches
    ensures r.Failure? ==>
      r.error == ArgumentError(RejectionMessage(Keys(c.branches), answer))
  {
    match c
    case NullConnector => Success(None)
    case Branching(bs) =>
      match Get(bs, answer)
      case Some(t) => Success(t)
      case None => Failure(ArgumentError(RejectionMessage(Keys(bs), answer)))
  }

  /** `connector.questions`: every target a branching declares, exits
      included, in declaration order; nothing for the null connector. */
  function Questions(c: Connector): (ts: seq<Target>)
    ensures c.NullConnector? ==> ts == []
    ensures c.Branching? ==> |ts| == |c.branches| && forall i :: 0 <= i < |ts| ==> ts[i] == c.branches[i].1
  {
    match c
    case NullConnector => []
    case Branching(bs) => Values(bs)
  }

  /** Ruby `Array#compact`: the present ids in order, nils dropped. */
  function Compact(ts: seq<Target>): (ids: seq<nat>)
    ensures forall id {:trigger id in ids} :: id in ids <==> Some(id) in ts
    ensures |ids| <= |ts|
  {
    if ts == [] then []
    else
      var rest := Compact(ts[1..]);
      assert ts == [ts[0]] + ts[1..];
      match ts[0]
      case Some(id) => [id] + rest
      case None => rest
  }

  /** `Question#follow_ups`: the ids of the questions that can come after
      `q`; an exit branch contributes nothing. */
  function FollowUps(q: Question): (ids: seq<nat>)
  {
    Compact(Questions(q.connector))
  }

  /** `compact` keeps the order of the ids: compacting a concatenation
      concatenates the compacted parts. */
  lemma {:induction false} CompactConcat(a: seq<Target>, b: seq<Target>)
    ensures Compact(a + b) == Compact(a) + Compact(b)
  {
    if a != [] {
      assert (a + b)[0] == a[0] && (a + b)[1..] == a[1..] + b;
      CompactConcat(a[1..], b);
    } else {
      assert a + b == b;
    }
  }

  /** `compact` keeps every repeat: each id occurs in the result as often as
      it is named among the targets. */
  lemma {:induction false} CompactCount(ts: seq<Target>, id: nat)
    ensures multiset(Compact(ts))[id] == multiset(ts)[Some(id)]
  {
    if ts != [] {
      var rest := ts[1..];
      CompactCount(rest, id);
      assert multiset(ts) == multiset([ts[0]]) + multiset(rest) by {
        assert ts == [ts[0]] + rest;
      }
      match ts[0]
      case None =>
        assert Compact(ts) == Compact(rest);
      case Some(x) =>
        assert Compact(ts) == [x] + Compact(rest);
        assert multiset(Compact(ts)) == multiset([x]) + multiset(Compact(rest));
    }
  }

  /** Joining one more element appends one separator and the element. */
  lemma {:induction false} JoinSnoc(xs: seq<string>, x: string, sep: string)
    requires xs != []
    ensures Join(xs + [x], sep) == Join(xs, sep) + sep + x
  {
    if |xs| > 1 {
      assert (xs + [x])[1..] == xs[1..] + [x];
      JoinSnoc(xs[1..], x, sep);
    }
  }

  /** Every element occurs in the joined string, at offset `off`. */
  lemma {:induction false} JoinContains(xs: seq<string>, sep: string, k: nat) returns (off: nat)
    requires k < |xs|
    ensures off + |xs[k]| <= |Join(xs, sep)|
    ensures Join(xs, sep)[off..off + |xs[k]|] == xs[k]
  {
    if k == 0 {
      off := 0;
      if |xs| > 1 {
        assert Join(xs, sep) == xs[0] + (sep + Join(xs[1..], sep));
      }
    } else {
      var inner := JoinContains(xs[1..], sep, k - 1);
      var rest := Join(xs[1..], sep);
      var prefix := xs[0] + sep;
      assert Join(xs, sep) == prefix + rest;
      off := |prefix| + inner;
      assert (prefix + rest)[off..off + |xs[k]|] == rest[inner..inner + |xs[k]|];
    }
  }

  /** With two or more keys, the accepted-values list is the comma-join of the
      keys with only its last separator turned into " or ". */
  lemma AcceptedValuesJoin(keys: seq<Value>)
    requires |keys| >= 2
    ensures exists head ::
      && AcceptedValues(keys) == head + " or " + keys[|keys| - 1]
      && Join(keys, ", ") == head + ", " + keys[|keys| - 1]
  {
    var init := keys[..|keys| - 1];
    assert keys == init + [keys[|keys| - 1]];
    JoinSnoc(init, keys[|keys| - 1], ", ");
    var head := Join(init, ", ");
    assert AcceptedValues(keys) == head + " or " + keys[|keys| - 1];
  }

  /** A rejection message ends with the rejected answer. */
  lemma RejectionEndsWithAnswer(keys: seq<Value>, answer: Value)
    ensures var m := RejectionMessage(keys, answer);
      |answer| <= |m| && m[|m| - |answer|..] == answer
  {
    var m := RejectionMessage(keys, answer);
    assert m == ("only " + AcceptedValues(keys) + " are accepted answers, got ") + answer;
  }

  /** A key before the last occurs inside the comma-joined part. */
  lemma RejectionNamesInitKey(keys: seq<Value>, answer: Value, i: nat) returns (off: nat)
    requires i < |keys| - 1
    ensures var m := RejectionMessage(keys, answer);
      off + |keys[i]| <= |m| && m[off..off + |keys[i]|] == keys[i]
  {
    var init := keys[..|keys| - 1];
    var joined := Join(init, ", ");
    var rest := " or " + keys[|keys| - 1] + " are accepted answers, got " + answer;
    assert RejectionMessage(keys, answer) == "only " + joined + rest;
    assert init[i] == keys[i];
    var inner := JoinContains(init, ", ", i);
    off := 5 + inner;
    SliceMiddle("only ", joined, rest, inner, inner + |keys[i]|);
  }

  /** A slice of the middle part of a concatenation. */
  lemma SliceMiddle<T>(a: seq<T>, b: seq<T>, c: seq<T>, lo: nat, hi: nat)
    requires lo <= hi <= |b|
    ensures (a + b + c)[|a| + lo..|a| + hi] == b[lo..hi]
  {
    assert forall k :: 0 <= k < hi - lo ==> (a + b + c)[|a| + lo..|a| + hi][k] == b[lo..hi][k];
  }

  /** The last key follows the " or ". */
  lemma RejectionNamesLastKey(keys: seq<Value>, answer: Value) returns (off: nat)
    requires keys != []
    ensures var m := RejectionMessage(keys, answer);
      off + |keys[|keys| - 1]| <= |m| && m[off..off + |keys[|keys| - 1]|] == keys[|keys| - 1]
  {
    var joined := Join(keys[..|keys| - 1], ", ");
    var m := RejectionMessage(keys, answer);
    off := 5 + |joined| + 4;
    assert m == ("only " + joined + " or ") + keys[|keys| - 1] + (" are accepted answers, got " + answer);
  }

  /** The message of a rejection names every accepted token and ends with the
      rejected answer. */
  lemma RejectionNamesEveryKey(keys: seq<Value>, answer: Value, i: nat) returns (off: nat)
    requires i < |keys|
    ensures var m := RejectionMessage(keys, answer);
      && off + |keys[i]| <= |m|
      && m[off..off + |keys[i]|] == keys[i]
      && m[|m| - |answer|..] == answer
  {
    RejectionEndsWithAnswer(keys, answer);
    if i < |keys| - 1 {
      off := RejectionNamesInitKey(keys, answer, i);
    } else {
      off := RejectionNamesLastKey(keys, answer);
    }
  }

  /** A one-key table, as written, produces "only  or a": the " or " is not
      dropped when there is nothing before it. */
  lemma SingleKeyMessage(k: Value, answer: Value)
    ensures RejectionMessage([k], answer) == "only  or " + k + " are accepted answers, got " + answer
  {
  }

  /** A branching yields, for each of its keys, exactly the target declared
      for it; an exit branch yields `None`. */
  lemma BranchingYieldsDeclaredTarget(bs: Entries<Value, Target>, i: nat)
    requires UniqueKeys(bs) && i < |bs|
    ensures Call(Branching(bs), bs[i].0) == Success(bs[i].1)
  {
    GetEntry(bs, i);
  }

  /** Whatever question a connector moves to is one of its question's
      follow-ups, so an exit never names a question. */
  lemma CallStaysInFollowUps(q: Question, answer: Value, t: nat)
    requires Call(q.connector, answer) == Success(Some(t))
    ensures t in FollowUps(q)
  {
    var bs := q.connector.branches;
    var i :| 0 <= i < |bs| && bs[i] == (answer, Some(t));
    assert Values(bs)[i] == Some(t);
  }

  /** A follow-up is exactly a non-exit target some branch declares. */
  lemma FollowUpsAreDeclaredTargets(q: Question, t: nat)
    ensures t in FollowUps(q) <==>
      q.connector.Branching? && exists i :: 0 <= i < |q.connector.branches| && q.connector.branches[i].1 == Some(t)
  {
    if q.connector.Branching? {
      var bs := q.connector.branches;
      if t in FollowUps(q) {
        var i :| 0 <= i < |bs| && Values(bs)[i] == Some(t);
      }
      if i :| 0 <= i < |bs| && bs[i].1 == Some(t) {
        assert Values(bs)[i] == Some(t);
      }
    }
  }
}
