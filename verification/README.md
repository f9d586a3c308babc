# DrumfireLob questionnaire engine, modelled in Dafny

DrumfireLob is a branching questionnaire. A `Question` carries a label and a
connector. The connector is either a `Branching`, an exact-match table from
answer token to the next question (or `nil` for the exit), or a
`NullConnector`, which always exits. `Form.new(start:)` collects every
question reachable from the start into a hash keyed by object identity. A
`Form::Filling` session walks that graph. It holds a cursor and an
insertion-ordered hash of answers keyed by question identity. `answer`
records a value and moves to the connector's result, `rollback` deletes the
current entry and jumps to the question of the last remaining key, and
`ended?` says whether the cursor is nil.

The model is functional:

- `wrappers.dfy`: `Option` and `Result`.
- `ordered_map.dfy` (module `OrderedMap`): a Ruby `Hash` as a sequence of
  (key, value) pairs in insertion order. It has `store`, `delete`, `fetch`
  and `keys.last`, and lemmas about key order and key uniqueness.
- `questionnaire.dfy` (module `Questionnaire`): questions, the two
  connectors, `Branching#call`, `#questions`, `#accepted_values`, the
  rejection message and `Question#follow_ups`.
- `traversal.dfy` (module `Traversal`): `Form.collect_questions` over a
  graph `map<nat, Question>`, and reachability along follow-up edges.
- `forms.dfy` (module `Forms`): `Form`, `Form::Filling`, `answer`,
  `rollback`, `ended?`, and the ordered (label, answer) report behind
  `print_out`.
- `scenarios.dfy` (module `Scenarios`): the repository's tests replayed
  as lemmas.

Further modelling choices:

- Question identity (`object_id`) is an explicit `nat` id.
- A connector names its targets by id; `None` is the exit.
- A session step returns `Step(filling, raised)`, not a plain `Result`.
  Ruby mutates the session before it raises: `answer` stores before it
  calls the connector, and `rollback` deletes before it looks up the new
  cursor. So a step that raises still has a successor state.
- `collect_questions` never consults its memo before recursing. It
  therefore terminates only on acyclic graphs, and the model requires a rank
  map that strictly decreases along every follow-up edge (`Acyclic`).

Behaviour of the code that the model keeps:

- The walk has no visited check, so on a cycle it recurses until Ruby
  raises `SystemStackError`. A question
  reached along two paths is stored twice under the same key, which leaves
  one entry.
- `follow_ups` drops exits but keeps the order and every repeat of the
  other targets (`CompactConcat`, `CompactCount`, `RepeatedFollowUp`).
- A rejected answer stays recorded; only the cursor stays put
  (`Q1RejectsMaybe`).
- `rollback` deletes the current question's entry, if any, and moves to the
  question of the last remaining key, whose answer stays recorded. Rolling
  back from the end deletes nothing (`RollbackToLastAnswered`,
  `AnswerThenRollback`, `ShortTraceRolledBackTwice`). After the short trace,
  two rollbacks return to the start question, but its answer stays
  recorded, so the answers are not emptied.
- `rollback` on an empty answer hash raises `KeyError`, from the lookup of
  nil (`RollbackFreshSession`).
- `accepted_values` puts " or " in front of the last key even when there is
  only one key (`SingleKeyMessage`).

## Model

| member | source | states |
|---|---|---|
| Traversal.Collect | drumfire_lob.rb:7-11 | the collected hash holds the memo's keys plus every id the walk visits; visited ids map to their own question and the other memo entries are kept |
| Traversal.CollectAll | drumfire_lob.rb:9 | walking a list of follow-ups in order adds exactly what the walks from each of them visit |
| Traversal.CollectIsReachable | drumfire_lob.rb:7-11 | collecting from `start` with an empty memo gives a hash that contains `start` and whose keys are exactly the ids reachable along follow-up edges, each mapped to its own question |
| Traversal.CollectIsClosed | drumfire_lob.rb:7-11 | every follow-up of a collected question is collected too |
| Traversal.ReachSound | drumfire_lob.rb:7-11 | every id the walk visits is reachable from where it started |
| Traversal.ReachComplete | drumfire_lob.rb:7-11 | the walk visits the end of every path that begins at its start |
| Traversal.ReachAllSound | drumfire_lob.rb:9 | everything visited from a list of follow-ups is reachable from one of them |
| Traversal.ReachAllCovers | drumfire_lob.rb:9 | the walk from a list visits all that the walk from any member visits |
| Traversal.ReachableStep | drumfire_lob.rb:9 | a follow-up of a reachable question is reachable |
| Traversal.FollowUpBelow | drumfire_lob.rb:7-11 | under the acyclicity rank, each follow-up is a question ranked strictly below its question |
| Questionnaire.FollowUpsAreDeclaredTargets | drumfire_lob.rb:67-69 | an id is a follow-up exactly when the connector is a branching and some branch declares it; exits and the null connector contribute nothing |
| Questionnaire.Compact | drumfire_lob.rb:68 | an id is kept exactly when some target names it, and nothing is added |
| Questionnaire.CompactConcat | drumfire_lob.rb:68 | `compact` keeps the order of the ids: compacting a concatenation concatenates the compacted parts |
| Questionnaire.CompactCount | drumfire_lob.rb:68 | `compact` keeps every repeat: each id occurs in the result as often as the targets name it |
| Questionnaire.Questions | drumfire_lob.rb:85-87 | a branching yields the declared target of each branch, in declaration order; the null connector yields none |
| Questionnaire.Call | drumfire_lob.rb:77-83 | the null connector yields the exit; a branching succeeds exactly for its keys, with a target declared for that key, and otherwise raises `ArgumentError` with the rejection message |
| Questionnaire.BranchingYieldsDeclaredTarget | drumfire_lob.rb:77-79 | for every key a branching yields exactly its declared target, which is the exit for a nil branch |
| Questionnaire.CallStaysInFollowUps | drumfire_lob.rb:67-69 | a question the connector moves to is one of its question's follow-ups |
| Questionnaire.RejectionNamesEveryKey | drumfire_lob.rb:81-91 | the rejection message contains every accepted token and ends with the rejected answer |
| Questionnaire.AcceptedValuesJoin | drumfire_lob.rb:89-91 | with two or more keys, the accepted-values text is the comma-join of the keys with its last separator replaced by " or " |
| Questionnaire.SingleKeyMessage | drumfire_lob.rb:89-91 | a one-key table gives "only  or k are accepted answers, got a" |
| Questionnaire.JoinSnoc | drumfire_lob.rb:90 | joining one more string appends the separator and that string |
| Questionnaire.JoinContains | drumfire_lob.rb:90 | every joined string occurs in the result at a known offset |
| Forms.NewForm | drumfire_lob.rb:13-16 | a form starts at `start`, indexes exactly the questions reachable from it, each under its own id, and is closed under follow-ups |
| Forms.NewFormOfConnected | drumfire_lob.rb:13-16 | when every question is reachable from the start, the form indexes the whole graph |
| Forms.FindQuestion | drumfire_lob.rb:22-24 | the lookup succeeds exactly for an indexed id and otherwise raises `KeyError` for that id, nil included |
| Forms.FindQuestionIndexesReachable | drumfire_lob.rb:13-24 | on a new form the lookup finds the start and every reachable question, and raises `KeyError` for any other id and for nil |
| Forms.NewFilling | drumfire_lob.rb:29-33 | a fresh session has the form, no answers, the cursor at the start, has not ended, and is valid on a valid form |
| Forms.NewFillingAtStart | drumfire_lob.rb:29-33 | a fresh session on a new form sits on the start question, has not ended and reports nothing |
| Forms.Answer | drumfire_lob.rb:35-40 | the answer is stored under the current question and no other entry changes; when the connector accepts the answer the cursor becomes exactly the target it yields (a follow-up or the exit) and nothing is raised; when it rejects the answer the step raises the connector's `ArgumentError` and the cursor stays; ending never raises |
| Forms.AnswerKeepsValid | drumfire_lob.rb:35-40 | answering keeps the answers keyed by distinct indexed questions and the cursor indexed |
| Forms.AnswerEndsExactlyOnExit | drumfire_lob.rb:35-49 | answering ends the session exactly when the connector yields the exit |
| Forms.AnswerOrder | drumfire_lob.rb:36 | a first answer appends its question to the key order; re-answering keeps the order |
| Forms.Rollback | drumfire_lob.rb:42-45 | the current question's entry is deleted and no other entry changes; on success the cursor is the last remaining key and indexed; on failure the cursor stays; with no answers left the step raises `KeyError` for nil |
| Forms.RollbackKeepsValid | drumfire_lob.rb:42-45 | rolling back keeps the session valid and raises exactly when no answer remains |
| Forms.RollbackRemovesOnlyCurrent | drumfire_lob.rb:43 | rolling back removes the current question's entry and keeps every other entry in its order |
| Forms.RollbackToLastAnswered | drumfire_lob.rb:43-44 | when the current question has no entry, rolling back keeps all answers and moves to the last answered question |
| Forms.AnswerThenRollback | drumfire_lob.rb:35-45 | answering a new question and rolling back returns to that question with its answer still recorded |
| Forms.Report | drumfire_lob.rb:51-56 | the report succeeds exactly when every answered id is indexed, with one (label, answer) line per entry in order; otherwise it raises `KeyError` for the first unindexed id |
| Forms.SummaryOfValid | drumfire_lob.rb:51-56 | a valid session reports one (label, answer) line per answered question, in first-insertion order |
| OrderedMap.Get | drumfire_lob.rb:79 | `fetch` finds a value exactly for a present key, and the pair is an entry of the hash |
| OrderedMap.LastKey | drumfire_lob.rb:44 | `keys.last` is nil exactly for the empty hash and otherwise the key of the last entry |
| OrderedMap.Store | drumfire_lob.rb:36 | after `store` the key maps to the new value and every other key is unchanged |
| OrderedMap.StoreKeys | drumfire_lob.rb:36 | `store` keeps the key order when the key is present and appends the key otherwise |
| OrderedMap.StoreUnique | drumfire_lob.rb:36 | `store` keeps keys distinct |
| OrderedMap.Delete | drumfire_lob.rb:43 | after `delete` the key is absent, every other key is unchanged and the hash is no larger |
| OrderedMap.DeleteUnique | drumfire_lob.rb:43 | `delete` keeps keys distinct |
| OrderedMap.DeleteEntry | drumfire_lob.rb:43 | with distinct keys, deleting a key removes exactly its entry and keeps the rest in order |
| OrderedMap.DeleteConcat | drumfire_lob.rb:43 | deleting from two concatenated hashes deletes from each |
| OrderedMap.DeleteAbsent | drumfire_lob.rb:43 | deleting an absent key changes nothing |
| OrderedMap.DeleteUndoesStore | drumfire_lob.rb:36-43 | deleting a key that a `store` has just added gives back the hash before it |
| OrderedMap.GetEntry | drumfire_lob.rb:79 | with distinct keys every entry is found by its own key |
| Scenarios.TestFormIndexesAll | drumfire_lob.rb:112-120 | the test form is acyclic and `Form.new start: question1` indexes all four questions |
| Scenarios.TestLabelsAtCursors | drumfire_lob.rb:112-120 | with the test's labels, questions 1 to 4 carry the labels the traces assert for the current question |
| Scenarios.Q1Yes | drumfire_lob.rb:126-127 | yes on question 1 moves to question 2 |
| Scenarios.Q2AnyAnswerEnds | drumfire_lob.rb:129-131 | any answer on question 2, "no" included, is recorded and ends the form |
| Scenarios.ShortReport | drumfire_lob.rb:122-139 | the short trace ends and reports question 1 yes, question 2 no |
| Scenarios.Q1No | drumfire_lob.rb:146-147 | no on question 1 moves to question 3 |
| Scenarios.Q3NoEnds | drumfire_lob.rb:149-151 | no on question 3 takes the exit |
| Scenarios.MediumReport | drumfire_lob.rb:142-159 | the medium trace ends and reports question 1 no, question 3 no |
| Scenarios.RollbackFromQ2 | drumfire_lob.rb:170-171 | rolling back from question 2 returns to question 1 and keeps its answer |
| Scenarios.Q1ReansweredNo | drumfire_lob.rb:173-174 | re-answering question 1 with no overwrites its answer in place and moves to question 3 |
| Scenarios.Q3Yes | drumfire_lob.rb:176-177 | yes on question 3 moves to question 4 |
| Scenarios.Q4Milk | drumfire_lob.rb:179-181 | milk on question 4 ends the form |
| Scenarios.LongWithRollbackReport | drumfire_lob.rb:162-191 | the long trace with a rollback reports question 1 no, question 3 yes, question 4 milk |
| Scenarios.Q1RejectsMaybe | drumfire_lob.rb:35-38 | an unaccepted answer on question 1 is recorded, the cursor stays, and the error lists "yes or no" |
| Scenarios.RollbackFreshSession | drumfire_lob.rb:42-45 | rolling back a fresh session raises `KeyError` for nil and leaves it unchanged |
| Scenarios.ShortTraceRolledBackTwice | drumfire_lob.rb:42-45 | two rollbacks after the short trace leave question 1's answer and return to question 1 |
| Scenarios.FooBarBazAccepted | drumfire_lob.rb:89-91 | the keys foo, bar, baz read "foo, bar or baz" |
| Scenarios.WrongAnswerMessage | drumfire_lob.rb:198-205 | the table foo, bar, baz rejects qux with "only foo, bar or baz are accepted answers, got qux" |
| Scenarios.BranchingToAnExit | drumfire_lob.rb:208-213 | a branch to a question yields it and a branch to nil yields the exit |
| Scenarios.RepeatedFollowUp | drumfire_lob.rb:67-69 | two branches to one question list it twice among the follow-ups, and an exit branch lists nothing |

## Left out

- `print_out` output: `puts` and `String#capitalize` are I/O and formatting. `Report` yields the ordered (label, answer) pairs that are printed.
- `ComparisonBranching`: its `call` is an empty stub that returns nil. Its test expects range matching that the code does not implement.
- The `choices:` attribute of `Question`: it is stored but never read.
- The block and `yield` plumbing of `Form#filling`: `NewFilling` returns the session the block receives. Called without a block, `filling` raises `LocalJumpError` at the `yield`; the model always has the session.
- Ruby `object_id`: ids are explicit `nat`s. A form's graph is a parameter, not a heap of objects.
- Cyclic graphs: `collect_questions` recurses on them until Ruby raises `SystemStackError`. `Collect` requires a rank that decreases along every edge.
- Traversal.Acyclic: ranks every question of the graph, not only those reachable from the start. The graph stands for the start's closed subgraph, the only part `collect_questions` looks at; questions outside it may be dropped from the graph before ranking.
- Answer values other than symbols: answers and table keys are modelled as Ruby symbols, compared by name. Other answer objects, such as the String "yes" that a `yes:` table rejects, are not represented.
- Forms.Answer: answering after the session has ended first stores the value under `nil.object_id` and then raises `NoMethodError` at `nil.connector`. The model requires a cursor, so that stray entry never arises.
- Branch targets that are not questions: `Form.new` raises `NoMethodError` at `follow_ups` when a branch names something else, such as a String, and `Form.new(start: nil)` fails the same way. A model target is a question id of the graph or the exit, and `NewForm` requires the start to be in the graph.
- Forms.Rollback: rolling back from the end deletes the entry under `nil.object_id`. No question has that id, and only an answer given after the end stores under it, which the model excludes; so the model deletes nothing.
- Other exceptions: on acyclic graphs whose branch targets are questions or nil, with symbol answers, a block given to `filling` and no answer after the end, the core raises only `ArgumentError` and `KeyError`. The cases outside these bounds are the ones listed above.
- The Minitest test classes: their traces are replayed as lemmas in `Scenarios`.
