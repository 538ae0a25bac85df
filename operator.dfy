/** The operator at the console, and the continue-or-abort gate that ends both matchers
    (correlate.py). Each prompt consumes the next answer of a script of answers; a script that
    runs out, or holds the wrong kind of answer, leaves the program waiting at the prompt. */
module Operator {
  import opened Common
  import opened Seqs

  /** One answer: an item picked from a `questionary.select` menu (by position), a
      `questionary.confirm` yes or no, or a line typed at the `prompt` with completion. */
  datatype Answer = Pick(index: nat) | Confirm(yes: bool) | Typed(text: string)

  /** How a matcher ends: with a list, by `sys.exit()`, by an exception, or waiting for an
      answer the script does not give. */
  datatype Outcome<+T> = Done(value: T) | Aborted | Failed(error: PyError) | Stalled

  /** The extra menu item offered after rough matches. */
  const NoneOfThese: string := "None of these"

  /** The word typed at the manual prompt to give up. */
  const NoneTyped: string := "None"

  /** `questionary.select(..., choices).ask()`: the chosen item's text. */
  function Choose(choices: seq<string>, answers: seq<Answer>): (r: Option<(string, seq<Answer>)>)
    ensures r.Some? <==> answers != [] && answers[0].Pick? && answers[0].index < |choices|
    ensures r.Some? ==> r.value.0 == choices[answers[0].index] && r.value.1 == answers[1..]
  {
    if answers != [] && answers[0].Pick? && answers[0].index < |choices|
    then Some((choices[answers[0].index], answers[1..]))
    else None
  }

  /** `questionary.confirm(...).ask()`. */
  function AskConfirm(answers: seq<Answer>): (r: Option<(bool, seq<Answer>)>)
    ensures r.Some? <==> answers != [] && answers[0].Confirm?
    ensures r.Some? ==> r.value == (answers[0].yes, answers[1..])
  {
    if answers != [] && answers[0].Confirm? then Some((answers[0].yes, answers[1..])) else None
  }

  /** `prompt(...)`: the typed line. */
  function TypeIn(answers: seq<Answer>): (r: Option<(string, seq<Answer>)>)
    ensures r.Some? <==> answers != [] && answers[0].Typed?
    ensures r.Some? ==> r.value == (answers[0].text, answers[1..])
  {
    if answers != [] && answers[0].Typed? then Some((answers[0].text, answers[1..])) else None
  }

  /** The end of `users` and `groups` (correlate.py:63-76 and 128-141): with unmatched
      records the operator is asked whether to continue; "no" exits, "yes" returns the records
      that are not equal to any unmatched one, in order. */
  function Gate<T(==)>(records: seq<T>, unmatched: seq<T>, answers: seq<Answer>): Outcome<seq<T>>
  {
    if unmatched == [] then Done(records)
    else match AskConfirm(answers)
      case None => Stalled
      case Some((yes, _)) => if yes then Done(Filter(x => x !in unmatched, records)) else Aborted
  }

  /** What the gate does, case by case: no unmatched records returns the input untouched; a
      "no" exits; a "yes" returns, in their order, exactly the input records that are not among
      the unmatched ones. */
  lemma GateMeaning<T>(records: seq<T>, unmatched: seq<T>, answers: seq<Answer>)
    ensures unmatched == [] ==> Gate(records, unmatched, answers) == Done(records)
    ensures Gate(records, unmatched, answers) == Aborted <==>
      unmatched != [] && answers != [] && answers[0] == Confirm(false)
    ensures Gate(records, unmatched, answers).Stalled? <==>
      unmatched != [] && (answers == [] || !answers[0].Confirm?)
    ensures unmatched != [] && answers != [] && answers[0] == Confirm(true) ==>
      Gate(records, unmatched, answers) == Done(Filter(x => x !in unmatched, records))
    ensures Gate(records, unmatched, answers).Done? ==>
      var kept := Gate(records, unmatched, answers).value;
      IsSubsequence(kept, records) && forall x :: x in kept <==> x in records && x !in unmatched
  {
    var p := x => x !in unmatched;
    FilterMembers(p, records);
    FilterIsSubsequence(p, records);
    SubsequenceReflexive(records);
  }
}
