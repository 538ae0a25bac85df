/** The bookkeeping `users` and `groups` share (correlate.py:26-76 and 83-141): records are
    decided one at a time, in place, and an unmatched record is appended to the unmatched list
    once or more; the first exception, or a prompt left unanswered, stops the loop. */
module Correlation {
  import opened Common
  import opened Seqs
  import opened Records
  import opened Operator

  /** The effect of deciding one record: its new contents, how many times it was appended to
      the unmatched list, and the answers left; or the exception raised; or a wait. */
  datatype Step =
    | Decided(rec: Correlated, marks: nat, rest: seq<Answer>)
    | Raised(error: PyError)
    | Waiting

  /** `record.extend(items)`: the account fields stay, the items are appended. */
  function Extend(r: Correlated, items: seq<string>): Correlated
  {
    r.(ext := r.ext + items)
  }

  datatype Halt = HaltRaised(error: PyError) | HaltWaiting

  /** The state after a number of records: all records (the undecided ones as they were), the
      positions appended to the unmatched list, the answers left, and why the loop stopped. */
  datatype Pass = Pass(recs: seq<Correlated>, unmatched: seq<nat>, rest: seq<Answer>, halted: Option<Halt>)

  /** Unmatched positions point at records already decided. */
  predicate Bounded(p: Pass, i: nat)
  {
    i <= |p.recs| && forall k :: 0 <= k < |p.unmatched| ==> p.unmatched[k] < i
  }

  /** Applying the decision about record `i`. */
  function Advance(p: Pass, i: nat, s: Step): (q: Pass)
    requires p.halted.None? && Bounded(p, i) && i < |p.recs|
    ensures |q.recs| == |p.recs| && Bounded(q, i + 1)
    ensures q.recs[i + 1..] == p.recs[i + 1..] && q.recs[..i] == p.recs[..i]
    ensures s.Decided? ==> q.recs[i] == s.rec && q.halted.None?
    ensures !s.Decided? ==> q.recs == p.recs && q.halted.Some?
  {
    match s
    case Decided(rec, marks, rest) =>
      Pass(p.recs[i := rec], p.unmatched + seq(marks, _ => i), rest, None)
    case Raised(e) => p.(halted := Some(HaltRaised(e)))
    case Waiting => p.(halted := Some(HaltWaiting))
  }

  /** The records the unmatched list holds, with their contents at the end of the loop (the
      list holds references, so a record extended after it was appended is seen extended). */
  function UnmatchedRecords(p: Pass): (us: seq<Correlated>)
    requires Bounded(p, |p.recs|)
    ensures |us| == |p.unmatched|
  {
    seq(|p.unmatched|, k requires 0 <= k < |p.unmatched| => p.recs[p.unmatched[k]])
  }

  /** How the matcher ends after its loop. */
  function Finish(p: Pass): Outcome<seq<Correlated>>
    requires Bounded(p, |p.recs|)
  {
    match p.halted
    case Some(HaltRaised(e)) => Failed(e)
    case Some(HaltWaiting) => Stalled
    case None => Gate(p.recs, UnmatchedRecords(p), p.rest)
  }

  /** A record that went into the unmatched list is never part of the returned list. */
  lemma FinishExcludesUnmatched(p: Pass, k: nat)
    requires Bounded(p, |p.recs|) && k < |p.unmatched|
    ensures Finish(p).Done? ==> p.recs[p.unmatched[k]] !in Finish(p).value
    ensures Finish(p).Done? ==> IsSubsequence(Finish(p).value, p.recs)
  {
    var us := UnmatchedRecords(p);
    assert us[k] == p.recs[p.unmatched[k]];
    GateMeaning(p.recs, us, p.rest);
  }

  /** The loop over the first `i` records, deciding each with `decide` until one raises or
      waits. */
  function Run(decide: (Correlated, seq<Answer>) -> Step, rs: seq<Correlated>, i: nat, answers: seq<Answer>): (p: Pass)
    requires i <= |rs|
    ensures |p.recs| == |rs| && Bounded(p, i) && p.recs[i..] == rs[i..]
  {
    if i == 0 then Pass(rs, [], answers, None)
    else
      var p := Run(decide, rs, i - 1, answers);
      if p.halted.Some? then p
      else Advance(p, i - 1, decide(rs[i - 1], p.rest))
  }

  /** Once the loop has stopped, later records change nothing. */
  lemma {:induction false} RunStays(decide: (Correlated, seq<Answer>) -> Step, rs: seq<Correlated>, i: nat, j: nat, answers: seq<Answer>)
    requires i <= j <= |rs| && Run(decide, rs, i, answers).halted.Some?
    ensures Run(decide, rs, j, answers) == Run(decide, rs, i, answers)
    decreases j - i
  {
    if i < j {
      RunHalted(decide, rs, i + 1, answers);
      RunStays(decide, rs, i + 1, j, answers);
    }
  }

  /** One more record while the loop runs applies its decision. */
  lemma RunNext(decide: (Correlated, seq<Answer>) -> Step, rs: seq<Correlated>, i: nat, answers: seq<Answer>)
    requires i < |rs| && Run(decide, rs, i, answers).halted.None?
    ensures Run(decide, rs, i, answers).recs[i] == rs[i]
    ensures Run(decide, rs, i + 1, answers)
      == Advance(Run(decide, rs, i, answers), i, decide(rs[i], Run(decide, rs, i, answers).rest))
  {
    var p := Run(decide, rs, i, answers);
    assert p.recs[i] == p.recs[i..][0] == rs[i..][0];
  }

  /** One more record after the loop has stopped changes nothing. */
  lemma RunHalted(decide: (Correlated, seq<Answer>) -> Step, rs: seq<Correlated>, j: nat, answers: seq<Answer>)
    requires 0 < j <= |rs| && Run(decide, rs, j - 1, answers).halted.Some?
    ensures Run(decide, rs, j, answers) == Run(decide, rs, j - 1, answers)
  {
  }

  /** The record keeps its account and every item it had. */
  predicate Grows(r: Correlated, rec: Correlated)
  {
    rec.account == r.account && r.ext <= rec.ext
  }

  lemma GrowsTransitive(a: Correlated, b: Correlated, c: Correlated)
    requires Grows(a, b) && Grows(b, c)
    ensures Grows(a, c)
  {
    assert a.ext == b.ext[..|a.ext|] == c.ext[..|b.ext|][..|a.ext|] == c.ext[..|a.ext|];
  }

  /** When every decision only appends, so does the whole loop. */
  lemma {:induction false} RunGrows(decide: (Correlated, seq<Answer>) -> Step, rs: seq<Correlated>, i: nat, answers: seq<Answer>)
    requires i <= |rs|
    requires forall r, a :: decide(r, a).Decided? ==> Grows(r, decide(r, a).rec)
    ensures forall k :: 0 <= k < |rs| ==> Grows(rs[k], Run(decide, rs, i, answers).recs[k])
  {
    if i > 0 {
      RunGrows(decide, rs, i - 1, answers);
    }
  }

  /** The records at the unmatched positions are as they came in. */
  predicate Unchanged(p: Pass, rs: seq<Correlated>)
  {
    forall k :: 0 <= k < |p.unmatched| ==>
      (p.unmatched[k] < |p.recs| && p.unmatched[k] < |rs| && p.recs[p.unmatched[k]] == rs[p.unmatched[k]])
  }

  /** When an unmatched decision never touches the record, the unmatched records are the
      records as they came in. */
  lemma {:induction false} RunUnmatchedUnchanged(decide: (Correlated, seq<Answer>) -> Step, rs: seq<Correlated>, i: nat, answers: seq<Answer>)
    requires i <= |rs|
    requires forall r, a :: decide(r, a).Decided? && decide(r, a).marks > 0 ==> decide(r, a).rec == r
    ensures Unchanged(Run(decide, rs, i, answers), rs)
  {
    if i > 0 {
      RunUnmatchedUnchanged(decide, rs, i - 1, answers);
      var p := Run(decide, rs, i - 1, answers);
      assert Unchanged(p, rs);
      if p.halted.None? {
        assert p.recs[i - 1] == rs[i - 1];
        var s := decide(rs[i - 1], p.rest);
        if s.Decided? {
          var q := Advance(p, i - 1, s);
          assert q.unmatched == p.unmatched + seq(s.marks, _ => i - 1);
          forall k | 0 <= k < |q.unmatched| ensures q.recs[q.unmatched[k]] == rs[q.unmatched[k]] {
            if k < |p.unmatched| {
              var at := p.unmatched[k];
              assert q.unmatched[k] == at && at < i - 1;
              assert q.recs[at] == q.recs[..i - 1][at] == p.recs[..i - 1][at];
              assert p.recs[at] == rs[at];
            } else {
              assert q.unmatched[k] == i - 1;
              assert s.marks > 0;
              assert s.rec == rs[i - 1];
              assert q.recs[i - 1] == s.rec;
            }
          }
          assert Run(decide, rs, i, answers) == q;
        }
      }
    }
  }
}
