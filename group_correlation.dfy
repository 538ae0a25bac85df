/** correlate.py `groups`: every domain's group map is turned round from SID-to-name into
    name-to-SID, then each source group is matched to a target-domain group by name (equal,
    equal with a common suffix, containing, sharing a word, or typed by the operator);
    unmatched groups are reported and the operator decides whether to go on without them. */
module GroupCorrelation {
  import opened Common
  import opened Strings
  import opened Seqs
  import opened Dicts
  import opened Records
  import opened Operator
  import opened Correlation

  /** Each domain's map with keys and values exchanged. */
  function InvertedAll(domains: Dict<string, Dict<string, string>>): (r: Dict<string, Dict<string, string>>)
    ensures |r| == |domains|
    ensures forall k :: 0 <= k < |domains| ==> r[k] == (domains[k].0, Invert(domains[k].1))
  {
    seq(|domains|, k requires 0 <= k < |domains| => (domains[k].0, Invert(domains[k].1)))
  }

  /** After the inversion every domain is still there, and a group name is a key of a domain's
      map exactly when it was a value before, mapped to the last SID that carried it. */
  lemma InvertedAllMeaning(domains: Dict<string, Dict<string, string>>, domain: string, name: string)
    ensures Keys(InvertedAll(domains)) == Keys(domains)
    ensures Get(InvertedAll(domains), domain).Some? <==> Get(domains, domain).Some?
    ensures Get(domains, domain).Some? ==>
      var before := Get(domains, domain).value;
      var after := Get(InvertedAll(domains), domain).value;
      after == Invert(before) && DistinctKeys(after)
      && (name in Keys(after) <==> name in Values(before))
      && Get(after, name) == LastKeyOf(before, name)
  {
    var inv := InvertedAll(domains);
    assert Keys(inv) == Keys(domains);
    if Get(domains, domain).Some? {
      IndexOfSameKeys(inv, domains, domain);
      InvertMeaning(Get(domains, domain).value, name);
    }
  }

  /** `domain_groups`, held by the caller and rewritten in place by `groups`: domain to
      (SID to group name), a name-to-SID map after the inversion. */
  class GroupCatalog {
    var domains: Dict<string, Dict<string, string>>

    constructor (domains: Dict<string, Dict<string, string>>)
      ensures this.domains == domains
    {
      this.domains := domains;
    }

    /** correlate.py:79-80: each domain's map is replaced by its inversion, in place and in
        the same order. */
    method InvertAll()
      modifies this
      ensures domains == InvertedAll(old(domains))
    {
      for k := 0 to |domains|
        invariant |domains| == |old(domains)|
        invariant forall j :: 0 <= j < k ==> domains[j] == (old(domains)[j].0, Invert(old(domains)[j].1))
        invariant forall j :: k <= j < |domains| ==> domains[j] == old(domains)[j]
      {
        domains := domains[k := (domains[k].0, Invert(domains[k].1))];
      }
    }
  }

  /** The first target group name at or after `from` that equals the source name with the
      suffix, or the source name itself (correlate.py:86-87). */
  function ExactFrom(name: string, suffix: string, names: seq<string>, from: nat): (r: Option<nat>)
    requires from <= |names|
    ensures r.Some? ==> from <= r.value < |names| && (names[r.value] == name + suffix || names[r.value] == name)
    ensures forall j :: from <= j < |names| && (r.None? || j < r.value) ==> names[j] != name + suffix && names[j] != name
    decreases |names| - from
  {
    if from == |names| then None
    else if names[from] == name + suffix || names[from] == name then Some(from)
    else ExactFrom(name, suffix, names, from + 1)
  }

  /** Some word of `candidate` is a word of `name` (correlate.py:100). */
  predicate SharesWord(candidate: string, name: string)
  {
    exists i :: 0 <= i < |Words(candidate)| && Words(candidate)[i] in Words(name)
  }

  /** The target names containing the source name (correlate.py:95-97). */
  function Containing(name: string, names: seq<string>): seq<string>
  {
    Filter(j => Contains(j, name), names)
  }

  /** The target names sharing a word with the source name (correlate.py:99-101). */
  function Sharing(name: string, names: seq<string>): seq<string>
  {
    Filter(j => SharesWord(j, name), names)
  }

  /** The rough candidates (correlate.py:94-101): the target names containing the source name;
      if there are none, the target names sharing a word with it. */
  function GroupCandidates(name: string, names: seq<string>): seq<string>
  {
    var containing := Containing(name, names);
    if containing != [] then containing else Sharing(name, names)
  }

  /** Containment wins: word overlap counts only when no target name contains the source
      name; every candidate is a target name, in catalog order. */
  lemma GroupCandidatesMeaning(name: string, names: seq<string>, x: string)
    ensures IsSubsequence(GroupCandidates(name, names), names)
    ensures x in GroupCandidates(name, names) <==>
      x in names && if exists j :: 0 <= j < |names| && Contains(names[j], name) then Contains(x, name) else SharesWord(x, name)
  {
    ContainingMeaning(name, names);
    if exists j :: 0 <= j < |names| && Contains(names[j], name) {
      assert GroupCandidates(name, names) == Containing(name, names);
      FilterIsSubsequence(j => Contains(j, name), names);
    } else {
      assert GroupCandidates(name, names) == Sharing(name, names);
      SharingMeaning(name, names);
    }
  }

  /** The containing names are a subsequence of the names; the list is empty exactly when no
      name contains the source name, and holds exactly the names that do. */
  lemma ContainingMeaning(name: string, names: seq<string>)
    ensures Containing(name, names) == [] <==> forall j :: 0 <= j < |names| ==> !Contains(names[j], name)
    ensures forall y :: y in Containing(name, names) <==> y in names && Contains(y, name)
  {
    FilterMembers(j => Contains(j, name), names);
    if exists j :: 0 <= j < |names| && Contains(names[j], name) {
      var j :| 0 <= j < |names| && Contains(names[j], name);
      assert names[j] in Containing(name, names);
    }
    if Containing(name, names) != [] {
      var y := Containing(name, names)[0];
      assert y in names && Contains(y, name);
    }
  }

  /** The names sharing a word are a subsequence of the names, and hold exactly those that do. */
  lemma SharingMeaning(name: string, names: seq<string>)
    ensures IsSubsequence(Sharing(name, names), names)
    ensures forall y :: y in Sharing(name, names) <==> y in names && SharesWord(y, name)
  {
    FilterMembers(j => SharesWord(j, name), names);
    FilterIsSubsequence(j => SharesWord(j, name), names);
  }

  /** The manual step (correlate.py:114-125), entered with the number of times the record is
      already in the unmatched list. */
  function ManualGroup(r: Correlated, groups: Dict<string, string>, marks: nat, answers: seq<Answer>): Step
  {
    match AskConfirm(answers)
    case None => Waiting
    case Some((yes, rest)) =>
      if !yes then Decided(r, marks + 1, rest)
      else match TypeIn(rest)
        case None => Waiting
        case Some((typed, rest')) =>
          if typed == NoneTyped then Decided(r, marks + 1, rest')
          else match Get(groups, typed)
            case None => Raised(KeyError)
            case Some(sid) => Decided(Extend(r, [typed, sid]), marks, rest')
  }

  /** The rough menu and what follows it (correlate.py:104-125). "None of these" appends the
      record to the unmatched list, and the flag that leads to the manual step stays set. */
  function RoughGroup(r: Correlated, groups: Dict<string, string>, candidates: seq<string>, answers: seq<Answer>): Step
    requires forall k :: 0 <= k < |candidates| ==> candidates[k] in Keys(groups)
  {
    if candidates == [] then ManualGroup(r, groups, 0, answers)
    else match Choose(candidates + [NoneOfThese], answers)
      case None => Waiting
      case Some((selected, rest)) =>
        if selected == NoneOfThese then ManualGroup(r, groups, 1, rest)
        else
          assert selected in candidates;
          Decided(Extend(r, [selected, Get(groups, selected).value]), 0, rest)
  }

  /** The decision about one group record (correlate.py:84-125); `groups` is the target
      domain's name-to-SID map. */
  function DecideGroup(r: Correlated, groups: Dict<string, string>, suffix: string, answers: seq<Answer>): Step
  {
    var name := r.account.name;
    var names := Keys(groups);
    match ExactFrom(name, suffix, names, 0)
    case Some(k) => Decided(Extend(r, [names[k], Get(groups, names[k]).value]), 0, answers)
    case None =>
      var candidates := GroupCandidates(name, names);
      assert forall k :: 0 <= k < |candidates| ==> candidates[k] in names by {
        forall k | 0 <= k < |candidates| ensures candidates[k] in names {
          GroupCandidatesMeaning(name, names, candidates[k]);
        }
      }
      RoughGroup(r, groups, candidates, answers)
  }

  /** The record gained one `[name, sid]` pair of the target map. */
  predicate GainedGroup(r: Correlated, rec: Correlated, groups: Dict<string, string>)
  {
    rec.account == r.account && |rec.ext| == |r.ext| + 2 && rec.ext[..|r.ext|] == r.ext
    && Get(groups, rec.ext[|r.ext|]) == Some(rec.ext[|r.ext| + 1])
  }

  /** A name equal to the source name, with or without the suffix, is taken without asking:
      the first such name in the target map, with its SID. */
  lemma GroupExactTier(r: Correlated, groups: Dict<string, string>, suffix: string, answers: seq<Answer>)
    requires exists k :: 0 <= k < |groups| && (groups[k].0 == r.account.name + suffix || groups[k].0 == r.account.name)
    ensures var s := DecideGroup(r, groups, suffix, answers);
      s.Decided? && s.marks == 0 && s.rest == answers && GainedGroup(r, s.rec, groups)
      && (exists k :: 0 <= k < |groups| && (groups[k].0 == r.account.name + suffix || groups[k].0 == r.account.name)
            && (forall j :: 0 <= j < k ==> groups[j].0 != r.account.name + suffix && groups[j].0 != r.account.name)
            && s.rec.ext == r.ext + [groups[k].0, Get(groups, groups[k].0).value])
  {
    var name, names := r.account.name, Keys(groups);
    var k0 :| 0 <= k0 < |groups| && (groups[k0].0 == name + suffix || groups[k0].0 == name);
    assert names[k0] == groups[k0].0;
    var k := ExactFrom(name, suffix, names, 0).value;
    assert names[k] == groups[k].0;
    var s := DecideGroup(r, groups, suffix, answers);
    assert s == Decided(Extend(r, [names[k], Get(groups, names[k]).value]), 0, answers);
    ExtendGains(r, groups, names[k]);
    forall j | 0 <= j < k ensures groups[j].0 != name + suffix && groups[j].0 != name {
      assert names[j] == groups[j].0;
    }
  }

  /** What a decision does to a group record: the account never changes; the record is either
      left as it was or gains exactly one `[name, sid]` pair of the target map; it goes into
      the unmatched list at most twice, never when it gained a pair without "None of these",
      and twice only when it gained nothing. Only a typed name that is no group raises, with
      KeyError. */
  lemma GroupDecisionShape(r: Correlated, groups: Dict<string, string>, suffix: string, answers: seq<Answer>)
    ensures var s := DecideGroup(r, groups, suffix, answers);
      (s.Decided? ==> (s.marks <= 2 && (s.rec == r || GainedGroup(r, s.rec, groups))
        && (s.marks == 0 ==> GainedGroup(r, s.rec, groups))
        && (s.marks == 2 ==> s.rec == r)))
      && (s.Decided? && s.marks > 0 && GainedGroup(r, s.rec, groups) ==>
            ExactFrom(r.account.name, suffix, Keys(groups), 0).None?
            && var cands := GroupCandidates(r.account.name, Keys(groups));
              cands != [] && Choose(cands + [NoneOfThese], answers).Some?
              && Choose(cands + [NoneOfThese], answers).value.0 == NoneOfThese)
      && (s.Raised? ==> s.error == KeyError)
  {
    var name, names := r.account.name, Keys(groups);
    match ExactFrom(name, suffix, names, 0)
    case Some(k) =>
      assert names[k] in Keys(groups);
      ExtendGains(r, groups, names[k]);
    case None =>
      var candidates := GroupCandidates(name, names);
      forall k | 0 <= k < |candidates| ensures candidates[k] in names {
        GroupCandidatesMeaning(name, names, candidates[k]);
      }
      if candidates == [] {
        ManualGroupShape(r, groups, 0, answers);
      } else {
        match Choose(candidates + [NoneOfThese], answers)
        case None =>
        case Some((selected, rest)) =>
          if selected == NoneOfThese {
            ManualGroupShape(r, groups, 1, rest);
          } else {
            assert selected in candidates;
            ExtendGains(r, groups, selected);
          }
      }
  }

  /** A group record goes into the unmatched list exactly when no name equals the source
      name (with or without the suffix), and the operator either picks "None of these" from
      the rough candidates and then finishes the manual step without an error, or, with no
      rough candidate, declines the manual selection or types `None`. */
  lemma GroupUnmatchedWhen(r: Correlated, groups: Dict<string, string>, suffix: string, answers: seq<Answer>)
    ensures var s := DecideGroup(r, groups, suffix, answers);
      (s.Decided? && s.marks > 0) <==>
        ExactFrom(r.account.name, suffix, Keys(groups), 0).None?
        && var cands := GroupCandidates(r.account.name, Keys(groups));
          if cands != [] then
            Choose(cands + [NoneOfThese], answers).Some?
            && Choose(cands + [NoneOfThese], answers).value.0 == NoneOfThese
            && var rest := Choose(cands + [NoneOfThese], answers).value.1;
              (ManualDeclined(rest)
                || (|rest| >= 2 && rest[0] == Confirm(true) && rest[1].Typed? && rest[1].text in Keys(groups)))
          else ManualDeclined(answers)
  {
    var name, names := r.account.name, Keys(groups);
    if ExactFrom(name, suffix, names, 0).None? {
      var cands := GroupCandidates(name, names);
      forall k | 0 <= k < |cands| ensures cands[k] in names {
        GroupCandidatesMeaning(name, names, cands[k]);
      }
      if cands == [] {
        ManualGroupShape(r, groups, 0, answers);
      } else {
        match Choose(cands + [NoneOfThese], answers)
        case None =>
        case Some((selected, rest)) =>
          if selected == NoneOfThese {
            ManualGroupShape(r, groups, 1, rest);
          } else {
            assert selected in cands;
          }
      }
    }
  }

  /** Extending by a name of the map and its SID is gaining that group. */
  lemma ExtendGains(r: Correlated, groups: Dict<string, string>, name: string)
    requires name in Keys(groups)
    ensures Get(groups, name).Some? && GainedGroup(r, Extend(r, [name, Get(groups, name).value]), groups)
  {
    var rec := Extend(r, [name, Get(groups, name).value]);
    assert rec.ext[..|r.ext|] == r.ext;
  }

  /** The operator declines the manual selection, or types `None` at its prompt. */
  predicate ManualDeclined(answers: seq<Answer>)
  {
    answers != [] && (answers[0] == Confirm(false)
      || (answers[0] == Confirm(true) && |answers| >= 2 && answers[1] == Typed(NoneTyped)))
  }

  /** The manual step adds at most one to the marks it starts with, and adds one exactly when
      it leaves the record as it was. */
  lemma ManualGroupShape(r: Correlated, groups: Dict<string, string>, marks: nat, answers: seq<Answer>)
    ensures var s := ManualGroup(r, groups, marks, answers);
      (s.Decided? ==> ((s.marks == marks + 1 && s.rec == r) || (s.marks == marks && GainedGroup(r, s.rec, groups))))
      && (s.Decided? && s.marks == marks + 1 <==> ManualDeclined(answers))
      && (s.Raised? <==> (|answers| >= 2 && answers[0] == Confirm(true) && answers[1].Typed?
        && answers[1].text != NoneTyped && answers[1].text !in Keys(groups)))
      && (s.Raised? ==> s.error == KeyError)
  {
    match AskConfirm(answers)
    case None =>
    case Some((yes, rest)) =>
      if yes {
        match TypeIn(rest)
        case None =>
        case Some((typed, rest')) =>
          if typed != NoneTyped && Get(groups, typed).Some? {
            ExtendGains(r, groups, typed);
          }
      }
  }

  /** "None of these" followed by a manual match: the record gains the typed group and its
      SID, yet stays in the unmatched list and so is left out of the result. */
  lemma GroupNoneOfTheseThenManual(r: Correlated, groups: Dict<string, string>, suffix: string, typed: string, more: seq<Answer>)
    requires forall k :: 0 <= k < |groups| ==> groups[k].0 != r.account.name + suffix && groups[k].0 != r.account.name
    requires GroupCandidates(r.account.name, Keys(groups)) != []
    requires typed != NoneTyped && typed in Keys(groups)
    ensures var none := |GroupCandidates(r.account.name, Keys(groups))|;
      DecideGroup(r, groups, suffix, [Pick(none), Confirm(true), Typed(typed)] + more)
        == Decided(Extend(r, [typed, Get(groups, typed).value]), 1, more)
  {
    var names := Keys(groups);
    assert ExactFrom(r.account.name, suffix, names, 0).None?;
    var answers := [Pick(|GroupCandidates(r.account.name, names)|), Confirm(true), Typed(typed)] + more;
    assert answers[1..][1..] == [Typed(typed)] + more;
    assert answers[1..][1..][1..] == more;
  }

  /** "None of these" followed by a manual "None", or by declining the manual step: the
      record goes into the unmatched list twice. */
  lemma GroupNoneOfTheseTwice(r: Correlated, groups: Dict<string, string>, suffix: string, more: seq<Answer>)
    requires forall k :: 0 <= k < |groups| ==> groups[k].0 != r.account.name + suffix && groups[k].0 != r.account.name
    requires GroupCandidates(r.account.name, Keys(groups)) != []
    ensures var none := |GroupCandidates(r.account.name, Keys(groups))|;
      DecideGroup(r, groups, suffix, [Pick(none), Confirm(true), Typed(NoneTyped)] + more) == Decided(r, 2, more)
      && DecideGroup(r, groups, suffix, [Pick(none), Confirm(false)] + more) == Decided(r, 2, more)
  {
    var names := Keys(groups);
    assert ExactFrom(r.account.name, suffix, names, 0).None?;
    var none := |GroupCandidates(r.account.name, names)|;
    var answers := [Pick(none), Confirm(true), Typed(NoneTyped)] + more;
    assert answers[1..][1..] == [Typed(NoneTyped)] + more;
    assert answers[1..][1..][1..] == more;
    var declined := [Pick(none), Confirm(false)] + more;
    assert declined[1..][1..] == more;
  }

  /** The loop of correlate.py:83-125 over the first `i` records. */
  function RunGroups(rs: seq<Correlated>, i: nat, groups: Dict<string, string>, suffix: string, answers: seq<Answer>): Pass
    requires i <= |rs|
  {
    Run((r, a) => DecideGroup(r, groups, suffix, a), rs, i, answers)
  }

  /** What `groups` returns and what the records hold afterwards, given the catalog as it was
      before the inversion. A missing target domain raises at the first record. */
  function GroupsResult(domains: Dict<string, Dict<string, string>>, rs: seq<Correlated>, targetDomain: string,
                        suffix: string, answers: seq<Answer>): (Outcome<seq<Correlated>>, seq<Correlated>)
  {
    var found := Get(InvertedAll(domains), targetDomain);
    if |rs| > 0 && found.None? then (Failed(KeyError), rs)
    else
      var groups := if found.Some? then found.value else [];
      var p := RunGroups(rs, |rs|, groups, suffix, answers);
      (Finish(p), p.recs)
  }

  /** `groups` never alters an account and only appends to a record; what it returns is, in
      order, a selection of the records as they end up, and a record that went into the
      unmatched list is not part of it. */
  lemma GroupsKeepAccounts(domains: Dict<string, Dict<string, string>>, rs: seq<Correlated>, targetDomain: string,
                           suffix: string, answers: seq<Answer>)
    ensures var (o, final) := GroupsResult(domains, rs, targetDomain, suffix, answers);
      |final| == |rs|
      && (forall k :: 0 <= k < |rs| ==> Grows(rs[k], final[k]))
      && (o.Done? ==> IsSubsequence(o.value, final))
  {
    var found := Get(InvertedAll(domains), targetDomain);
    if !(|rs| > 0 && found.None?) {
      var groups := if found.Some? then found.value else [];
      var decide := (r, a) => DecideGroup(r, groups, suffix, a);
      forall r, a | decide(r, a).Decided? ensures Grows(r, decide(r, a).rec) {
        GroupDecisionShape(r, groups, suffix, a);
        if decide(r, a).rec != r {
          assert r.ext == decide(r, a).rec.ext[..|r.ext|];
        }
      }
      RunGrows(decide, rs, |rs|, answers);
      var p := RunGroups(rs, |rs|, groups, suffix, answers);
      assert p == Run(decide, rs, |rs|, answers);
      if p.halted.None? {
        GateMeaning(p.recs, UnmatchedRecords(p), p.rest);
      }
    }
  }

  /** The loop of correlate.py:86-91 without its body's write-back. */
  method FindExactGroup(name: string, suffix: string, names: seq<string>) returns (k: Option<nat>)
    ensures k == ExactFrom(name, suffix, names, 0)
  {
    for j := 0 to |names|
      invariant ExactFrom(name, suffix, names, j) == ExactFrom(name, suffix, names, 0)
    {
      if names[j] == name + suffix || names[j] == name {
        return Some(j);
      }
    }
    return None;
  }

  /** The loop of correlate.py:95-97. */
  method CollectContaining(name: string, names: seq<string>) returns (found: seq<string>)
    ensures found == Containing(name, names)
  {
    found := [];
    for j := 0 to |names|
      invariant found == Containing(name, names[..j])
    {
      assert names[..j + 1][..j] == names[..j];
      if Contains(names[j], name) {
        found := found + [names[j]];
      }
    }
    assert names[..|names|] == names;
  }

  /** The `any(...)` of correlate.py:100. */
  method ShareWord(candidate: string, name: string) returns (b: bool)
    ensures b == SharesWord(candidate, name)
  {
    var words, nameWords := Words(candidate), Words(name);
    for i := 0 to |words|
      invariant forall k :: 0 <= k < i ==> words[k] !in nameWords
    {
      if words[i] in nameWords {
        return true;
      }
    }
    return false;
  }

  /** The loop of correlate.py:99-101. */
  method CollectSharing(name: string, names: seq<string>) returns (found: seq<string>)
    ensures found == Sharing(name, names)
  {
    found := [];
    for j := 0 to |names|
      invariant found == Sharing(name, names[..j])
    {
      assert names[..j + 1][..j] == names[..j];
      var shares := ShareWord(names[j], name);
      if shares {
        found := found + [names[j]];
      }
    }
    assert names[..|names|] == names;
  }

  /** The body of the loop of correlate.py:83-125 for one record, without the write-back. */
  method DecideGroupStep(r: Correlated, groups: Dict<string, string>, suffix: string, answers: seq<Answer>) returns (s: Step)
    ensures s == DecideGroup(r, groups, suffix, answers)
  {
    var name, names := r.account.name, Keys(groups);
    var exact := FindExactGroup(name, suffix, names);
    if exact.Some? {
      var j := names[exact.value];
      return Decided(Extend(r, [j, Get(groups, j).value]), 0, answers);
    }
    var candidates := CollectContaining(name, names);
    if candidates == [] {
      candidates := CollectSharing(name, names);
    }
    forall k | 0 <= k < |candidates| ensures candidates[k] in Keys(groups) {
      GroupCandidatesMeaning(name, names, candidates[k]);
    }
    return RoughGroup(r, groups, candidates, answers);
  }

  /** correlate.py `groups`: the catalog is inverted in place, the records are extended in
      place, and the result is the gate's. */
  method Groups(catalog: GroupCatalog, records: array<Correlated>, targetDomain: string, suffix: string,
                answers: seq<Answer>) returns (o: Outcome<seq<Correlated>>)
    modifies catalog, records
    ensures catalog.domains == InvertedAll(old(catalog.domains))
    ensures (o, records[..]) == GroupsResult(old(catalog.domains), old(records[..]), targetDomain, suffix, answers)
  {
    catalog.InvertAll();
    ghost var rs := records[..];
    var found := Get(catalog.domains, targetDomain);
    if records.Length > 0 && found.None? {
      return Failed(KeyError);
    }
    var groups := if found.Some? then found.value else [];
    var unmatched: seq<nat> := [];
    var rest := answers;
    for i := 0 to records.Length
      invariant catalog.domains == InvertedAll(old(catalog.domains))
      invariant RunGroups(rs, i, groups, suffix, answers) == Pass(records[..], unmatched, rest, None)
    {
      RunNext((r, a) => DecideGroup(r, groups, suffix, a), rs, i, answers);
      var step := DecideGroupStep(records[i], groups, suffix, rest);
      match step {
        case Decided(rec, marks, rest') =>
          records[i] := rec;
          unmatched := unmatched + seq(marks, _ => i);
          rest := rest';
        case Raised(e) =>
          RunStays((r, a) => DecideGroup(r, groups, suffix, a), rs, i + 1, |rs|, answers);
          return Failed(e);
        case Waiting =>
          RunStays((r, a) => DecideGroup(r, groups, suffix, a), rs, i + 1, |rs|, answers);
          return Stalled;
      }
    }
    o := Finish(Pass(records[..], unmatched, rest, None));
  }
}
