/** correlate.py `users`: each source user account is extended with its full name from the
    template domain, then matched to a target-domain account in tiers (full-name containment,
    then first-name token, then a name typed by the operator); unmatched accounts are reported
    and the operator decides whether to go on without them. */
module UserCorrelation {
  import opened Common
  import opened Strings
  import opened Seqs
  import opened Dicts
  import opened Records
  import opened Operator
  import opened Correlation

  /** The position of the first catalog account at or after `from` with the given login name. */
  function AccountFrom(name: string, catalog: seq<CatalogUser>, from: nat): (r: Option<nat>)
    requires from <= |catalog|
    ensures r.Some? ==> from <= r.value < |catalog| && catalog[r.value].name == name
    ensures forall j :: from <= j < |catalog| && (r.None? || j < r.value) ==> catalog[j].name != name
    decreases |catalog| - from
  {
    if from == |catalog| then None
    else if catalog[from].name == name then Some(from)
    else AccountFrom(name, catalog, from + 1)
  }

  /** The full name of the first template-domain account whose login name is `name`
      (correlate.py:19-22). */
  function FullNameOf(name: string, template: seq<CatalogUser>): (r: Option<string>)
    ensures r.None? <==> forall k :: 0 <= k < |template| ==> template[k].name != name
    ensures r.Some? ==> exists k :: (0 <= k < |template| && template[k].name == name
      && template[k].fullName == r.value && forall j :: 0 <= j < k ==> template[j].name != name)
  {
    match AccountFrom(name, template, 0)
    case None => None
    case Some(k) => Some(template[k].fullName)
  }

  /** A record after the first loop: the full name appended when one was found. */
  function WithFullName(r: Correlated, template: seq<CatalogUser>): Correlated
  {
    match FullNameOf(r.account.name, template)
    case None => r
    case Some(f) => Extend(r, [f])
  }

  /** `all_users`: target full name to login name; a later account with the same full name
      overwrites the earlier one. */
  function AllUsers(target: seq<CatalogUser>): Dict<string, string>
  {
    FromPairs(seq(|target|, k requires 0 <= k < |target| => (target[k].fullName, target[k].name)))
  }

  /** The target account `(full name, login name)` pair occurs in the catalog. */
  predicate IsTargetPair(target: seq<CatalogUser>, fullName: string, name: string)
  {
    exists k :: 0 <= k < |target| && target[k].fullName == fullName && target[k].name == name
  }

  /** `exact_matches` (correlate.py:27-30): the target accounts whose full name CONTAINS the
      source full name, in catalog order. */
  function ExactMatches(src: string, target: seq<CatalogUser>): (ms: seq<(string, string)>)
    ensures |ms| <= |target|
    ensures forall k :: 0 <= k < |ms| ==> Contains(ms[k].0, src)
  {
    if target == [] then []
    else
      var u := target[|target| - 1];
      ExactMatches(src, target[..|target| - 1])
        + (if Contains(u.fullName, src) then [(u.fullName, u.name)] else [])
  }

  /** The first tier holds exactly the pairs of target accounts whose full name contains the
      source full name. */
  lemma {:induction false} ExactMatchesMembers(src: string, target: seq<CatalogUser>, m: (string, string))
    ensures m in ExactMatches(src, target) <==>
      Contains(m.0, src) && IsTargetPair(target, m.0, m.1)
  {
    if target != [] {
      var init := target[..|target| - 1];
      ExactMatchesMembers(src, init, m);
      if IsTargetPair(init, m.0, m.1) {
        var k :| 0 <= k < |init| && init[k].fullName == m.0 && init[k].name == m.1;
        assert target[k] == init[k];
      }
      if IsTargetPair(target, m.0, m.1) && m != (target[|target| - 1].fullName, target[|target| - 1].name) {
        var k :| 0 <= k < |target| && target[k].fullName == m.0 && target[k].name == m.1;
        assert init[k] == target[k];
      }
    }
  }

  /** `potential_matches` (correlate.py:38-42): target full name to login name, for the
      accounts with a non-empty full name whose first word equals the source's first word.
      A non-empty full name without a word, or a source full name without one, makes
      `split()[0]` raise IndexError. */
  function RoughMatches(src: string, target: seq<CatalogUser>): Result<Dict<string, string>>
  {
    if target == [] then Success([])
    else match RoughMatches(src, target[..|target| - 1])
      case Failure(e) => Failure(e)
      case Success(d) =>
        var u := target[|target| - 1];
        if u.fullName == [] then Success(d)
        else match FirstWord(u.fullName)
          case None => Failure(IndexError)
          case Some(w) => match FirstWord(src)
            case None => Failure(IndexError)
            case Some(v) => if w == v then Success(Put(d, u.fullName, u.name)) else Success(d)
  }

  /** A target account that the second tier looks at. */
  predicate RoughCandidate(src: string, u: CatalogUser)
  {
    u.fullName != [] && FirstWord(u.fullName).Some? && FirstWord(u.fullName) == FirstWord(src)
  }

  /** The second tier raises IndexError exactly when some non-empty target full name, or the
      source full name, has no word. */
  lemma {:induction false} RoughMatchesRaises(src: string, target: seq<CatalogUser>)
    ensures RoughMatches(src, target).Success? <==>
      forall k :: 0 <= k < |target| && target[k].fullName != [] ==>
        FirstWord(target[k].fullName).Some? && FirstWord(src).Some?
    ensures RoughMatches(src, target).Failure? ==> RoughMatches(src, target).error == IndexError
  {
    if target != [] {
      var init := target[..|target| - 1];
      RoughMatchesRaises(src, init);
      forall k | 0 <= k < |init| ensures init[k] == target[k] { }
    }
  }

  /** Otherwise its keys are exactly the full names of the accounts whose first word is the
      source's, without repetition, each mapped to the login name of such an account. */
  lemma {:induction false} RoughMatchesMeaning(src: string, target: seq<CatalogUser>, key: string)
    requires RoughMatches(src, target).Success?
    ensures var d := RoughMatches(src, target).value;
      DistinctKeys(d)
      && (key in Keys(d) <==> exists k :: 0 <= k < |target| && target[k].fullName == key && RoughCandidate(src, target[k]))
      && (Get(d, key).Some? ==> IsTargetPair(target, key, Get(d, key).value))
  {
    if target != [] {
      var init, u := target[..|target| - 1], target[|target| - 1];
      RoughMatchesStep(src, target);
      var d := RoughMatches(src, init).value;
      RoughMatchesMeaning(src, init, key);
      CandidateSnoc(src, target, key);
      if Get(d, key).Some? {
        TargetPairSnoc(target, key, Get(d, key).value);
      }
      if RoughCandidate(src, u) {
        PutKeys(d, u.fullName, u.name);
        PutGet(d, u.fullName, u.name, key);
        if key == u.fullName {
          assert target[|target| - 1] == u;
        }
      }
    }
  }

  /** One more target account either adds its pair to the rough matches or leaves them as
      they were. */
  lemma RoughMatchesStep(src: string, target: seq<CatalogUser>)
    requires target != [] && RoughMatches(src, target).Success?
    ensures RoughMatches(src, target[..|target| - 1]).Success?
    ensures var d, u := RoughMatches(src, target[..|target| - 1]).value, target[|target| - 1];
      RoughMatches(src, target).value == if RoughCandidate(src, u) then Put(d, u.fullName, u.name) else d
  {
  }

  lemma CandidateSnoc(src: string, target: seq<CatalogUser>, key: string)
    requires target != []
    ensures var init, u := target[..|target| - 1], target[|target| - 1];
      (exists k :: 0 <= k < |target| && target[k].fullName == key && RoughCandidate(src, target[k]))
      <==> ((exists k :: 0 <= k < |init| && init[k].fullName == key && RoughCandidate(src, init[k]))
            || (u.fullName == key && RoughCandidate(src, u)))
  {
    var init := target[..|target| - 1];
    if exists k :: 0 <= k < |target| && target[k].fullName == key && RoughCandidate(src, target[k]) {
      var k :| 0 <= k < |target| && target[k].fullName == key && RoughCandidate(src, target[k]);
      if k < |init| {
        assert init[k] == target[k];
      }
    }
    if exists k :: 0 <= k < |init| && init[k].fullName == key && RoughCandidate(src, init[k]) {
      var k :| 0 <= k < |init| && init[k].fullName == key && RoughCandidate(src, init[k]);
      assert target[k] == init[k];
    }
  }

  lemma TargetPairSnoc(target: seq<CatalogUser>, fullName: string, name: string)
    requires target != [] && IsTargetPair(target[..|target| - 1], fullName, name)
    ensures IsTargetPair(target, fullName, name)
  {
    var init := target[..|target| - 1];
    var k :| 0 <= k < |init| && init[k].fullName == fullName && init[k].name == name;
    assert target[k] == init[k];
  }

  /** The items the multi-match menu appends: every first-tier pair whose full name is the one
      selected (correlate.py:35), both fields of each. */
  function PairItems(ms: seq<(string, string)>, selected: string): seq<string>
  {
    if ms == [] then []
    else
      var m := ms[|ms| - 1];
      PairItems(ms[..|ms| - 1], selected) + (if m.0 == selected then [m.0, m.1] else [])
  }

  /** The manual step (correlate.py:50-61). */
  function ManualUser(r: Correlated, allUsers: Dict<string, string>, answers: seq<Answer>): Step
  {
    match AskConfirm(answers)
    case None => Waiting
    case Some((yes, rest)) =>
      if !yes then Decided(r, 1, rest)
      else match TypeIn(rest)
        case None => Waiting
        case Some((typed, rest')) =>
          if typed == NoneTyped then Decided(r, 1, rest')
          else match Get(allUsers, typed)
            case None => Raised(KeyError)
            case Some(name) => Decided(Extend(r, [typed, name]), 0, rest')
  }

  /** The first tier once it has candidates (correlate.py:31-35): one is taken as it is,
      several are offered in a menu. */
  function FirstTier(r: Correlated, exact: seq<(string, string)>, answers: seq<Answer>): Step
    requires exact != []
  {
    if |exact| == 1 then Decided(Extend(r, [exact[0].0, exact[0].1]), 0, answers)
    else match Choose(Keys(exact), answers)
      case None => Waiting
      case Some((selected, rest)) => Decided(Extend(r, PairItems(exact, selected)), 0, rest)
  }

  /** The second tier once it has candidates (correlate.py:43-48): a menu of the rough matches
      and "None of these". */
  function SecondTier(r: Correlated, rough: Dict<string, string>, answers: seq<Answer>): Step
    requires rough != []
  {
    match Choose(Keys(rough) + [NoneOfThese], answers)
    case None => Waiting
    case Some((selected, rest)) =>
      if selected == NoneOfThese then Decided(r, 1, rest)
      else
        assert selected in Keys(rough);
        Decided(Extend(r, [selected, Get(rough, selected).value]), 0, rest)
  }

  /** The decision about one record (correlate.py:27-61). Index 5 of the record, its source
      full name, is `ext[0]`; without it the lookup raises IndexError. */
  function DecideUser(r: Correlated, target: seq<CatalogUser>, allUsers: Dict<string, string>, answers: seq<Answer>): Step
  {
    if r.ext == [] then Raised(IndexError)
    else
      var exact := ExactMatches(r.ext[0], target);
      if exact != [] then FirstTier(r, exact, answers)
      else match RoughMatches(r.ext[0], target)
        case Failure(e) => Raised(e)
        case Success(rough) => if rough != [] then SecondTier(r, rough, answers) else ManualUser(r, allUsers, answers)
  }

  /** Items appended to a record: whole `(full name, login name)` pairs of target accounts. */
  predicate TargetItems(target: seq<CatalogUser>, items: seq<string>)
  {
    |items| >= 2 && |items| % 2 == 0
    && forall j :: 0 <= j < |items| - 1 && j % 2 == 0 ==> IsTargetPair(target, items[j], items[j + 1])
  }

  lemma {:induction false} PairItemsFromTarget(ms: seq<(string, string)>, selected: string, target: seq<CatalogUser>)
    requires forall k :: 0 <= k < |ms| ==> IsTargetPair(target, ms[k].0, ms[k].1)
    ensures selected in Keys(ms) ==> TargetItems(target, PairItems(ms, selected))
    ensures |PairItems(ms, selected)| % 2 == 0
    ensures forall j :: 0 <= j < |PairItems(ms, selected)| - 1 && j % 2 == 0 ==>
      IsTargetPair(target, PairItems(ms, selected)[j], PairItems(ms, selected)[j + 1])
  {
    if ms != [] {
      var init, m := ms[..|ms| - 1], ms[|ms| - 1];
      PairItemsFromTarget(init, selected, target);
      var a := PairItems(init, selected);
      if selected in Keys(ms) && m.0 != selected {
        var i :| 0 <= i < |ms| && Keys(ms)[i] == selected;
        assert Keys(init)[i] == selected;
      }
      if m.0 == selected {
        var b := [m.0, m.1];
        forall j | 0 <= j < |a + b| - 1 && j % 2 == 0 ensures IsTargetPair(target, (a + b)[j], (a + b)[j + 1]) {
          if j < |a| {
            assert (a + b)[j] == a[j] && (a + b)[j + 1] == a[j + 1];
          } else {
            assert j == |a|;
          }
        }
      } else {
        assert PairItems(ms, selected) == a;
      }
    }
  }

  /** Items that extend `r` into `rec`. */
  predicate ExtendedBy(r: Correlated, rec: Correlated, target: seq<CatalogUser>)
  {
    rec.account == r.account && |rec.ext| >= |r.ext| && rec.ext[..|r.ext|] == r.ext
    && TargetItems(target, rec.ext[|r.ext|..])
  }

  lemma FirstTierShape(r: Correlated, src: string, target: seq<CatalogUser>, answers: seq<Answer>)
    requires ExactMatches(src, target) != []
    ensures var s := FirstTier(r, ExactMatches(src, target), answers);
      !s.Raised? && (s.Decided? ==> s.marks == 0 && ExtendedBy(r, s.rec, target))
  {
    var exact := ExactMatches(src, target);
    var s := FirstTier(r, exact, answers);
    forall k | 0 <= k < |exact| ensures IsTargetPair(target, exact[k].0, exact[k].1) {
      ExactMatchesMembers(src, target, exact[k]);
    }
    if s.Decided? {
      var items := s.rec.ext[|r.ext|..];
      assert s.rec.ext == r.ext + items;
      if |exact| > 1 {
        var selected := Choose(Keys(exact), answers).value.0;
        PairItemsFromTarget(exact, selected, target);
      }
    }
  }

  lemma SecondTierShape(r: Correlated, src: string, target: seq<CatalogUser>, answers: seq<Answer>)
    requires RoughMatches(src, target).Success? && RoughMatches(src, target).value != []
    ensures var s := SecondTier(r, RoughMatches(src, target).value, answers);
      !s.Raised? && (s.Decided? ==> (s.marks <= 1 && (s.marks == 1 ==> s.rec == r)
        && (s.marks == 0 ==> ExtendedBy(r, s.rec, target))))
    ensures var rough := RoughMatches(src, target).value;
      var s, c := SecondTier(r, rough, answers), Choose(Keys(rough) + [NoneOfThese], answers);
      ((s.Decided? && s.marks == 1) <==> (c.Some? && c.value.0 == NoneOfThese))
      && (s.Decided? && s.marks == 0 ==>
            c.Some? && c.value.0 in Keys(rough) && s.rec == Extend(r, [c.value.0, Get(rough, c.value.0).value]))
  {
    var rough := RoughMatches(src, target).value;
    forall key | Get(rough, key).Some? ensures IsTargetPair(target, key, Get(rough, key).value) {
      RoughMatchesMeaning(src, target, key);
    }
    SecondTierExtends(r, rough, target, answers);
  }

  /** A menu whose every entry is a target account's pair extends the record by one pair or
      marks it. */
  lemma SecondTierExtends(r: Correlated, rough: Dict<string, string>, target: seq<CatalogUser>, answers: seq<Answer>)
    requires rough != []
    requires forall key :: Get(rough, key).Some? ==> IsTargetPair(target, key, Get(rough, key).value)
    ensures var s := SecondTier(r, rough, answers);
      !s.Raised? && (s.Decided? ==> (s.marks <= 1 && (s.marks == 1 ==> s.rec == r)
        && (s.marks == 0 ==> ExtendedBy(r, s.rec, target))))
  {
    var s := SecondTier(r, rough, answers);
    if s.Decided? && s.marks == 0 {
      var selected := Choose(Keys(rough) + [NoneOfThese], answers).value.0;
      var name := Get(rough, selected).value;
      assert s.rec == Extend(r, [selected, name]);
      assert TargetItems(target, [selected, name]);
      assert s.rec.ext[|r.ext|..] == [selected, name];
    }
  }

  lemma ManualUserShape(r: Correlated, target: seq<CatalogUser>, answers: seq<Answer>)
    ensures var s := ManualUser(r, AllUsers(target), answers);
      (s.Decided? ==> (s.marks <= 1 && (s.marks == 1 ==> s.rec == r)
        && (s.marks == 0 ==> ExtendedBy(r, s.rec, target))))
      && (s.Decided? && s.marks == 0 ==>
            s.rec == Extend(r, [answers[1].text, Get(AllUsers(target), answers[1].text).value]))
      && ((s.Decided? && s.marks == 1) <==> ((|answers| >= 1 && answers[0] == Confirm(false))
            || (|answers| >= 2 && answers[0] == Confirm(true) && answers[1] == Typed(NoneTyped))))
      && (s.Raised? <==> (|answers| >= 2 && answers[0] == Confirm(true) && answers[1].Typed?
        && answers[1].text != NoneTyped && forall k :: 0 <= k < |target| ==> target[k].fullName != answers[1].text))
      && (s.Raised? ==> s.error == KeyError)
  {
    var s := ManualUser(r, AllUsers(target), answers);
    if |answers| >= 2 && answers[1].Typed? {
      var typed := answers[1].text;
      AllUsersLookup(target, typed);
      if s.Decided? && s.marks == 0 {
        var name := Get(AllUsers(target), typed).value;
        assert s.rec == Extend(r, [typed, name]);
        assert TargetItems(target, [typed, name]);
        assert s.rec.ext[|r.ext|..] == [typed, name];
      }
    }
  }

  /** A full name typed at the manual prompt is found exactly when some target account has
      it, and the login name found is that of such an account. */
  lemma AllUsersLookup(target: seq<CatalogUser>, typed: string)
    ensures Get(AllUsers(target), typed).Some? <==> exists k :: 0 <= k < |target| && target[k].fullName == typed
    ensures Get(AllUsers(target), typed).Some? ==> IsTargetPair(target, typed, Get(AllUsers(target), typed).value)
  {
    var ps := seq(|target|, k requires 0 <= k < |target| => (target[k].fullName, target[k].name));
    FromPairsMeaning(ps, typed);
    LastValueSource(ps, typed);
    if exists k :: 0 <= k < |target| && target[k].fullName == typed {
      var k :| 0 <= k < |target| && target[k].fullName == typed;
      assert ps[k].0 == typed;
    }
    if LastValue(ps, typed).Some? {
      var i :| 0 <= i < |ps| && ps[i] == (typed, LastValue(ps, typed).value);
      assert target[i].fullName == typed && target[i].name == LastValue(ps, typed).value;
    }
  }

  /** What a decision does to a record: the account never changes; an unmatched record is left
      as it was; a matched one keeps its items and gains whole pairs of target accounts. */
  lemma UserDecisionShape(r: Correlated, target: seq<CatalogUser>, answers: seq<Answer>)
    ensures var s := DecideUser(r, target, AllUsers(target), answers);
      s.Decided? ==> (r.ext != [] && s.marks <= 1
        && (s.marks == 1 ==> s.rec == r)
        && (s.marks == 0 ==> ExtendedBy(r, s.rec, target)))
  {
    if r.ext != [] {
      var src := r.ext[0];
      if ExactMatches(src, target) != [] {
        FirstTierShape(r, src, target, answers);
      } else if RoughMatches(src, target).Success? {
        if RoughMatches(src, target).value != [] {
          SecondTierShape(r, src, target, answers);
        } else {
          ManualUserShape(r, target, answers);
        }
      }
    }
  }

  /** A single first-tier candidate is taken without asking: the record gains its pair and no
      answer is consumed. */
  lemma UserSingleCandidate(r: Correlated, target: seq<CatalogUser>, allUsers: Dict<string, string>, answers: seq<Answer>)
    requires r.ext != [] && |ExactMatches(r.ext[0], target)| == 1
    ensures exists fullName, name :: (Contains(fullName, r.ext[0]) && IsTargetPair(target, fullName, name)
      && DecideUser(r, target, allUsers, answers) == Decided(Extend(r, [fullName, name]), 0, answers))
  {
    var m := ExactMatches(r.ext[0], target)[0];
    ExactMatchesMembers(r.ext[0], target, m);
  }

  /** When the first tier finds anyone, the later tiers never run: nothing is raised and the
      record is never unmatched; several candidates cost exactly one answer. */
  lemma UserFirstTierWins(r: Correlated, target: seq<CatalogUser>, allUsers: Dict<string, string>, answers: seq<Answer>)
    requires r.ext != [] && ExactMatches(r.ext[0], target) != []
    ensures !DecideUser(r, target, allUsers, answers).Raised?
    ensures DecideUser(r, target, allUsers, answers).Decided? ==>
      DecideUser(r, target, allUsers, answers).marks == 0
      && (|ExactMatches(r.ext[0], target)| > 1 ==> DecideUser(r, target, allUsers, answers).rest == answers[1..])
  {
  }

  /** A record is unmatched exactly when neither tier one nor an error applies, and the
      operator picks "None of these" from the rough matches, or, with no rough match, declines
      the manual selection or types `None`. */
  lemma UserUnmatchedWhen(r: Correlated, target: seq<CatalogUser>, allUsers: Dict<string, string>, answers: seq<Answer>)
    ensures var s := DecideUser(r, target, allUsers, answers);
      (s.Decided? && s.marks > 0) <==>
        r.ext != [] && ExactMatches(r.ext[0], target) == [] && RoughMatches(r.ext[0], target).Success?
        && var rough := RoughMatches(r.ext[0], target).value;
          if rough != [] then
            Choose(Keys(rough) + [NoneOfThese], answers).Some?
            && Choose(Keys(rough) + [NoneOfThese], answers).value.0 == NoneOfThese
          else
            answers != [] && (answers[0] == Confirm(false)
              || (answers[0] == Confirm(true) && |answers| >= 2 && answers[1] == Typed(NoneTyped)))
  {
  }

  /** The decision raises exactly when the record has no full name (IndexError), when the
      second tier raises (IndexError), or when the name typed at the manual prompt is not a
      target full name (KeyError). */
  lemma UserRaisedWhen(r: Correlated, target: seq<CatalogUser>, answers: seq<Answer>)
    ensures var s := DecideUser(r, target, AllUsers(target), answers);
      s.Raised? <==>
        r.ext == []
        || (ExactMatches(r.ext[0], target) == [] && RoughMatches(r.ext[0], target).Failure?)
        || (ExactMatches(r.ext[0], target) == [] && RoughMatches(r.ext[0], target) == Success([])
            && |answers| >= 2 && answers[0] == Confirm(true) && answers[1].Typed?
            && answers[1].text != NoneTyped
            && forall k :: 0 <= k < |target| ==> target[k].fullName != answers[1].text)
    ensures var s := DecideUser(r, target, AllUsers(target), answers);
      s.Raised? ==> s.error == (if r.ext != [] && ExactMatches(r.ext[0], target) == []
        && RoughMatches(r.ext[0], target).Success? then KeyError else IndexError)
  {
    if r.ext != [] {
      var src := r.ext[0];
      RoughMatchesRaises(src, target);
      if ExactMatches(src, target) != [] {
        FirstTierShape(r, src, target, answers);
      } else if RoughMatches(src, target).Success? {
        if RoughMatches(src, target).value != [] {
          SecondTierShape(r, src, target, answers);
        } else {
          ManualUserShape(r, target, answers);
        }
      }
    }
  }

  /** Two target accounts with the same full name, both containing the source full name: the
      menu shows that name twice, and whichever is picked the record gains BOTH pairs, four
      items, so that index 8 later holds the second full name rather than a SID. */
  lemma UserDuplicateFullNames(r: Correlated, u: CatalogUser, v: CatalogUser, allUsers: Dict<string, string>, pick: nat)
    requires r.ext != [] && u.fullName == v.fullName && Contains(u.fullName, r.ext[0])
    requires pick < 2
    ensures DecideUser(r, [u, v], allUsers, [Pick(pick)])
      == Decided(Extend(r, [u.fullName, u.name, v.fullName, v.name]), 0, [])
  {
    var exact := TwinMatches(r.ext[0], u, v);
    assert Choose(Keys(exact), [Pick(pick)]) == Some((u.fullName, [])) by {
      assert Keys(exact)[pick] == u.fullName;
    }
    TwinItems(u, v);
  }

  /** Two target accounts sharing a full name that contains the source's both make the first tier. */
  lemma TwinMatches(src: string, u: CatalogUser, v: CatalogUser) returns (exact: seq<(string, string)>)
    requires u.fullName == v.fullName && Contains(u.fullName, src)
    ensures exact == ExactMatches(src, [u, v]) == [(u.fullName, u.name), (v.fullName, v.name)]
  {
    assert [u, v][..1] == [u];
    assert [u][..0] == [];
    assert ExactMatches(src, [u]) == [(u.fullName, u.name)];
    exact := ExactMatches(src, [u, v]);
  }

  /** Selecting their shared full name appends both pairs. */
  lemma TwinItems(u: CatalogUser, v: CatalogUser)
    requires u.fullName == v.fullName
    ensures PairItems([(u.fullName, u.name), (v.fullName, v.name)], u.fullName) == [u.fullName, u.name, v.fullName, v.name]
  {
    assert [(u.fullName, u.name), (v.fullName, v.name)][..1] == [(u.fullName, u.name)];
    assert [(u.fullName, u.name)][..0] == [];
    assert PairItems([(u.fullName, u.name)], u.fullName) == [u.fullName, u.name];
  }

  /** The records after the first loop (correlate.py:18-22). */
  function Named(rs: seq<Correlated>, domainUsers: map<string, seq<CatalogUser>>, templateDomain: string): (named: seq<Correlated>)
    requires |rs| == 0 || templateDomain in domainUsers
    ensures |named| == |rs|
  {
    if |rs| == 0 then rs
    else seq(|rs|, k requires 0 <= k < |rs| => WithFullName(rs[k], domainUsers[templateDomain]))
  }

  /** The second loop (correlate.py:26-61) over the first `i` records. */
  function RunUsers(rs: seq<Correlated>, i: nat, target: seq<CatalogUser>, allUsers: Dict<string, string>, answers: seq<Answer>): Pass
    requires i <= |rs|
  {
    Run((r, a) => DecideUser(r, target, allUsers, a), rs, i, answers)
  }

  /** What `users` returns and what the records hold afterwards. A missing template domain
      raises before the first record, a missing target domain before the second loop. */
  function UsersResult(rs: seq<Correlated>, domainUsers: map<string, seq<CatalogUser>>, templateDomain: string,
                       targetDomain: string, answers: seq<Answer>): (Outcome<seq<Correlated>>, seq<Correlated>)
  {
    if |rs| > 0 && templateDomain !in domainUsers then (Failed(KeyError), rs)
    else
      var named := Named(rs, domainUsers, templateDomain);
      if targetDomain !in domainUsers then (Failed(KeyError), named)
      else
        var target := domainUsers[targetDomain];
        var p := RunUsers(named, |named|, target, AllUsers(target), answers);
        (Finish(p), p.recs)
  }

  /** `users` never alters an account or drops an item, and leaves an unmatched record as it
      was; what it returns is, in order, a selection of the records as they end up. */
  lemma UsersKeepAccounts(rs: seq<Correlated>, domainUsers: map<string, seq<CatalogUser>>, templateDomain: string,
                          targetDomain: string, answers: seq<Answer>)
    ensures var (o, final) := UsersResult(rs, domainUsers, templateDomain, targetDomain, answers);
      |final| == |rs|
      && (forall k :: 0 <= k < |rs| ==> Grows(rs[k], final[k]))
      && (o.Done? ==> IsSubsequence(o.value, final))
  {
    if !(|rs| > 0 && templateDomain !in domainUsers) {
      var named := Named(rs, domainUsers, templateDomain);
      assert forall k :: 0 <= k < |rs| ==> Grows(rs[k], named[k]) by {
        forall k | 0 <= k < |rs| ensures Grows(rs[k], named[k]) {
          assert named[k] == WithFullName(rs[k], domainUsers[templateDomain]);
        }
      }
      if targetDomain in domainUsers {
        var target := domainUsers[targetDomain];
        var allUsers := AllUsers(target);
        var p := RunUsers(named, |named|, target, allUsers, answers);
        assert forall k :: 0 <= k < |named| ==> Grows(named[k], p.recs[k]) by {
          var decide := (r, a) => DecideUser(r, target, allUsers, a);
          forall r, a | decide(r, a).Decided? ensures Grows(r, decide(r, a).rec) {
            UserDecisionShape(r, target, a);
          }
          RunGrows(decide, named, |named|, answers);
          assert p == Run(decide, named, |named|, answers);
        }
        forall k | 0 <= k < |rs| ensures Grows(rs[k], p.recs[k]) {
          GrowsTransitive(rs[k], named[k], p.recs[k]);
        }
        if p.halted.None? {
          GateMeaning(p.recs, UnmatchedRecords(p), p.rest);
        }
      }
    }
  }

  /** A record left unmatched is reported exactly as it came out of the first loop. */
  lemma UsersUnmatchedUntouched(named: seq<Correlated>, target: seq<CatalogUser>, answers: seq<Answer>)
    ensures Unchanged(RunUsers(named, |named|, target, AllUsers(target), answers), named)
  {
    var allUsers := AllUsers(target);
    var decide := (r, a) => DecideUser(r, target, allUsers, a);
    forall r, a | decide(r, a).Decided? && decide(r, a).marks > 0 ensures decide(r, a).rec == r {
      UserDecisionShape(r, target, a);
    }
    RunUnmatchedUnchanged(decide, named, |named|, answers);
    assert RunUsers(named, |named|, target, allUsers, answers) == Run(decide, named, |named|, answers);
  }

  /** The inner loop of correlate.py:19-22. */
  method FindFullName(name: string, template: seq<CatalogUser>) returns (fullName: Option<string>)
    ensures fullName == FullNameOf(name, template)
  {
    for j := 0 to |template|
      invariant AccountFrom(name, template, j) == AccountFrom(name, template, 0)
    {
      if template[j].name == name {
        return Some(template[j].fullName);
      }
    }
    return None;
  }

  /** The loop of correlate.py:27-30. */
  method CollectExact(src: string, target: seq<CatalogUser>) returns (exact: seq<(string, string)>)
    ensures exact == ExactMatches(src, target)
  {
    exact := [];
    for j := 0 to |target|
      invariant exact == ExactMatches(src, target[..j])
    {
      if Contains(target[j].fullName, src) {
        exact := exact + [(target[j].fullName, target[j].name)];
      }
      assert target[..j + 1][..j] == target[..j];
    }
    assert target[..|target|] == target;
  }

  /** An IndexError on some account ends the second tier whatever follows it. */
  lemma {:induction false} RoughFailurePersists(src: string, target: seq<CatalogUser>, j: nat)
    requires j <= |target| && RoughMatches(src, target[..j]).Failure?
    ensures RoughMatches(src, target) == RoughMatches(src, target[..j])
    decreases |target|
  {
    if j < |target| {
      var init := target[..|target| - 1];
      assert init[..j] == target[..j];
      RoughFailurePersists(src, init, j);
    } else {
      assert target[..j] == target;
    }
  }

  /** The loop of correlate.py:39-42. */
  method CollectRough(src: string, target: seq<CatalogUser>) returns (r: Result<Dict<string, string>>)
    ensures r == RoughMatches(src, target)
  {
    var rough: Dict<string, string> := [];
    for j := 0 to |target|
      invariant RoughMatches(src, target[..j]) == Success(rough)
    {
      assert target[..j + 1][..j] == target[..j];
      var u := target[j];
      if u.fullName != [] {
        var w := FirstWord(u.fullName);
        if w.None? {
          RoughFailurePersists(src, target, j + 1);
          return Failure(IndexError);
        }
        var v := FirstWord(src);
        if v.None? {
          RoughFailurePersists(src, target, j + 1);
          return Failure(IndexError);
        }
        if w.value == v.value {
          rough := Put(rough, u.fullName, u.name);
        }
      }
    }
    assert target[..|target|] == target;
    r := Success(rough);
  }

  /** The body of the loop of correlate.py:26-61 for one record, without the write-back. */
  method DecideUserStep(r: Correlated, target: seq<CatalogUser>, allUsers: Dict<string, string>, answers: seq<Answer>) returns (s: Step)
    ensures s == DecideUser(r, target, allUsers, answers)
  {
    if r.ext == [] {
      return Raised(IndexError);
    }
    var src := r.ext[0];
    var exact := CollectExact(src, target);
    if exact != [] {
      return FirstTier(r, exact, answers);
    }
    var rough := CollectRough(src, target);
    if rough.Failure? {
      return Raised(rough.error);
    }
    if rough.value != [] {
      return SecondTier(r, rough.value, answers);
    }
    return ManualUser(r, allUsers, answers);
  }

  /** The first loop of correlate.py `users` (lines 18-22), in place. */
  method AddFullNames(records: array<Correlated>, template: seq<CatalogUser>)
    modifies records
    ensures forall k :: 0 <= k < records.Length ==> records[k] == WithFullName(old(records[k]), template)
  {
    for i := 0 to records.Length
      invariant forall k :: 0 <= k < i ==> records[k] == WithFullName(old(records[k]), template)
      invariant forall k :: i <= k < records.Length ==> records[k] == old(records[k])
    {
      var fullName := FindFullName(records[i].account.name, template);
      if fullName.Some? {
        records[i] := Extend(records[i], [fullName.value]);
      }
    }
  }

  /** correlate.py `users`: the records are extended in place; the result is the gate's. */
  method Users(records: array<Correlated>, domainUsers: map<string, seq<CatalogUser>>, templateDomain: string,
               targetDomain: string, answers: seq<Answer>) returns (o: Outcome<seq<Correlated>>)
    modifies records
    ensures (o, records[..]) == UsersResult(old(records[..]), domainUsers, templateDomain, targetDomain, answers)
  {
    if records.Length > 0 {
      if templateDomain !in domainUsers {
        return Failed(KeyError);
      }
      AddFullNames(records, domainUsers[templateDomain]);
    }
    ghost var named := records[..];
    assert named == Named(old(records[..]), domainUsers, templateDomain);
    if targetDomain !in domainUsers {
      return Failed(KeyError);
    }
    var target := domainUsers[targetDomain];
    o := DecideUsers(records, target, AllUsers(target), answers);
  }

  /** The second loop of `users` (correlate.py:26-61) and the gate after it. */
  method DecideUsers(records: array<Correlated>, target: seq<CatalogUser>, allUsers: Dict<string, string>,
                     answers: seq<Answer>) returns (o: Outcome<seq<Correlated>>)
    modifies records
    ensures var p := RunUsers(old(records[..]), records.Length, target, allUsers, answers);
      o == Finish(p) && records[..] == p.recs
  {
    ghost var named := records[..];
    var unmatched: seq<nat> := [];
    var rest := answers;
    for i := 0 to records.Length
      invariant RunUsers(named, i, target, allUsers, answers) == Pass(records[..], unmatched, rest, None)
    {
      var step := DecideUserStep(records[i], target, allUsers, rest);
      match step {
        case Decided(rec, marks, rest') =>
          records[i] := rec;
          unmatched := unmatched + seq(marks, _ => i);
          rest := rest';
        case Raised(e) =>
          RunStays((r, a) => DecideUser(r, target, allUsers, a), named, i + 1, |named|, answers);
          return Failed(e);
        case Waiting =>
          RunStays((r, a) => DecideUser(r, target, allUsers, a), named, i + 1, |named|, answers);
          return Stalled;
      }
    }
    o := Finish(Pass(records[..], unmatched, rest, None));
  }
}
