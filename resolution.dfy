/** Sorting the looked-up SIDs: which resolved, which domains appear, which are groups
    (parse.py `identify_domains` to `separate_users_groups`). */
module Resolution {
  import opened Common
  import opened Seqs
  import opened Dicts
  import opened Records

  /** Python truthiness of `item[2]`: `False` for a failed lookup, and also an empty name. */
  predicate IsIdentified(r: SidRecord)
  {
    r.Resolved? && r.account.name != ""
  }

  predicate IsUnidentified(r: SidRecord)
  {
    !IsIdentified(r)
  }

  /** `item[4] == 1`. */
  predicate IsUser(a: Account)
  {
    a.kind == UserKind
  }

  predicate IsNotUser(a: Account)
  {
    !IsUser(a)
  }

  /** parse.py `identify_domains`: the domain of every record longer than 3 fields, that is of
      every resolved record and of no failed lookup. */
  method IdentifyDomains(sidUsers: seq<SidRecord>) returns (domains: set<string>)
    ensures forall d :: d in domains <==>
      exists k :: 0 <= k < |sidUsers| && sidUsers[k].Resolved? && sidUsers[k].account.domain == d
  {
    domains := {};
    for i := 0 to |sidUsers|
      invariant forall d :: d in domains <==>
        exists k :: 0 <= k < i && sidUsers[k].Resolved? && sidUsers[k].account.domain == d
    {
      if sidUsers[i].Resolved? {
        domains := domains + {sidUsers[i].account.domain};
      }
    }
  }

  /** parse.py `separate_unresolved`: resolved records with a name, and all the others, each in
      input order. */
  method SeparateUnresolved(sidUsers: seq<SidRecord>) returns (identified: seq<SidRecord>, noUser: seq<SidRecord>)
    ensures identified == Filter(IsIdentified, sidUsers)
    ensures noUser == Filter(IsUnidentified, sidUsers)
  {
    identified, noUser := [], [];
    for i := 0 to |sidUsers|
      invariant identified == Filter(IsIdentified, sidUsers[..i])
      invariant noUser == Filter(IsUnidentified, sidUsers[..i])
    {
      assert sidUsers[..i + 1][..i] == sidUsers[..i];
      if IsIdentified(sidUsers[i]) {
        identified := identified + [sidUsers[i]];
      } else {
        noUser := noUser + [sidUsers[i]];
      }
    }
    assert sidUsers[..|sidUsers|] == sidUsers;
  }

  /** `separate_unresolved` is an order-preserving partition: every record lands in exactly one
      list, and each list keeps the input order. */
  lemma SeparateUnresolvedPartition(sidUsers: seq<SidRecord>)
    ensures multiset(Filter(IsIdentified, sidUsers)) + multiset(Filter(IsUnidentified, sidUsers)) == multiset(sidUsers)
    ensures IsSubsequence(Filter(IsIdentified, sidUsers), sidUsers)
    ensures IsSubsequence(Filter(IsUnidentified, sidUsers), sidUsers)
    ensures forall r :: r in Filter(IsIdentified, sidUsers) ==> r.Resolved? && r.account.name != ""
  {
    FilterPartition(IsIdentified, IsUnidentified, sidUsers);
    FilterIsSubsequence(IsIdentified, sidUsers);
    FilterIsSubsequence(IsUnidentified, sidUsers);
    FilterMembers(IsIdentified, sidUsers);
  }

  /** The first domain, in the dict's order, whose group map has the SID as a key. */
  function FirstDomainWith(domainGroups: Dict<string, Dict<string, string>>, sid: string, from: nat): (r: Option<nat>)
    ensures r.Some? ==> from <= r.value < |domainGroups| && sid in Keys(domainGroups[r.value].1)
    ensures forall e :: from <= e < |domainGroups| && (r.None? || e < r.value) ==> sid !in Keys(domainGroups[e].1)
    decreases |domainGroups| - from
  {
    if from >= |domainGroups| then None
    else if sid in Keys(domainGroups[from].1) then Some(from)
    else FirstDomainWith(domainGroups, sid, from + 1)
  }

  /** The group record `second_pass_resolve` builds for one unresolved SID, if any:
      `[sid, binsid, group name, domain, 2]` from the first domain that knows the SID. */
  function GroupLookup(r: SidRecord, domainGroups: Dict<string, Dict<string, string>>): Option<Account>
  {
    match FirstDomainWith(domainGroups, r.Sid(), 0)
    case None => None
    case Some(d) =>
      var (domain, groups) := domainGroups[d];
      Some(Account(r.Sid(), r.BinSid(), Get(groups, r.Sid()).value, domain, GroupKind))
  }

  /** No record exactly when no domain knows the SID; otherwise the record names the first
      domain that does, and the group name it gives. */
  lemma GroupLookupMeaning(r: SidRecord, domainGroups: Dict<string, Dict<string, string>>)
    ensures GroupLookup(r, domainGroups).None? <==> forall d :: 0 <= d < |domainGroups| ==> r.Sid() !in Keys(domainGroups[d].1)
    ensures GroupLookup(r, domainGroups).Some? ==>
      exists d :: 0 <= d < |domainGroups| && r.Sid() in Keys(domainGroups[d].1)
        && (forall e :: 0 <= e < d ==> r.Sid() !in Keys(domainGroups[e].1))
        && GroupLookup(r, domainGroups).value == Account(r.Sid(), r.BinSid(), Get(domainGroups[d].1, r.Sid()).value, domainGroups[d].0, GroupKind)
  {
  }

  /** The group records of a list of unresolved SIDs, in input order. */
  function SecondPass(unresolved: seq<SidRecord>, domainGroups: Dict<string, Dict<string, string>>): seq<Account>
  {
    if unresolved == [] then []
    else
      var found := GroupLookup(unresolved[|unresolved| - 1], domainGroups);
      SecondPass(unresolved[..|unresolved| - 1], domainGroups) + (if found.Some? then [found.value] else [])
  }

  /** At most one group record per unresolved SID, each of type 2 and the lookup of one of
      them. */
  lemma {:induction false} SecondPassMeaning(unresolved: seq<SidRecord>, domainGroups: Dict<string, Dict<string, string>>)
    ensures |SecondPass(unresolved, domainGroups)| <= |unresolved|
    ensures var rs := SecondPass(unresolved, domainGroups);
      forall k :: 0 <= k < |rs| ==>
        rs[k].kind == GroupKind && exists i :: 0 <= i < |unresolved| && GroupLookup(unresolved[i], domainGroups) == Some(rs[k])
  {
    if unresolved != [] {
      var init := unresolved[..|unresolved| - 1];
      var last := |unresolved| - 1;
      SecondPassMeaning(init, domainGroups);
      var rs := SecondPass(unresolved, domainGroups);
      var rest := SecondPass(init, domainGroups);
      forall k | 0 <= k < |rs|
        ensures rs[k].kind == GroupKind && exists i :: 0 <= i < |unresolved| && GroupLookup(unresolved[i], domainGroups) == Some(rs[k])
      {
        if k < |rest| {
          var i :| 0 <= i < |init| && GroupLookup(init[i], domainGroups) == Some(rest[k]);
          assert unresolved[i] == init[i];
        } else {
          assert rs == rest + [GroupLookup(unresolved[last], domainGroups).value];
          assert GroupLookup(unresolved[last], domainGroups) == Some(rs[k]);
        }
      }
    }
  }

  /** parse.py `second_pass_resolve`: look every unresolved SID up in the domains' group maps.
      `unresolved` is set to True on both branches (parse.py:95), so the second list is always
      the whole input. */
  method SecondPassResolve(unresolvedSids: seq<SidRecord>, domainGroups: Dict<string, Dict<string, string>>)
    returns (resolvedSids: seq<Account>, stillUnresolved: seq<SidRecord>)
    ensures resolvedSids == SecondPass(unresolvedSids, domainGroups)
    ensures stillUnresolved == unresolvedSids
  {
    resolvedSids, stillUnresolved := [], [];
    for i := 0 to |unresolvedSids|
      invariant resolvedSids == SecondPass(unresolvedSids[..i], domainGroups)
      invariant stillUnresolved == unresolvedSids[..i]
    {
      var item := unresolvedSids[i];
      var unresolved := true;
      var found := LookupGroup(item, domainGroups);
      SecondPassSnoc(unresolvedSids, i, domainGroups);
      if found.Some? {
        resolvedSids := resolvedSids + [found.value];
        unresolved := true;
      }
      if unresolved {
        stillUnresolved := stillUnresolved + [item];
      }
    }
    assert unresolvedSids[..|unresolvedSids|] == unresolvedSids;
  }

  /** The inner loop of `second_pass_resolve` (parse.py:89-95): the domains are tried in
      order and the first whose group map holds the SID gives the record. */
  method LookupGroup(item: SidRecord, domainGroups: Dict<string, Dict<string, string>>) returns (found: Option<Account>)
    ensures found == GroupLookup(item, domainGroups)
  {
    found := None;
    var d := 0;
    while d < |domainGroups|
      invariant 0 <= d <= |domainGroups|
      invariant forall e :: 0 <= e < d ==> item.Sid() !in Keys(domainGroups[e].1)
    {
      var (domain, groups) := domainGroups[d];
      if item.Sid() in Keys(groups) {
        assert FirstDomainWith(domainGroups, item.Sid(), 0) == Some(d);
        found := Some(Account(item.Sid(), item.BinSid(), Get(groups, item.Sid()).value, domain, GroupKind));
        return;
      }
      d := d + 1;
    }
    assert FirstDomainWith(domainGroups, item.Sid(), 0).None?;
  }

  /** One more unresolved SID adds its group record, if any, to the end. */
  lemma SecondPassSnoc(unresolved: seq<SidRecord>, i: nat, domainGroups: Dict<string, Dict<string, string>>)
    requires i < |unresolved|
    ensures SecondPass(unresolved[..i + 1], domainGroups) == SecondPass(unresolved[..i], domainGroups)
      + (if GroupLookup(unresolved[i], domainGroups).Some? then [GroupLookup(unresolved[i], domainGroups).value] else [])
  {
    assert unresolved[..i + 1][..i] == unresolved[..i];
  }

  /** parse.py `separate_users_groups`: type 1 accounts and all other accounts, in order. */
  method SeparateUsersGroups(identifiedAccounts: seq<Account>) returns (users: seq<Account>, groups: seq<Account>)
    ensures users == Filter(IsUser, identifiedAccounts)
    ensures groups == Filter(IsNotUser, identifiedAccounts)
  {
    users, groups := [], [];
    for i := 0 to |identifiedAccounts|
      invariant users == Filter(IsUser, identifiedAccounts[..i])
      invariant groups == Filter(IsNotUser, identifiedAccounts[..i])
    {
      assert identifiedAccounts[..i + 1][..i] == identifiedAccounts[..i];
      if identifiedAccounts[i].kind == UserKind {
        users := users + [identifiedAccounts[i]];
      } else {
        groups := groups + [identifiedAccounts[i]];
      }
    }
    assert identifiedAccounts[..|identifiedAccounts|] == identifiedAccounts;
  }

  /** `separate_users_groups` is an order-preserving partition by account type. */
  lemma SeparateUsersGroupsPartition(accounts: seq<Account>)
    ensures multiset(Filter(IsUser, accounts)) + multiset(Filter(IsNotUser, accounts)) == multiset(accounts)
    ensures IsSubsequence(Filter(IsUser, accounts), accounts)
    ensures IsSubsequence(Filter(IsNotUser, accounts), accounts)
    ensures forall a :: a in Filter(IsUser, accounts) <==> a in accounts && a.kind == UserKind
  {
    FilterPartition(IsUser, IsNotUser, accounts);
    FilterIsSubsequence(IsUser, accounts);
    FilterIsSubsequence(IsNotUser, accounts);
    FilterMembers(IsUser, accounts);
  }
}
