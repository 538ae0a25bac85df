/** The source-to-target SID table that drives synthesis (parse.py `make_sid_pairs`). */
module Pairing {
  import opened Common
  import opened Dicts
  import opened Records

  /** A matched user record holds its target SID at Python index 8 (`w32.get_user_sid`). */
  predicate UserPaired(u: Correlated)
  {
    |u.ext| >= 4
  }

  /** A matched group record holds its target SID at Python index 6. */
  predicate GroupPaired(g: Correlated)
  {
    |g.ext| >= 2
  }

  /** `(user[0], user[8])` for every matched user, in order. */
  function UserPairs(users: seq<Correlated>): (ps: seq<(string, string)>)
    requires forall i :: 0 <= i < |users| ==> UserPaired(users[i])
    ensures |ps| == |users|
  {
    seq(|users|, i requires 0 <= i < |users| && UserPaired(users[i]) => (users[i].account.sid, users[i].ext[3]))
  }

  /** `(group[0], group[6])` for every matched group, in order. */
  function GroupPairs(groups: seq<Correlated>): (ps: seq<(string, string)>)
    requires forall j :: 0 <= j < |groups| ==> GroupPaired(groups[j])
    ensures |ps| == |groups|
  {
    seq(|groups|, i requires 0 <= i < |groups| && GroupPaired(groups[i]) => (groups[i].account.sid, groups[i].ext[1]))
  }

  /** A dict comprehension over pairs, as a map: a later pair overwrites an earlier one. */
  function ToMap(ps: seq<(string, string)>): map<string, string>
  {
    if ps == [] then map[] else ToMap(ps[..|ps| - 1])[ps[|ps| - 1].0 := ps[|ps| - 1].1]
  }

  /** The table `make_sid_pairs` builds when every record is long enough: users' pairs first,
      then groups' pairs update the same dict. */
  function SidTable(users: seq<Correlated>, groups: seq<Correlated>): map<string, string>
    requires forall i :: 0 <= i < |users| ==> UserPaired(users[i])
    requires forall j :: 0 <= j < |groups| ==> GroupPaired(groups[j])
  {
    ToMap(UserPairs(users) + GroupPairs(groups))
  }

  /** parse.py `make_sid_pairs`: a user record shorter than 9 fields, or a group record shorter
      than 7, makes `user[8]` or `group[6]` raise IndexError. */
  function MakeSidPairs(users: seq<Correlated>, groups: seq<Correlated>): (r: Result<map<string, string>>)
    ensures r.Success? <==>
      (forall i :: 0 <= i < |users| ==> |users[i].ext| >= 4) && (forall j :: 0 <= j < |groups| ==> |groups[j].ext| >= 2)
    ensures r.Failure? ==> r.error == IndexError
  {
    if (forall i :: 0 <= i < |users| ==> UserPaired(users[i])) && (forall j :: 0 <= j < |groups| ==> GroupPaired(groups[j]))
    then Success(SidTable(users, groups))
    else Failure(IndexError)
  }

  /** The map built from pairs holds exactly their keys, each with the value given last. */
  lemma {:induction false} ToMapMeaning(ps: seq<(string, string)>, k: string)
    ensures k in ToMap(ps) <==> exists i :: 0 <= i < |ps| && ps[i].0 == k
    ensures k in ToMap(ps) ==> LastValue(ps, k) == Some(ToMap(ps)[k])
  {
    if ps != [] {
      var init := ps[..|ps| - 1];
      ToMapMeaning(init, k);
      if k != ps[|ps| - 1].0 && exists i :: 0 <= i < |ps| && ps[i].0 == k {
        var i :| 0 <= i < |ps| && ps[i].0 == k;
        assert init[i] == ps[i];
      }
    }
  }

  lemma {:induction false} LastValueAppend(a: seq<(string, string)>, b: seq<(string, string)>, k: string)
    ensures LastValue(a + b, k) == if LastValue(b, k).Some? then LastValue(b, k) else LastValue(a, k)
    decreases |b|
  {
    if b == [] {
      assert a + b == a;
    } else {
      assert (a + b)[..|a + b| - 1] == a + b[..|b| - 1];
      LastValueAppend(a, b[..|b| - 1], k);
    }
  }

  lemma {:induction false} LastValueNone(ps: seq<(string, string)>, k: string)
    ensures LastValue(ps, k).None? <==> forall i :: 0 <= i < |ps| ==> ps[i].0 != k
  {
    if ps != [] {
      LastValueNone(ps[..|ps| - 1], k);
      if LastValue(ps, k).Some? && ps[|ps| - 1].0 != k {
        var i :| 0 <= i < |ps| - 1 && ps[..|ps| - 1][i].0 == k;
      }
    }
  }

  /** The reference meaning of the pairing table: the keys are exactly the source SIDs of the
      matched users and groups; a SID of some group maps to the target SID of the last such
      group (a group wins a collision with a user), any other SID to that of the last user
      with it. */
  lemma MakeSidPairsMeaning(users: seq<Correlated>, groups: seq<Correlated>, sid: string)
    requires forall i :: 0 <= i < |users| ==> UserPaired(users[i])
    requires forall j :: 0 <= j < |groups| ==> GroupPaired(groups[j])
    ensures sid in MakeSidPairs(users, groups).value <==>
      (exists i :: 0 <= i < |users| && users[i].account.sid == sid) || (exists j :: 0 <= j < |groups| && groups[j].account.sid == sid)
    ensures sid in MakeSidPairs(users, groups).value ==>
      Some(MakeSidPairs(users, groups).value[sid]) ==
        if LastValue(GroupPairs(groups), sid).Some? then LastValue(GroupPairs(groups), sid) else LastValue(UserPairs(users), sid)
  {
    var us, gs := UserPairs(users), GroupPairs(groups);
    assert MakeSidPairs(users, groups).value == ToMap(us + gs);
    ToMapMeaning(us + gs, sid);
    LastValueAppend(us, gs, sid);
    PairedKeys(users, groups, sid);
  }

  /** A SID is the key of one of the pairs exactly when some matched record has it. */
  lemma PairedKeys(users: seq<Correlated>, groups: seq<Correlated>, sid: string)
    requires forall i :: 0 <= i < |users| ==> UserPaired(users[i])
    requires forall j :: 0 <= j < |groups| ==> GroupPaired(groups[j])
    ensures (exists k :: 0 <= k < |UserPairs(users) + GroupPairs(groups)| && (UserPairs(users) + GroupPairs(groups))[k].0 == sid)
      <==> (exists i :: 0 <= i < |users| && users[i].account.sid == sid) || (exists j :: 0 <= j < |groups| && groups[j].account.sid == sid)
  {
    var ps := UserPairs(users) + GroupPairs(groups);
    if exists k :: 0 <= k < |ps| && ps[k].0 == sid {
      var k :| 0 <= k < |ps| && ps[k].0 == sid;
      if k < |users| {
        assert users[k].account.sid == sid;
      } else {
        assert groups[k - |users|].account.sid == sid;
      }
    }
    if exists i :: 0 <= i < |users| && users[i].account.sid == sid {
      var i :| 0 <= i < |users| && users[i].account.sid == sid;
      assert ps[i].0 == sid;
    }
    if exists j :: 0 <= j < |groups| && groups[j].account.sid == sid {
      var j :| 0 <= j < |groups| && groups[j].account.sid == sid;
      assert ps[|users| + j].0 == sid;
    }
  }

  /** The value for a SID is the target SID recorded on one of the matched records with that
      source SID. */
  lemma MakeSidPairsValues(users: seq<Correlated>, groups: seq<Correlated>, sid: string)
    requires forall i :: 0 <= i < |users| ==> UserPaired(users[i])
    requires forall j :: 0 <= j < |groups| ==> GroupPaired(groups[j])
    requires sid in MakeSidPairs(users, groups).value
    ensures (exists i :: 0 <= i < |users| && users[i].account.sid == sid && users[i].ext[3] == MakeSidPairs(users, groups).value[sid])
         || (exists j :: 0 <= j < |groups| && groups[j].account.sid == sid && groups[j].ext[1] == MakeSidPairs(users, groups).value[sid])
  {
    var ps := UserPairs(users) + GroupPairs(groups);
    ToMapMeaning(ps, sid);
    var i := LastValueIndex(ps, sid);
    if i < |users| {
      assert ps[i] == (users[i].account.sid, users[i].ext[3]);
    } else {
      assert ps[i] == (groups[i - |users|].account.sid, groups[i - |users|].ext[1]);
    }
  }

  /** Where the value given last for a key sits. */
  lemma {:induction false} LastValueIndex(ps: seq<(string, string)>, k: string) returns (i: nat)
    requires LastValue(ps, k).Some?
    ensures i < |ps| && ps[i].0 == k && LastValue(ps, k) == Some(ps[i].1)
  {
    if ps[|ps| - 1].0 == k {
      i := |ps| - 1;
    } else {
      i := LastValueIndex(ps[..|ps| - 1], k);
    }
  }
}
