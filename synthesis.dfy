/** Writing the new export: every ACE string is kept, and after each one whose SID has a
    pairing a copy naming the target SID is added, unless the record already names that SID
    (parse.py `match_chunk_perms` and `match_perms`). */
module Synthesis {
  import opened Common
  import opened Strings
  import opened Seqs
  import opened Payload
  import opened SidExtraction

  /** `f'{perm_string[0]};;;{target})'`: the ACE string's fields before the SID, with the
      target SID instead. */
  function Retarget(entry: string, target: string): string
    requires WellFormedEntry(entry)
  {
    Split(entry, SidSeparator)[0] + SidSeparator + target + ")"
  }

  /** The three tests of parse.py:132-134: a domain SID, paired, and its target not already
      among the record's domain SIDs. */
  predicate Applies(entry: string, pairs: map<string, string>, current: set<string>)
    requires WellFormedEntry(entry)
  {
    var sid := EntrySid(entry);
    IsDomainSid(sid) && sid in pairs && pairs[sid] !in current
  }

  /** `new_file_perms`: each ACE string, followed by its retargeted copy when the pairing
      applies. */
  function Augment(entries: seq<string>, pairs: map<string, string>, current: set<string>): seq<string>
    requires AllWellFormed(entries)
  {
    if entries == [] then []
    else
      var last := entries[|entries| - 1];
      Augment(entries[..|entries| - 1], pairs, current) + [last]
        + (if Applies(last, pairs, current) then [Retarget(last, pairs[EntrySid(last)])] else [])
  }

  /** One output record: path line, then header, ACE strings with additions and audit segment
      on the payload line. */
  function SynthesizeRecord(f: FileRecord, pairs: map<string, string>): string
    requires AllWellFormed(f.entries)
  {
    f.path + "\n" + f.prefix + Concat(Augment(f.entries, pairs, EntriesSids(f.entries))) + f.sacl + "\n"
  }

  /** The output strings of one chunk, one per record. */
  function SynthesizeChunk(chunk: seq<FileRecord>, pairs: map<string, string>): (out: seq<string>)
    requires FilesWellFormed(chunk)
    ensures |out| == |chunk|
  {
    seq(|chunk|, k requires 0 <= k < |chunk| => SynthesizeRecord(chunk[k], pairs))
  }

  /** The second loop of a record (parse.py:128-135). */
  method AugmentEntries(entries: seq<string>, pairs: map<string, string>, current: set<string>) returns (newPerms: seq<string>)
    requires AllWellFormed(entries)
    ensures newPerms == Augment(entries, pairs, current)
  {
    newPerms := [];
    for k := 0 to |entries|
      invariant newPerms == Augment(entries[..k], pairs, current)
    {
      AugmentSnoc(entries, k, pairs, current);
      var item := entries[k];
      newPerms := newPerms + [item];
      var permString := Split(item, SidSeparator);
      var oldSid := DropLast(permString[1]);
      if StartsWith(oldSid, DomainSidPrefix) {
        if oldSid in pairs {
          if pairs[oldSid] !in current {
            newPerms := newPerms + [permString[0] + SidSeparator + pairs[oldSid] + ")"];
          }
        }
      }
    }
    assert entries[..|entries|] == entries;
  }

  /** One more ACE string of the record: `Augment` on the longer prefix. */
  lemma AugmentSnoc(entries: seq<string>, k: nat, pairs: map<string, string>, current: set<string>)
    requires AllWellFormed(entries) && k < |entries|
    ensures AllWellFormed(entries[..k]) && AllWellFormed(entries[..k + 1])
    ensures Augment(entries[..k + 1], pairs, current) == Augment(entries[..k], pairs, current) + [entries[k]]
      + (if Applies(entries[k], pairs, current) then [Retarget(entries[k], pairs[EntrySid(entries[k])])] else [])
  {
    assert entries[..k + 1][..k] == entries[..k];
  }

  /** parse.py `match_chunk_perms`: one output string per record, in order; an ACE string
      without `;;;` anywhere in the chunk raises IndexError. */
  method MatchChunkPerms(chunk: seq<FileRecord>, pairs: map<string, string>) returns (r: Result<seq<string>>)
    ensures r.Success? <==> FilesWellFormed(chunk)
    ensures r.Failure? ==> r.error == IndexError
    ensures r.Success? ==> r.value == SynthesizeChunk(chunk, pairs)
  {
    var newPerms: seq<string> := [];
    for i := 0 to |chunk|
      invariant |newPerms| == i
      invariant FilesWellFormed(chunk[..i])
      invariant forall k :: 0 <= k < i ==> AllWellFormed(chunk[k].entries) && newPerms[k] == SynthesizeRecord(chunk[k], pairs)
    {
      var file := chunk[i];
      var current := CurrentSids(file.entries);
      if current.Failure? {
        return Failure(current.error);
      }
      var newFilePerms := AugmentEntries(file.entries, pairs, current.value);
      newPerms := newPerms + [file.path + "\n" + file.prefix + Concat(newFilePerms) + file.sacl + "\n"];
      assert chunk[..i + 1][i] == file;
    }
    r := Success(newPerms);
  }

  /** parse.py `match_perms`: `match_chunk_perms` on every chunk (a sequential `pool.map`);
      the result keeps the chunks, and any chunk's IndexError is the map's. */
  method MatchPerms(chunkedFiles: seq<seq<FileRecord>>, pairs: map<string, string>) returns (r: Result<seq<seq<string>>>)
    ensures r.Success? <==> forall c :: 0 <= c < |chunkedFiles| ==> FilesWellFormed(chunkedFiles[c])
    ensures r.Failure? ==> r.error == IndexError
    ensures r.Success? ==> |r.value| == |chunkedFiles|
    ensures r.Success? ==> forall c :: 0 <= c < |chunkedFiles| ==> r.value[c] == SynthesizeChunk(chunkedFiles[c], pairs)
  {
    var out: seq<seq<string>> := [];
    for c := 0 to |chunkedFiles|
      invariant |out| == c
      invariant forall d :: 0 <= d < c ==> FilesWellFormed(chunkedFiles[d]) && out[d] == SynthesizeChunk(chunkedFiles[d], pairs)
    {
      var chunkOut := MatchChunkPerms(chunkedFiles[c], pairs);
      if chunkOut.Failure? {
        return Failure(chunkOut.error);
      }
      out := out + [chunkOut.value];
    }
    r := Success(out);
  }

  /** Every original ACE string survives, unchanged and in order. */
  lemma {:induction false} AugmentKeepsOriginals(entries: seq<string>, pairs: map<string, string>, current: set<string>)
    requires AllWellFormed(entries)
    ensures IsSubsequence(entries, Augment(entries, pairs, current))
    ensures |Augment(entries, pairs, current)| >= |entries|
  {
    if entries != [] {
      var init, last := entries[..|entries| - 1], entries[|entries| - 1];
      var a := Augment(init, pairs, current);
      AugmentKeepsOriginals(init, pairs, current);
      assert (a + [last])[..|a|] == a;
      assert IsSubsequence(entries, a + [last]) by {
        assert entries[..|entries| - 1] == init;
      }
      if Applies(last, pairs, current) {
        SubsequenceExtend(entries, a + [last], Retarget(last, pairs[EntrySid(last)]));
      } else {
        assert a + [last] + [] == a + [last];
      }
    }
  }

  /** What the output holds: the original ACE strings, and a retargeted copy of exactly those
      whose pairing applies, that is whose target SID the record did not already name. */
  lemma {:induction false} AugmentMembers(entries: seq<string>, pairs: map<string, string>, current: set<string>, x: string)
    requires AllWellFormed(entries)
    ensures x in Augment(entries, pairs, current) <==>
      x in entries
      || exists k :: 0 <= k < |entries| && Applies(entries[k], pairs, current)
           && x == Retarget(entries[k], pairs[EntrySid(entries[k])])
  {
    if entries != [] {
      var init, last := entries[..|entries| - 1], entries[|entries| - 1];
      AugmentMembers(init, pairs, current, x);
      InitLast(entries);
      if exists k :: 0 <= k < |entries| && Applies(entries[k], pairs, current)
           && x == Retarget(entries[k], pairs[EntrySid(entries[k])]) {
        var k :| 0 <= k < |entries| && Applies(entries[k], pairs, current)
           && x == Retarget(entries[k], pairs[EntrySid(entries[k])]);
        if k < |init| { assert init[k] == entries[k]; }
      }
    }
  }

  /** With no pairing that applies, the ACE strings are written back as they were. */
  lemma {:induction false} AugmentNoOp(entries: seq<string>, pairs: map<string, string>, current: set<string>)
    requires AllWellFormed(entries)
    requires forall k :: 0 <= k < |entries| ==> !Applies(entries[k], pairs, current)
    ensures Augment(entries, pairs, current) == entries
  {
    if entries != [] {
      var init, last := entries[..|entries| - 1], entries[|entries| - 1];
      assert AllWellFormed(init) && forall k :: 0 <= k < |init| ==> !Applies(init[k], pairs, current) by {
        forall k | 0 <= k < |init| ensures init[k] == entries[k] { }
      }
      AugmentNoOp(init, pairs, current);
      assert !Applies(last, pairs, current);
      assert Augment(entries, pairs, current) == init + [last];
      InitLast(entries);
    }
  }

  /** With no pairing that applies, a record is written back as its path line and its
      reassembled payload line. */
  lemma SynthesizeUnchanged(f: FileRecord, pairs: map<string, string>)
    requires AllWellFormed(f.entries)
    requires forall k :: 0 <= k < |f.entries| ==> !Applies(f.entries[k], pairs, EntriesSids(f.entries))
    ensures SynthesizeRecord(f, pairs) == f.path + "\n" + Reassemble(f) + "\n"
  {
    AugmentNoOp(f.entries, pairs, EntriesSids(f.entries));
  }

  /** A record parsed from a payload with at most one audit marker, none of whose SIDs has a
      pairing that applies, is written back as its two input lines. */
  lemma SynthesizeNoOp(path: string, payload: string, pairs: map<string, string>)
    requires |Split(payload, AuditMarker)| <= 2
    requires AllWellFormed(ParseRecord(path, payload).entries)
    requires var es := ParseRecord(path, payload).entries;
      forall k :: 0 <= k < |es| ==> !Applies(es[k], pairs, EntriesSids(es))
    ensures SynthesizeRecord(ParseRecord(path, payload), pairs) == path + "\n" + payload + "\n"
  {
    var f := ParseRecord(path, payload);
    SynthesizeUnchanged(f, pairs);
    ParseRoundTrip(path, payload);
  }

  /** The retargeted copy is itself a well-formed ACE string whose SID is the target. */
  lemma RetargetSid(entry: string, target: string)
    requires WellFormedEntry(entry)
    requires forall i :: 0 <= i < |target| ==> target[i] != ';'
    ensures WellFormedEntry(Retarget(entry, target))
    ensures EntrySid(Retarget(entry, target)) == target
  {
    var tail := target + ")";
    assert Retarget(entry, target) == Split(entry, SidSeparator)[0] + SidSeparator + tail;
    FirstPieceIsolated(entry, SidSeparator, tail);
    NoSeparatorIn(target);
    SplitCount(tail, SidSeparator);
  }

  lemma NoSeparatorIn(target: string)
    requires forall i :: 0 <= i < |target| ==> target[i] != ';'
    ensures !Contains(target + ")", SidSeparator)
  {
    var tail := target + ")";
    forall i | 0 <= i <= |tail| - |SidSeparator| ensures !OccursAt(tail, SidSeparator, i) {
      assert tail[i] == target[i];
    }
  }

  /** Target SIDs as `ConvertSidToStringSid` writes them for another domain: domain SIDs, with no
      `;`, and never themselves a source SID of the table. */
  predicate TargetsAreFresh(pairs: map<string, string>)
  {
    forall s :: s in pairs ==>
      IsDomainSid(pairs[s]) && pairs[s] !in pairs && forall i :: 0 <= i < |pairs[s]| ==> pairs[s][i] != ';'
  }

  /** Running synthesis again over its own output, with the same table, adds nothing: every
      target SID it could add is already named. */
  lemma AugmentIdempotent(entries: seq<string>, pairs: map<string, string>)
    requires AllWellFormed(entries)
    requires TargetsAreFresh(pairs)
    ensures AllWellFormed(Augment(entries, pairs, EntriesSids(entries)))
    ensures var once := Augment(entries, pairs, EntriesSids(entries));
      Augment(once, pairs, EntriesSids(once)) == once
  {
    var current := EntriesSids(entries);
    var once := Augment(entries, pairs, current);
    forall k | 0 <= k < |once| ensures WellFormedEntry(once[k]) {
      AugmentMembers(entries, pairs, current, once[k]);
      if once[k] !in entries {
        var j :| 0 <= j < |entries| && Applies(entries[j], pairs, current)
          && once[k] == Retarget(entries[j], pairs[EntrySid(entries[j])]);
        RetargetSid(entries[j], pairs[EntrySid(entries[j])]);
      }
    }
    var again := EntriesSids(once);
    forall k | 0 <= k < |once| ensures !Applies(once[k], pairs, again) {
      NotAppliesAgain(entries, pairs, once[k]);
    }
    AugmentNoOp(once, pairs, again);
  }

  /** Why target SIDs must not be source SIDs of the table: with `a -> b` and `b -> c`, a
      record naming `a` gains a copy for `b` on the first run, and that copy gains one for `c`
      on the second. */
  lemma AugmentChainGrows(e: string, b: string, c: string)
    requires WellFormedEntry(e) && IsDomainSid(EntrySid(e))
    requires IsDomainSid(b) && forall i :: 0 <= i < |b| ==> b[i] != ';'
    requires forall i :: 0 <= i < |c| ==> c[i] != ';'
    requires EntrySid(e) != b && EntrySid(e) != c && b != c
    ensures var pairs := map[EntrySid(e) := b, b := c];
      var once := Augment([e], pairs, EntriesSids([e]));
      once == [e, Retarget(e, b)] && AllWellFormed(once)
      && WellFormedEntry(Retarget(e, b))
      && Retarget(Retarget(e, b), c) in Augment(once, pairs, EntriesSids(once))
      && Retarget(Retarget(e, b), c) !in once
  {
    var a := EntrySid(e);
    var pairs := map[a := b, b := c];
    SingleEntry(e, pairs);
    var copy := Retarget(e, b);
    RetargetSid(e, b);
    var once := [e, copy];
    assert Augment([e], pairs, EntriesSids([e])) == once;
    var again := EntriesSids(once);
    assert once[1] == copy;
    EntrySidIn(once, 1);
    assert Applies(copy, pairs, again) by {
      forall x | x in again ensures x == a || x == b {
        var k :| 0 <= k < |once| && IsDomainSid(EntrySid(once[k])) && x == EntrySid(once[k]);
      }
    }
    var extra := Retarget(copy, c);
    RetargetSid(copy, c);
    AugmentMembers(once, pairs, again, extra);
    assert extra !in once by {
      assert EntrySid(extra) == c;
    }
  }

  /** Why target SIDs must be domain SIDs: the record's current SIDs keep only domain SIDs,
      so a copy naming another kind of SID (a builtin group, say) is added again on every run. */
  lemma NonDomainTargetGrows(e: string, t: string)
    requires WellFormedEntry(e) && IsDomainSid(EntrySid(e))
    requires !IsDomainSid(t) && forall i :: 0 <= i < |t| ==> t[i] != ';'
    ensures var pairs := map[EntrySid(e) := t];
      var once := Augment([e], pairs, EntriesSids([e]));
      once == [e, Retarget(e, t)] && AllWellFormed(once)
      && Augment(once, pairs, EntriesSids(once)) == once + [Retarget(e, t)]
  {
    var a := EntrySid(e);
    var pairs := map[a := t];
    SingleEntry(e, pairs);
    var copy := Retarget(e, t);
    RetargetSid(e, t);
    var once := [e, copy];
    assert Augment([e], pairs, EntriesSids([e])) == once;
    assert once[0] == e && once[1] == copy;
    var again := EntriesSids(once);
    assert again == EntriesSids([e]) by {
      forall x | x in again ensures x == a {
        var k :| 0 <= k < |once| && IsDomainSid(EntrySid(once[k])) && x == EntrySid(once[k]);
      }
      EntrySidIn(once, 0);
    }
    assert once[..1] == [e];
    assert !Applies(copy, pairs, again);
    assert Augment(once, pairs, again) == Augment([e], pairs, again) + [copy];
  }

  lemma NotAppliesAgain(entries: seq<string>, pairs: map<string, string>, x: string)
    requires AllWellFormed(entries)
    requires TargetsAreFresh(pairs)
    requires AllWellFormed(Augment(entries, pairs, EntriesSids(entries)))
    requires x in Augment(entries, pairs, EntriesSids(entries))
    ensures WellFormedEntry(x)
    ensures var once := Augment(entries, pairs, EntriesSids(entries));
      !Applies(x, pairs, EntriesSids(once))
  {
    var current := EntriesSids(entries);
    var once := Augment(entries, pairs, current);
    var again := EntriesSids(once);
    AugmentMembers(entries, pairs, current, x);
    if x in entries {
      var sid := EntrySid(x);
      if IsDomainSid(sid) && sid in pairs {
        var t := pairs[sid];
        if t in current {
          var j :| 0 <= j < |entries| && IsDomainSid(EntrySid(entries[j])) && EntrySid(entries[j]) == t;
          AugmentMembers(entries, pairs, current, entries[j]);
          var m := MemberIndex(once, entries[j]);
          EntrySidIn(once, m);
        } else {
          var j := MemberIndex(entries, x);
          AugmentMembers(entries, pairs, current, Retarget(x, t));
          RetargetSid(x, t);
          var m := MemberIndex(once, Retarget(x, t));
          EntrySidIn(once, m);
        }
      }
    } else {
      var j :| 0 <= j < |entries| && Applies(entries[j], pairs, current)
        && x == Retarget(entries[j], pairs[EntrySid(entries[j])]);
      RetargetSid(entries[j], pairs[EntrySid(entries[j])]);
    }
  }

  /** A single full-control ACE for a source-domain user, paired with a target-domain user,
      gains a second ACE for the target SID. */
  lemma ScenarioSingleAce(e: string, pairs: map<string, string>)
    requires e == "(A;OI;FA;;;S-1-5-21-1-1-1-500)"
    requires pairs == map["S-1-5-21-1-1-1-500" := "S-1-5-21-2-2-2-777"]
    ensures WellFormedEntry(e) && EntrySid(e) == "S-1-5-21-1-1-1-500"
    ensures Augment([e], pairs, EntriesSids([e])) == [e, "(A;OI;FA;;;S-1-5-21-2-2-2-777)"]
  {
    ScenarioEntryFields(e);
    SingleEntry(e, pairs);
  }

  lemma ScenarioEntryFields(e: string)
    requires e == "(A;OI;FA;;;S-1-5-21-1-1-1-500)"
    ensures WellFormedEntry(e) && EntrySid(e) == "S-1-5-21-1-1-1-500"
    ensures IsDomainSid(EntrySid(e))
    ensures Retarget(e, "S-1-5-21-2-2-2-777") == "(A;OI;FA;;;S-1-5-21-2-2-2-777)"
  {
    ScenarioEntrySplit(e);
    ScenarioSid("S-1-5-21-1-1-1-500" + ")");
    ScenarioRetarget(e);
    ScenarioLiteral("(A;OI;FA" + SidSeparator + "S-1-5-21-2-2-2-777" + ")");
  }

  lemma ScenarioRetarget(e: string)
    requires e == "(A;OI;FA;;;S-1-5-21-1-1-1-500)"
    ensures WellFormedEntry(e)
    ensures Retarget(e, "S-1-5-21-2-2-2-777") == "(A;OI;FA" + SidSeparator + "S-1-5-21-2-2-2-777" + ")"
  {
    ScenarioEntrySplit(e);
  }

  lemma ScenarioLiteral(x: string)
    requires x == "(A;OI;FA" + SidSeparator + "S-1-5-21-2-2-2-777" + ")"
    ensures x == "(A;OI;FA;;;S-1-5-21-2-2-2-777)"
  {
  }

  lemma ScenarioSid(piece: string)
    requires piece == "S-1-5-21-1-1-1-500)"
    ensures DropLast(piece) == "S-1-5-21-1-1-1-500" && IsDomainSid(DropLast(piece))
  {
    assert piece == "S-1-5-21-1-1-1-500" + [')'];
  }

  /** Synthesis of a record with one ACE string. */
  lemma SingleEntry(e: string, pairs: map<string, string>)
    requires WellFormedEntry(e)
    ensures EntriesSids([e]) == if IsDomainSid(EntrySid(e)) then {EntrySid(e)} else {}
    ensures Augment([e], pairs, EntriesSids([e])) == [e] +
      (if Applies(e, pairs, EntriesSids([e])) then [Retarget(e, pairs[EntrySid(e)])] else [])
  {
    assert [e][..0] == [];
    var sids := EntriesSids([e]);
    assert [e][0] == e;
    forall x | x in sids ensures x == EntrySid(e) && IsDomainSid(x) {
    }
    if IsDomainSid(EntrySid(e)) {
      assert EntrySid(e) in sids;
    }
  }

  lemma ScenarioEntrySplit(e: string)
    requires e == "(A;OI;FA;;;S-1-5-21-1-1-1-500)"
    ensures Split(e, SidSeparator) == ["(A;OI;FA", "S-1-5-21-1-1-1-500)"]
  {
    ScenarioEntryShape(e);
    NoSeparatorIn("S-1-5-21-1-1-1-500");
    SplitOnceAt(e, SidSeparator, 8);
  }

  lemma ScenarioEntryShape(e: string)
    requires e == "(A;OI;FA;;;S-1-5-21-1-1-1-500)"
    ensures forall j: nat :: j < 8 ==> !OccursAt(e, SidSeparator, j)
    ensures OccursAt(e, SidSeparator, 8)
    ensures e[..8] == "(A;OI;FA" && e[11..] == "S-1-5-21-1-1-1-500" + ")"
  {
    forall j: nat | j < 8 ensures !OccursAt(e, SidSeparator, j) {
      assert e[j] != ';' || e[j + 1] != ';';
    }
    assert e[8..11] == SidSeparator by {
      assert e[8] == ';' && e[9] == ';' && e[10] == ';';
    }
  }
}
