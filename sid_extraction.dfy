/** Pulling the domain SIDs out of the ACE strings (parse.py `process_sids` and
    `find_unique_sids`). An ACE string is `(type;flags;rights;;;SID)` in the SDDL form of
    section 2.5.1 of MS-DTYP; the code finds its SID by splitting on `;;;`, which is right only
    when the two object-GUID fields are empty. */
module SidExtraction {
  import opened Common
  import opened Strings
  import opened Seqs
  import opened Payload

  /** The start of every domain-relative SID (section 2.4.2.1 of MS-DTYP string form). */
  const DomainSidPrefix: string := "S-1-5-21-"

  /** The run of empty GUID fields before the SID of an ACE string. */
  const SidSeparator: string := ";;;"

  /** `entry.split(';;;')[1]` exists; otherwise the code raises IndexError. */
  predicate WellFormedEntry(entry: string)
  {
    |Split(entry, SidSeparator)| >= 2
  }

  /** `entry.split(';;;')[1][:-1]`: the SID, with the closing `)` cut off. */
  function EntrySid(entry: string): string
    requires WellFormedEntry(entry)
  {
    DropLast(Split(entry, SidSeparator)[1])
  }

  /** `sid.startswith('S-1-5-21-')`. */
  predicate IsDomainSid(sid: string)
  {
    StartsWith(sid, DomainSidPrefix)
  }

  predicate AllWellFormed(entries: seq<string>)
  {
    forall k :: 0 <= k < |entries| ==> WellFormedEntry(entries[k])
  }

  predicate FilesWellFormed(files: seq<FileRecord>)
  {
    forall i :: 0 <= i < |files| ==> AllWellFormed(files[i].entries)
  }

  /** The domain SIDs named by a list of ACE strings. */
  function EntriesSids(entries: seq<string>): set<string>
    requires AllWellFormed(entries)
  {
    set k | 0 <= k < |entries| && IsDomainSid(EntrySid(entries[k])) :: EntrySid(entries[k])
  }

  /** A domain SID of one ACE string is among the list's. */
  lemma EntrySidIn(entries: seq<string>, m: nat)
    requires AllWellFormed(entries) && m < |entries| && IsDomainSid(EntrySid(entries[m]))
    ensures EntrySid(entries[m]) in EntriesSids(entries)
  {
  }

  /** The domain SIDs named anywhere in a list of records. */
  function FilesSids(files: seq<FileRecord>): set<string>
    requires FilesWellFormed(files)
  {
    set i, k | 0 <= i < |files| && 0 <= k < |files[i].entries| && IsDomainSid(EntrySid(files[i].entries[k]))
      :: EntrySid(files[i].entries[k])
  }

  /** parse.py `process_sids`: the set of domain SIDs in a chunk's ACE strings; an ACE string
      without `;;;` raises IndexError. */
  method ProcessSids(files: seq<FileRecord>) returns (r: Result<set<string>>)
    ensures r.Success? <==> FilesWellFormed(files)
    ensures r.Failure? ==> r.error == IndexError
    ensures r.Success? ==> r.value == FilesSids(files)
  {
    var sids: set<string> := {};
    for i := 0 to |files|
      invariant FilesWellFormed(files[..i])
      invariant sids == FilesSids(files[..i])
    {
      var fileSids := CurrentSids(files[i].entries);
      if fileSids.Failure? {
        return Failure(IndexError);
      }
      FilesSidsSnoc(files[..i], files[i]);
      assert files[..i + 1] == files[..i] + [files[i]];
      sids := sids + fileSids.value;
    }
    assert files[..|files|] == files;
    r := Success(sids);
  }

  /** The loop over one record's ACE strings that collects their domain SIDs, in
      `process_sids` (parse.py:37-40) and again in `match_chunk_perms` (parse.py:124-127); an
      ACE string without `;;;` raises IndexError. */
  method CurrentSids(entries: seq<string>) returns (r: Result<set<string>>)
    ensures r.Success? <==> AllWellFormed(entries)
    ensures r.Failure? ==> r.error == IndexError
    ensures r.Success? ==> r.value == EntriesSids(entries)
  {
    var current: set<string> := {};
    for k := 0 to |entries|
      invariant AllWellFormed(entries[..k])
      invariant current == EntriesSids(entries[..k])
    {
      var parts := Split(entries[k], SidSeparator);
      if |parts| < 2 {
        return Failure(IndexError);
      }
      var sid := DropLast(parts[1]);
      if StartsWith(sid, DomainSidPrefix) {
        current := current + {sid};
      }
      assert entries[..k + 1][..k] == entries[..k];
    }
    assert entries[..|entries|] == entries;
    r := Success(current);
  }

  lemma FilesSidsSnoc(files: seq<FileRecord>, f: FileRecord)
    requires FilesWellFormed(files) && AllWellFormed(f.entries)
    ensures FilesWellFormed(files + [f])
    ensures FilesSids(files + [f]) == FilesSids(files) + EntriesSids(f.entries)
  {
    assert FilesWellFormed([f]);
    FilesSidsAppend(files, [f]);
    assert FilesSids([f]) == EntriesSids(f.entries) by {
      forall s | s in EntriesSids(f.entries) ensures s in FilesSids([f]) {
        FilesSidsIn([f], 0);
      }
      forall s | s in FilesSids([f]) ensures s in EntriesSids(f.entries) {
        var i := FilesSidsFrom([f], s);
      }
    }
  }

  /** Every record's SIDs are among those of the list. */
  lemma FilesSidsIn(files: seq<FileRecord>, i: nat)
    requires FilesWellFormed(files) && i < |files|
    ensures EntriesSids(files[i].entries) <= FilesSids(files)
  {
    forall s | s in EntriesSids(files[i].entries) ensures s in FilesSids(files) {
      var k :| 0 <= k < |files[i].entries| && IsDomainSid(EntrySid(files[i].entries[k])) && s == EntrySid(files[i].entries[k]);
    }
  }

  /** A SID of the list comes from one of its records. */
  lemma FilesSidsFrom(files: seq<FileRecord>, s: string) returns (i: nat)
    requires FilesWellFormed(files) && s in FilesSids(files)
    ensures i < |files| && s in EntriesSids(files[i].entries)
  {
    var i', k :| 0 <= i' < |files| && 0 <= k < |files[i'].entries| && IsDomainSid(EntrySid(files[i'].entries[k]))
      && s == EntrySid(files[i'].entries[k]);
    i := i';
  }

  /** The union over chunks is the extraction over their concatenation. */
  lemma FilesSidsAppend(a: seq<FileRecord>, b: seq<FileRecord>)
    requires FilesWellFormed(a) && FilesWellFormed(b)
    ensures FilesWellFormed(a + b)
    ensures FilesSids(a + b) == FilesSids(a) + FilesSids(b)
  {
    var all := a + b;
    assert FilesWellFormed(all) by {
      forall i | 0 <= i < |all| ensures AllWellFormed(all[i].entries) {
        if i < |a| { assert all[i] == a[i]; } else { assert all[i] == b[i - |a|]; }
      }
    }
    forall s | s in FilesSids(all) ensures s in FilesSids(a) + FilesSids(b) {
      var i := FilesSidsFrom(all, s);
      if i < |a| {
        assert all[i] == a[i];
        FilesSidsIn(a, i);
      } else {
        assert all[i] == b[i - |a|];
        FilesSidsIn(b, i - |a|);
      }
    }
    forall s | s in FilesSids(a) ensures s in FilesSids(all) {
      var i := FilesSidsFrom(a, s);
      assert all[i] == a[i];
      FilesSidsIn(all, i);
    }
    forall s | s in FilesSids(b) ensures s in FilesSids(all) {
      var i := FilesSidsFrom(b, s);
      assert all[|a| + i] == b[i];
      FilesSidsIn(all, |a| + i);
    }
  }

  /** parse.py `find_unique_sids`: `process_sids` on every chunk (a sequential `pool.map`) and
      the union of the results. The result depends only on the concatenated records, not on
      how they were chunked. */
  method FindUniqueSids(chunkedFiles: seq<seq<FileRecord>>) returns (r: Result<set<string>>)
    ensures r.Success? <==> FilesWellFormed(Flatten(chunkedFiles))
    ensures r.Failure? ==> r.error == IndexError
    ensures r.Success? ==> r.value == FilesSids(Flatten(chunkedFiles))
  {
    var sids: set<string> := {};
    for c := 0 to |chunkedFiles|
      invariant FilesWellFormed(Flatten(chunkedFiles[..c]))
      invariant sids == FilesSids(Flatten(chunkedFiles[..c]))
    {
      var chunkSids := ProcessSids(chunkedFiles[c]);
      FlattenPrefix(chunkedFiles, c);
      if chunkSids.Failure? {
        IllFormedChunk(chunkedFiles, c);
        return chunkSids;
      }
      FilesSidsAppend(Flatten(chunkedFiles[..c]), chunkedFiles[c]);
      sids := sids + chunkSids.value;
    }
    assert chunkedFiles[..|chunkedFiles|] == chunkedFiles;
    r := Success(sids);
  }

  lemma IllFormedChunk(chunks: seq<seq<FileRecord>>, c: nat)
    requires c < |chunks| && !FilesWellFormed(chunks[c])
    ensures !FilesWellFormed(Flatten(chunks))
  {
    var i :| 0 <= i < |chunks[c]| && !AllWellFormed(chunks[c][i].entries);
    var at := FlattenIndex(chunks, c, i);
    assert !AllWellFormed(Flatten(chunks)[at].entries);
  }
}
