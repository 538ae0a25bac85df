/** Splitting each record's payload line into its ACE strings and its trailing audit segment
    (parse.py `process_chunk_lines` and `isolate_permissions`). */
module Payload {
  import opened Common
  import opened Strings
  import opened Seqs
  import opened Chunking

  /** Marker that starts the audit (SACL) segment of a payload line. */
  const AuditMarker: string := "S:"

  /** Character that opens every ACE string. */
  const AceOpen: string := "("

  /** parse.py's `[path, prefix, entries, sacl]`: the path, the text before the first ACE
      (the DACL header), the ACE strings in order, and the audit segment or `''`. */
  datatype FileRecord = FileRecord(path: string, prefix: string, entries: seq<string>, sacl: string)

  /** `'S:' in pline` and the split that follows: the text before the first marker, and the
      marker with the text up to the second marker (or `''` without a marker). */
  function AuditSplit(payload: string): (r: (string, string))
    ensures r.1 == [] <==> !Contains(payload, AuditMarker)
    ensures Contains(payload, AuditMarker) ==> StartsWith(r.1, AuditMarker)
  {
    if Contains(payload, AuditMarker) then
      SplitCount(payload, AuditMarker);
      var parts := Split(payload, AuditMarker);
      (parts[0], AuditMarker + parts[1])
    else (payload, "")
  }

  /** `pline.split('(')`: the text before the first `(`, and `'(' + piece` for every later
      piece. */
  function SplitEntries(pline: string): (string, seq<string>)
  {
    var fperms := Split(pline, AceOpen);
    (fperms[0], seq(|fperms| - 1, i requires 0 <= i < |fperms| - 1 => AceOpen + fperms[i + 1]))
  }

  /** The parsing of one payload line (the body of the loop in `process_chunk_lines`). */
  function ParseRecord(path: string, payload: string): FileRecord
  {
    var (pline, sacl) := AuditSplit(payload);
    var (prefix, entries) := SplitEntries(pline);
    FileRecord(path, prefix, entries, sacl)
  }

  /** The payload line as `match_chunk_perms` writes it back when nothing is added. */
  function Reassemble(r: FileRecord): string
  {
    r.prefix + Concat(r.entries) + r.sacl
  }

  /** parse.py `process_chunk_lines`: one record per pair, in order. A pair without a payload
      line makes `'S:' in None` raise TypeError. */
  method ProcessChunkLines(chunk: seq<LinePair>) returns (r: Result<seq<FileRecord>>)
    ensures r.Failure? <==> exists k :: 0 <= k < |chunk| && chunk[k].payload.None?
    ensures r.Failure? ==> r.error == TypeError
    ensures r.Success? ==> |r.value| == |chunk|
    ensures r.Success? ==> forall k :: 0 <= k < |chunk| ==>
      r.value[k] == ParseRecord(chunk[k].path, chunk[k].payload.value)
  {
    var fileList: seq<FileRecord> := [];
    for i := 0 to |chunk|
      invariant |fileList| == i
      invariant forall k :: 0 <= k < i ==> chunk[k].payload.Some?
      invariant forall k :: 0 <= k < i ==> fileList[k] == ParseRecord(chunk[k].path, chunk[k].payload.value)
    {
      if chunk[i].payload.None? {
        return Failure(TypeError);
      }
      fileList := fileList + [ParseRecord(chunk[i].path, chunk[i].payload.value)];
    }
    r := Success(fileList);
  }

  /** Every pair carries a payload line. */
  predicate AllPaired(pairs: seq<LinePair>)
  {
    forall k :: 0 <= k < |pairs| ==> pairs[k].payload.Some?
  }

  /** The records of a list of complete pairs. */
  function ParseAll(pairs: seq<LinePair>): (rs: seq<FileRecord>)
    requires AllPaired(pairs)
    ensures |rs| == |pairs|
  {
    seq(|pairs|, k requires 0 <= k < |pairs| => ParseRecord(pairs[k].path, pairs[k].payload.value))
  }

  /** parse.py `isolate_permissions`: parse every chunk (a sequential `pool.map`), flatten, and
      cut again into chunks of `chunk_size`. Any chunk's TypeError is the map's; after the
      map, a chunk size of 0 makes `range` raise ValueError. */
  method IsolatePermissions(chunkedLines: seq<seq<LinePair>>, chunkSize: nat) returns (r: Result<seq<seq<FileRecord>>>)
    ensures r.Failure? <==> !AllPaired(Flatten(chunkedLines)) || chunkSize == 0
    ensures r.Failure? ==> r.error == if AllPaired(Flatten(chunkedLines)) then ValueError else TypeError
    ensures r.Success? ==> r.value == Chunkify(ParseAll(Flatten(chunkedLines)), chunkSize)
  {
    var fileList: seq<FileRecord> := [];
    for c := 0 to |chunkedLines|
      invariant AllPaired(Flatten(chunkedLines[..c]))
      invariant fileList == ParseAll(Flatten(chunkedLines[..c]))
    {
      var parsed := ProcessChunkLines(chunkedLines[c]);
      if parsed.Failure? {
        var k :| 0 <= k < |chunkedLines[c]| && chunkedLines[c][k].payload.None?;
        FlattenSuffix(chunkedLines, c + 1, k);
        return Failure(parsed.error);
      }
      assert parsed.value == ParseAll(chunkedLines[c]);
      FlattenPrefix(chunkedLines, c);
      ParseAllAppend(Flatten(chunkedLines[..c]), chunkedLines[c]);
      fileList := fileList + parsed.value;
    }
    assert chunkedLines[..|chunkedLines|] == chunkedLines;
    if chunkSize == 0 {
      return Failure(ValueError);
    }
    r := Success(Chunkify(fileList, chunkSize));
  }

  /** Parsing two lists of pairs one after the other is parsing their concatenation. */
  lemma ParseAllAppend(a: seq<LinePair>, b: seq<LinePair>)
    requires AllPaired(a) && AllPaired(b)
    ensures AllPaired(a + b)
    ensures ParseAll(a + b) == ParseAll(a) + ParseAll(b)
  {
    assert AllPaired(a + b) by {
      forall k | 0 <= k < |a + b| ensures (a + b)[k].payload.Some? {
        if k < |a| { assert (a + b)[k] == a[k]; } else { assert (a + b)[k] == b[k - |a|]; }
      }
    }
  }

  lemma FlattenSuffix(chunks: seq<seq<LinePair>>, n: nat, k: nat)
    requires 0 < n <= |chunks| && k < |chunks[n - 1]| && chunks[n - 1][k].payload.None?
    ensures !AllPaired(Flatten(chunks))
  {
    var at := FlattenIndex(chunks, n - 1, k);
    assert Flatten(chunks)[at].payload.None?;
  }

  /** Gluing `'(' + piece` for every piece after the first back onto the first piece is
      joining with `'('`. */
  lemma {:induction false} ReopenJoin(fperms: seq<string>)
    requires |fperms| >= 1
    ensures fperms[0] + Concat(seq(|fperms| - 1, i requires 0 <= i < |fperms| - 1 => AceOpen + fperms[i + 1]))
            == Join(fperms, AceOpen)
    decreases |fperms|
  {
    var entries := seq(|fperms| - 1, i requires 0 <= i < |fperms| - 1 => AceOpen + fperms[i + 1]);
    if |fperms| > 1 {
      var rest := fperms[1..];
      ReopenJoin(rest);
      var restEntries := seq(|rest| - 1, i requires 0 <= i < |rest| - 1 => AceOpen + rest[i + 1]);
      assert entries == [AceOpen + fperms[1]] + restEntries;
      assert Concat(entries) == AceOpen + fperms[1] + Concat(restEntries);
    }
  }

  /** The prefix and the ACE strings concatenate back to the text they came from. */
  lemma SplitEntriesJoin(pline: string)
    ensures SplitEntries(pline).0 + Concat(SplitEntries(pline).1) == pline
  {
    ReopenJoin(Split(pline, AceOpen));
    SplitJoin(pline, AceOpen);
  }

  /** Round trip: a payload with at most one audit marker is rebuilt exactly from its record,
      and the path is kept. */
  lemma ParseRoundTrip(path: string, payload: string)
    requires |Split(payload, AuditMarker)| <= 2
    ensures ParseRecord(path, payload).path == path
    ensures Reassemble(ParseRecord(path, payload)) == payload
  {
    var (pline, sacl) := AuditSplit(payload);
    assert Reassemble(ParseRecord(path, payload)) == pline + sacl by {
      SplitEntriesJoin(pline);
    }
    AuditSplitJoin(payload);
  }

  /** With at most one audit marker, the two sides of the audit split concatenate back to the
      payload. */
  lemma AuditSplitJoin(payload: string)
    requires |Split(payload, AuditMarker)| <= 2
    ensures AuditSplit(payload).0 + AuditSplit(payload).1 == payload
  {
    SplitCount(payload, AuditMarker);
    if Contains(payload, AuditMarker) {
      var parts := Split(payload, AuditMarker);
      SplitJoin(payload, AuditMarker);
      assert parts == [parts[0]] + [parts[1]];
      JoinCons(parts[0], [parts[1]], AuditMarker);
    }
  }

  /** With two or more audit markers, the text from the second marker on is dropped: the
      rebuilt line is the payload cut just before its second marker. */
  lemma ParseDropsAfterSecondMarker(path: string, payload: string)
    requires |Split(payload, AuditMarker)| >= 3
    ensures var parts := Split(payload, AuditMarker);
      Reassemble(ParseRecord(path, payload)) == parts[0] + AuditMarker + parts[1]
    ensures |Reassemble(ParseRecord(path, payload))| < |payload|
  {
    var parts := Split(payload, AuditMarker);
    assert Reassemble(ParseRecord(path, payload)) == parts[0] + AuditMarker + parts[1] by {
      SplitCount(payload, AuditMarker);
      assert AuditSplit(payload) == (parts[0], AuditMarker + parts[1]);
      SplitEntriesJoin(parts[0]);
    }
    assert |payload| >= |parts[0] + AuditMarker + parts[1]| + |AuditMarker| by {
      SplitJoin(payload, AuditMarker);
      assert parts == [parts[0]] + parts[1..];
      JoinCons(parts[0], parts[1..], AuditMarker);
      assert parts[1..] == [parts[1]] + parts[2..];
      JoinCons(parts[1], parts[2..], AuditMarker);
    }
  }

  /** Every ACE string starts with `(` and holds no other `(`. */
  lemma EntryShape(path: string, payload: string, k: nat)
    requires k < |ParseRecord(path, payload).entries|
    ensures var e := ParseRecord(path, payload).entries[k];
      |e| >= 1 && e[0] == '(' && !Contains(e[1..], AceOpen)
  {
    var pline := AuditSplit(payload).0;
    SplitPiecesFree(pline, AceOpen, k + 1);
    var e := ParseRecord(path, payload).entries[k];
    assert e[1..] == Split(pline, AceOpen)[k + 1];
  }

  /** `isolate_permissions` keeps the shape `build_chunk` gave: chunk k of its result parses
      chunk k of the input, record for record. */
  lemma {:induction false} IsolateKeepsChunks(pairs: seq<LinePair>, size: nat)
    requires size > 0 && AllPaired(pairs)
    ensures ChunksPaired(Chunkify(pairs, size))
    ensures AllPaired(Flatten(Chunkify(pairs, size)))
    ensures Chunkify(ParseAll(Flatten(Chunkify(pairs, size))), size) == ParseChunks(Chunkify(pairs, size))
    decreases |pairs|
  {
    ChunkifyFlatten(pairs, size);
    var cs := Chunkify(pairs, size);
    assert ChunksPaired(cs) by {
      ChunkifyPaired(pairs, size);
    }
    if |pairs| > size {
      var first, rest := pairs[..size], pairs[size..];
      IsolateKeepsChunks(rest, size);
      ChunkifyFlatten(rest, size);
      var ps := ParseAll(pairs);
      assert Chunkify(ps, size) == [ps[..size]] + Chunkify(ps[size..], size);
      assert ps[..size] == ParseAll(first);
      assert ps[size..] == ParseAll(rest);
      assert cs == [first] + Chunkify(rest, size);
      assert ParseChunks(cs) == [ParseAll(first)] + ParseChunks(Chunkify(rest, size));
    } else if pairs != [] {
      assert cs == [pairs];
    }
  }

  lemma {:induction false} ChunkifyPaired(pairs: seq<LinePair>, size: nat)
    requires size > 0 && AllPaired(pairs)
    ensures ChunksPaired(Chunkify(pairs, size))
    decreases |pairs|
  {
    if |pairs| > size {
      ChunkifyPaired(pairs[size..], size);
      assert Chunkify(pairs, size) == [pairs[..size]] + Chunkify(pairs[size..], size);
      assert AllPaired(pairs[..size]);
    }
  }

  /** Every chunk consists of complete pairs. */
  predicate ChunksPaired(chunks: seq<seq<LinePair>>)
  {
    forall c :: 0 <= c < |chunks| ==> AllPaired(chunks[c])
  }

  /** Chunk-wise parsing: what the workers return before flattening. */
  function ParseChunks(chunks: seq<seq<LinePair>>): seq<seq<FileRecord>>
    requires ChunksPaired(chunks)
  {
    seq(|chunks|, c requires 0 <= c < |chunks| => ParseAll(chunks[c]))
  }
}
