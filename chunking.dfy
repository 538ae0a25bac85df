/** Pairing export lines into (path, payload) records and cutting a list into contiguous
    chunks for the worker pool (parse.py `chunkify` and `build_chunk`). */
module Chunking {
  import opened Common
  import opened Seqs

  /** One two-line record of the export: the path line and the payload line after it.
      An odd trailing path line has no payload (`zip_longest` pads it with `None`). */
  datatype LinePair = LinePair(path: string, payload: Option<string>)

  /** parse.py `chunkify`: consecutive slices of `size` elements, the last possibly shorter. */
  function Chunkify<T>(lst: seq<T>, size: nat): seq<seq<T>>
    requires size > 0
    decreases |lst|
  {
    if lst == [] then []
    else if |lst| <= size then [lst]
    else [lst[..size]] + Chunkify(lst[size..], size)
  }

  /** `zip_longest(*[iter(lines)] * 2, fillvalue=None)`: lines taken two at a time. */
  function PairLines(lines: seq<string>): seq<LinePair>
    decreases |lines|
  {
    if lines == [] then []
    else if |lines| == 1 then [LinePair(lines[0], None)]
    else [LinePair(lines[0], Some(lines[1]))] + PairLines(lines[2..])
  }

  /** parse.py `build_chunk`: pair the lines, take `len(pairs) // num_workers` as the chunk size,
      and chunk. A chunk size of 0 makes `range` raise ValueError. */
  function BuildChunk(lines: seq<string>, numWorkers: nat): Result<(seq<seq<LinePair>>, nat)>
    requires numWorkers >= 1
  {
    var pairs := PairLines(lines);
    var size := |pairs| / numWorkers;
    if size == 0 then Failure(ValueError) else Success((Chunkify(pairs, size), size))
  }

  /** Concatenating the chunks gives back the list. */
  lemma {:induction false} ChunkifyFlatten<T>(lst: seq<T>, size: nat)
    requires size > 0
    ensures Flatten(Chunkify(lst, size)) == lst
    decreases |lst|
  {
    if |lst| > size {
      ChunkifyFlatten(lst[size..], size);
      FlattenAppend([lst[..size]], Chunkify(lst[size..], size));
      assert Flatten([lst[..size]]) == lst[..size] by {
        assert [lst[..size]][..0] == [];
      }
      assert lst[..size] + lst[size..] == lst;
    } else if lst != [] {
      assert [lst][..0] == [];
    }
  }

  /** There are ceil(len / size) chunks. */
  lemma {:induction false} ChunkifyCount<T>(lst: seq<T>, size: nat)
    requires size > 0
    ensures |Chunkify(lst, size)| == (|lst| + size - 1) / size
    decreases |lst|
  {
    if |lst| > size {
      var rest := lst[size..];
      ChunkifyCount(rest, size);
      assert |lst| + size - 1 == (|rest| + size - 1) + size;
      DivStep(|rest| + size - 1, size);
    } else if lst != [] {
      DivUnique(|lst| + size - 1, size, 1, |lst| - 1);
    } else {
      DivUnique(size - 1, size, 0, size - 1);
    }
  }

  /** Every chunk holds exactly `size` elements except the last, which holds between 1 and
      `size`. */
  lemma {:induction false} ChunkifySizes<T>(lst: seq<T>, size: nat)
    requires size > 0
    ensures forall k :: 0 <= k < |Chunkify(lst, size)| - 1 ==> |Chunkify(lst, size)[k]| == size
    ensures lst != [] ==> 0 < |Chunkify(lst, size)[|Chunkify(lst, size)| - 1]| <= size
    decreases |lst|
  {
    var cs := Chunkify(lst, size);
    if |lst| > size {
      var rest := lst[size..];
      ChunkifySizes(rest, size);
      assert cs == [lst[..size]] + Chunkify(rest, size);
      forall k | 0 <= k < |cs| - 1 ensures |cs[k]| == size {
        if k > 0 { assert cs[k] == Chunkify(rest, size)[k - 1]; }
      }
    }
  }

  /** Record k pairs line 2k with line 2k+1, or with `None` when line 2k is the last line. */
  lemma {:induction false} PairLinesAt(lines: seq<string>, k: nat)
    requires k < (|lines| + 1) / 2
    ensures |PairLines(lines)| == (|lines| + 1) / 2
    ensures PairLines(lines)[k].path == lines[2 * k]
    ensures PairLines(lines)[k].payload == if 2 * k + 1 < |lines| then Some(lines[2 * k + 1]) else None
    decreases |lines|
  {
    if |lines| >= 2 {
      if k > 0 {
        PairLinesAt(lines[2..], k - 1);
      } else {
        PairLinesLength(lines[2..]);
      }
    }
  }

  lemma {:induction false} PairLinesLength(lines: seq<string>)
    ensures |PairLines(lines)| == (|lines| + 1) / 2
    decreases |lines|
  {
    if |lines| >= 2 {
      PairLinesLength(lines[2..]);
    }
  }

  /** Only an export with an odd number of lines gets a record without a payload, and then
      only the last record. */
  lemma {:induction false} PairLinesPadding(lines: seq<string>, k: nat)
    requires k < |PairLines(lines)|
    ensures PairLines(lines)[k].payload.None? <==> |lines| % 2 == 1 && k == |PairLines(lines)| - 1
  {
    PairLinesLength(lines);
    PairLinesAt(lines, k);
  }

  /** `build_chunk` fails exactly when there are fewer records than workers (an empty export
      included); otherwise its chunks concatenate to the records, in order. */
  lemma BuildChunkMeaning(lines: seq<string>, numWorkers: nat)
    requires numWorkers >= 1
    ensures BuildChunk(lines, numWorkers).Failure? <==> (|lines| + 1) / 2 < numWorkers
    ensures BuildChunk(lines, numWorkers).Success? ==>
      var (chunks, size) := BuildChunk(lines, numWorkers).value;
      size == ((|lines| + 1) / 2) / numWorkers && Flatten(chunks) == PairLines(lines)
  {
    PairLinesLength(lines);
    var n := |PairLines(lines)|;
    DivZero(n, numWorkers);
    if n / numWorkers > 0 {
      ChunkifyFlatten(PairLines(lines), n / numWorkers);
    }
  }

  lemma DivZero(n: nat, w: nat)
    requires w >= 1
    ensures n / w == 0 <==> n < w
  {
    if n >= w {
      var q, r := n / w, n % w;
      assert n == q * w + r;
    }
  }

  lemma MulAtLeast(a: int, d: int)
    requires a >= 1 && d > 0
    ensures a * d >= d
  {
  }

  /** Euclidean division has one quotient. */
  lemma DivUnique(x: int, d: int, q: int, r: int)
    requires d > 0 && 0 <= r < d && x == q * d + r
    ensures x / d == q
  {
    var q', r' := x / d, x % d;
    assert x == q' * d + r';
    if q > q' { MulAtLeast(q - q', d); }
    if q' > q { MulAtLeast(q' - q, d); }
  }

  lemma DivStep(x: nat, d: nat)
    requires d > 0
    ensures (x + d) / d == x / d + 1
  {
    var q, r := x / d, x % d;
    assert x + d == (q + 1) * d + r;
    DivUnique(x + d, d, q + 1, r);
  }

  /** The chunk count is not bounded by the worker count: with 5 records and 2 workers the
      chunk size is 2 and there are 3 chunks. */
  lemma MoreChunksThanWorkers()
    ensures var r := BuildChunk(["a", "1", "b", "2", "c", "3", "d", "4", "e", "5"], 2);
      r.Success? && r.value.1 == 2 && |r.value.0| == 3
  {
    var lines := ["a", "1", "b", "2", "c", "3", "d", "4", "e", "5"];
    PairLinesLength(lines);
    ChunkifyCount(PairLines(lines), 2);
  }
}
