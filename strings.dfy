/** Python's string operations that the export parser and the matchers rely on. */
module Strings {
  import opened Common

  /** `sub` occurs in `s` starting at index `i`. */
  predicate OccursAt(s: string, sub: string, i: int)
  {
    0 <= i && i + |sub| <= |s| && s[i..i + |sub|] == sub
  }

  /** Python's `sub in s`. */
  predicate Contains(s: string, sub: string)
  {
    exists i | 0 <= i <= |s| - |sub| :: OccursAt(s, sub, i)
  }

  /** Python's `s.startswith(prefix)`. */
  predicate StartsWith(s: string, prefix: string)
  {
    |prefix| <= |s| && s[..|prefix|] == prefix
  }

  /** The first occurrence of `sep` in `s` at or after index `from`. */
  function FindFrom(s: string, sep: string, from: nat): (r: Option<nat>)
    ensures r.Some? ==> from <= r.value && OccursAt(s, sep, r.value)
    ensures forall j: nat :: from <= j && (r.None? || j < r.value) ==> !OccursAt(s, sep, j)
    decreases |s| - from
  {
    if |s| < from + |sep| then None
    else if OccursAt(s, sep, from) then Some(from)
    else FindFrom(s, sep, from + 1)
  }

  /** Python's `s.find(sep)`, with `None` for -1. */
  function Find(s: string, sep: string): (r: Option<nat>)
    ensures r.None? <==> !Contains(s, sep)
    ensures r.Some? ==> OccursAt(s, sep, r.value)
    ensures r.Some? ==> forall j: nat :: j < r.value ==> !OccursAt(s, sep, j)
  {
    FindFrom(s, sep, 0)
  }

  /** Python's `s.split(sep)` for a non-empty separator. */
  function Split(s: string, sep: string): (parts: seq<string>)
    requires sep != []
    ensures |parts| >= 1
    decreases |s|
  {
    match Find(s, sep)
    case None => [s]
    case Some(i) => [s[..i]] + Split(s[i + |sep|..], sep)
  }

  /** Python's `sep.join(parts)`. */
  function Join(parts: seq<string>, sep: string): string
  {
    if parts == [] then []
    else if |parts| == 1 then parts[0]
    else parts[0] + sep + Join(parts[1..], sep)
  }

  /** Python's `''.join(parts)`. */
  function Concat(parts: seq<string>): string
  {
    if parts == [] then [] else parts[0] + Concat(parts[1..])
  }

  /** Python's `s[:-1]`: every character but the last; empty stays empty. */
  function DropLast(s: string): (r: string)
    ensures |s| > 0 ==> s == r + [s[|s| - 1]]
    ensures |s| == 0 ==> r == []
  {
    if s == [] then [] else s[..|s| - 1]
  }

  /** Splitting and joining back with the same separator gives the original string. */
  lemma {:induction false} SplitJoin(s: string, sep: string)
    requires sep != []
    ensures Join(Split(s, sep), sep) == s
    decreases |s|
  {
    match Find(s, sep)
    case None =>
    case Some(i) =>
      var rest := s[i + |sep|..];
      SplitJoin(rest, sep);
      SplitAtFound(s, sep, i);
      JoinCons(s[..i], Split(rest, sep), sep);
      assert s == s[..i] + sep + rest by {
        assert s == s[..i] + s[i..i + |sep|] + rest;
      }
  }

  /** Splitting at the first occurrence that `Find` reports. */
  lemma SplitAtFound(s: string, sep: string, i: nat)
    requires sep != [] && Find(s, sep) == Some(i)
    ensures Split(s, sep) == [s[..i]] + Split(s[i + |sep|..], sep)
  {
  }

  /** Joining a first piece in front of at least one more. */
  lemma JoinCons(first: string, rest: seq<string>, sep: string)
    requires rest != []
    ensures Join([first] + rest, sep) == first + sep + Join(rest, sep)
  {
    assert ([first] + rest)[1..] == rest;
  }

  /** No piece of a split contains the separator. */
  lemma {:induction false} SplitPiecesFree(s: string, sep: string, k: nat)
    requires sep != []
    requires k < |Split(s, sep)|
    ensures !Contains(Split(s, sep)[k], sep)
    decreases |s|
  {
    match Find(s, sep)
    case None =>
    case Some(i) =>
      if k == 0 {
        FirstPieceFree(s, sep, i);
      } else {
        var rest := s[i + |sep|..];
        assert !Contains(Split(s, sep)[k], sep) by {
          SplitLaterPiece(s, sep, i, k);
          SplitPiecesFree(rest, sep, k - 1);
        }
      }
  }

  /** Piece `k > 0` of a split is piece `k - 1` of the split of the text after the first
      occurrence. */
  lemma SplitLaterPiece(s: string, sep: string, i: nat, k: nat)
    requires sep != [] && Find(s, sep) == Some(i)
    requires 0 < k < |Split(s, sep)|
    ensures k - 1 < |Split(s[i + |sep|..], sep)|
    ensures Split(s, sep)[k] == Split(s[i + |sep|..], sep)[k - 1]
  {
    SplitAtFound(s, sep, i);
  }

  /** The text before the first occurrence holds no occurrence. */
  lemma FirstPieceFree(s: string, sep: string, i: nat)
    requires sep != [] && Find(s, sep) == Some(i)
    ensures !Contains(Split(s, sep)[0], sep)
  {
    SplitAtFound(s, sep, i);
    var piece := s[..i];
    forall j | 0 <= j <= |piece| - |sep| ensures !OccursAt(piece, sep, j) {
      assert piece[j..j + |sep|] == s[j..j + |sep|];
      assert !OccursAt(s, sep, j);
    }
  }

  /** Splitting at a known first occurrence of the separator. */
  lemma SplitAtFirst(s: string, sep: string, i: nat)
    requires sep != []
    requires OccursAt(s, sep, i)
    requires forall j: nat :: j < i ==> !OccursAt(s, sep, j)
    ensures Split(s, sep) == [s[..i]] + Split(s[i + |sep|..], sep)
  {
    assert Find(s, sep) == Some(i);
  }

  /** A string with exactly one occurrence of the separator splits into two pieces. */
  lemma SplitOnceAt(s: string, sep: string, i: nat)
    requires sep != []
    requires OccursAt(s, sep, i)
    requires forall j: nat :: j < i ==> !OccursAt(s, sep, j)
    requires !Contains(s[i + |sep|..], sep)
    ensures Split(s, sep) == [s[..i], s[i + |sep|..]]
  {
    SplitAtFirst(s, sep, i);
    SplitCount(s[i + |sep|..], sep);
  }

  /** A string splits into more than one piece exactly when it contains the separator. */
  lemma SplitCount(s: string, sep: string)
    requires sep != []
    ensures !Contains(s, sep) <==> Split(s, sep) == [s]
    ensures Contains(s, sep) <==> |Split(s, sep)| >= 2
  {
    if Contains(s, sep) {
      var i := Find(s, sep).value;
      assert |Split(s, sep)| == 1 + |Split(s[i + |sep|..], sep)|;
    }
  }

  /** The text before the first separator can be re-used in front of the separator: splitting
      `first + sep + b` cuts at the same place again. */
  lemma FirstPieceIsolated(s: string, sep: string, b: string)
    requires sep != []
    requires |Split(s, sep)| >= 2
    ensures Split(Split(s, sep)[0] + sep + b, sep) == [Split(s, sep)[0]] + Split(b, sep)
  {
    SplitCount(s, sep);
    var i := Find(s, sep).value;
    var a := s[..i];
    assert Split(s, sep)[0] == a;
    var t := a + sep + b;
    assert OccursAt(t, sep, i) by { assert t[i..i + |sep|] == sep; }
    assert t[..i + |sep|] == s[..i + |sep|];
    assert i + |sep| <= |s|;
    forall j: nat | j < i ensures !OccursAt(t, sep, j) {
      assert t[j..j + |sep|] == s[j..j + |sep|] by {
        SliceOfPrefix(t, i + |sep|, j, j + |sep|);
        SliceOfPrefix(s, i + |sep|, j, j + |sep|);
      }
      assert !OccursAt(s, sep, j);
    }
    SplitAtFirst(t, sep, i);
    assert t[..i] == a && t[i + |sep|..] == b;
  }

  lemma SliceOfPrefix(s: string, n: nat, j: nat, m: nat)
    requires j <= m <= n <= |s|
    ensures s[..n][j..m] == s[j..m]
  {
  }

  /** Python's `str.isspace()` for one character (the Unicode white space set Python uses). */
  predicate IsSpace(c: char)
  {
    var n := c as int;
    n == 0x20 || (0x09 <= n <= 0x0D) || (0x1C <= n <= 0x1F) || n == 0x85 || n == 0xA0
    || n == 0x1680 || (0x2000 <= n <= 0x200A) || n == 0x2028 || n == 0x2029
    || n == 0x202F || n == 0x205F || n == 0x3000
  }

  /** Length of the run of non-space characters that starts `s`. */
  function WordLength(s: string): (n: nat)
    ensures n <= |s|
    ensures forall i :: 0 <= i < n ==> !IsSpace(s[i])
    ensures n < |s| ==> IsSpace(s[n])
  {
    if s == [] || IsSpace(s[0]) then 0 else 1 + WordLength(s[1..])
  }

  /** Python's `s.split()`: the maximal runs of non-space characters, in order. */
  function Words(s: string): (ws: seq<string>)
    ensures forall k :: 0 <= k < |ws| ==> ws[k] != []
    ensures forall k, i :: 0 <= k < |ws| && 0 <= i < |ws[k]| ==> !IsSpace(ws[k][i])
    decreases |s|
  {
    if s == [] then []
    else if IsSpace(s[0]) then Words(s[1..])
    else
      var n := WordLength(s);
      [s[..n]] + Words(s[n..])
  }

  /** Python's `s.split()[0]`; `None` where Python raises IndexError. */
  function FirstWord(s: string): (r: Option<string>)
    ensures r.Some? ==> r.value != [] && r.value in Words(s)
  {
    var ws := Words(s);
    if ws == [] then None else Some(ws[0])
  }

  /** `s.split()` is empty exactly when `s` is nothing but white space. */
  lemma {:induction false} WordsEmpty(s: string)
    ensures Words(s) == [] <==> forall i :: 0 <= i < |s| ==> IsSpace(s[i])
    decreases |s|
  {
    if s != [] && IsSpace(s[0]) {
      WordsEmpty(s[1..]);
      if forall i :: 0 <= i < |s[1..]| ==> IsSpace(s[1..][i]) {
        forall i | 0 <= i < |s| ensures IsSpace(s[i]) {
          if i > 0 { assert s[i] == s[1..][i - 1]; }
        }
      }
    }
  }
}
