/**
 * `Report.grouper`: splits a sequence into consecutive groups of at most
 * `chunk_size` elements by repeatedly pulling an `islice` of that length from
 * one shared iterator, stopping at the first empty pull.
 */
module Grouper {
  import opened Wrappers

  /** `sys.maxsize` on a 64-bit build: the largest stop `islice` accepts. */
  const MaxSize: int := 0x7fff_ffff_ffff_ffff

  /**
   * `islice` refuses a stop argument outside `0 <= stop <= sys.maxsize` with a
   * ValueError.
   */
  datatype GrouperError = StopOutOfRange(chunkSize: int)

  /** The concatenation of the groups, in order. */
  function Flatten<T>(groups: seq<seq<T>>): seq<T>
  {
    if groups == [] then [] else groups[0] + Flatten(groups[1..])
  }

  function Min(a: int, b: int): int
  {
    if a <= b then a else b
  }

  /**
   * The groups `grouper(k, s)` yields: the first `k` elements (or all of them
   * when fewer remain), then the groups of the rest. A size of zero makes the
   * very first pull empty, so nothing is yielded. With a positive size a
   * non-empty input yields at least one group, every group is non-empty and
   * at most `k` long, and every group but the last is exactly `k` long.
   */
  function Chunks<T>(k: nat, s: seq<T>): (r: seq<seq<T>>)
    ensures k > 0 && s != [] ==> r != []
    ensures forall i :: 0 <= i < |r| ==> 0 < |r[i]| <= k
    ensures forall i :: 0 <= i < |r| - 1 ==> |r[i]| == k
    decreases |s|
  {
    if k == 0 || s == [] then []
    else if |s| <= k then [s]
    else
      var rest := Chunks(k, s[k..]);
      assert forall i :: 1 <= i < |rest| + 1 ==> ([s[..k]] + rest)[i] == rest[i - 1];
      [s[..k]] + rest
  }

  /** The groups, concatenated in order, give back exactly the input. */
  lemma {:induction false} FlattenChunks<T>(k: nat, s: seq<T>)
    requires k > 0
    ensures Flatten(Chunks(k, s)) == s
  {
    if s == [] {
    } else if |s| <= k {
      FlattenCons(s, []);
    } else {
      var rest := Chunks(k, s[k..]);
      FlattenChunks(k, s[k..]);
      FlattenCons(s[..k], rest);
      assert s[..k] + s[k..] == s;
    }
  }

  lemma FlattenCons<T>(g: seq<T>, rest: seq<seq<T>>)
    ensures Flatten([g] + rest) == g + Flatten(rest)
  {
  }

  /**
   * Group number `j` is the slice of the input that starts at `j * k` and
   * runs for `k` elements, or to the end of the input for the last group.
   */
  lemma {:induction false} ChunkAt<T>(k: nat, s: seq<T>, j: nat)
    requires k > 0 && j < |Chunks(k, s)|
    ensures j * k < |s|
    ensures Chunks(k, s)[j] == s[j * k .. Min(j * k + k, |s|)]
  {
    if |s| <= k {
      assert j == 0;
    } else if j > 0 {
      var rest := Chunks(k, s[k..]);
      assert Chunks(k, s)[j] == rest[j - 1];
      ChunkAt(k, s[k..], j - 1);
      MulPred(j, k);
      SliceOfSuffix(s, k, (j - 1) * k, Min((j - 1) * k + k, |s| - k));
    }
  }

  lemma MulPred(j: nat, k: nat)
    requires j > 0
    ensures (j - 1) * k + k == j * k
  {
  }

  lemma SliceOfSuffix<T>(s: seq<T>, k: nat, a: nat, b: nat)
    requires k <= |s| && a <= b <= |s| - k
    ensures s[k..][a..b] == s[k + a .. k + b]
  {
  }

  /** Groups `i` and `j` are non-empty and the first element of `i` is the smaller. */
  predicate FirstLess(groups: seq<seq<int>>, i: nat, j: nat)
    requires i < |groups| && j < |groups|
  {
    groups[i] != [] && groups[j] != [] && groups[i][0] < groups[j][0]
  }

  /** The first elements of the groups strictly increase. */
  predicate FirstsAscending(groups: seq<seq<int>>)
  {
    forall i: nat, j: nat :: i < j < |groups| ==> FirstLess(groups, i, j)
  }

  /**
   * On a strictly ascending input, the first element of each group is larger
   * than the first element of every group before it, so no two groups share
   * their first element.
   */
  lemma ChunkFirstsAscending(k: nat, s: seq<int>)
    requires k > 0
    requires forall i, j :: 0 <= i < j < |s| ==> s[i] < s[j]
    ensures FirstsAscending(Chunks(k, s))
  {
    var c := Chunks(k, s);
    forall i: nat, j: nat | i < j < |c|
      ensures FirstLess(c, i, j)
    {
      ChunkAt(k, s, i);
      ChunkAt(k, s, j);
      MulStrict(i, j, k);
      assert c[i][0] == s[i * k];
      assert c[j][0] == s[j * k];
    }
  }

  lemma MulStrict(i: nat, j: nat, k: nat)
    requires i < j && k > 0
    ensures i * k < j * k
  {
  }

  /** The groups of a suffix: one pull from `pos`, then the groups after it. */
  lemma ChunksFrom<T>(k: nat, s: seq<T>, pos: nat)
    requires 0 < k && pos < |s|
    ensures var stop := Min(pos + k, |s|);
            Chunks(k, s[pos..]) == [s[pos..stop]] + Chunks(k, s[stop..])
  {
    var stop := Min(pos + k, |s|);
    var remaining := s[pos..];
    if |remaining| <= k {
      assert s[pos..stop] == remaining && s[stop..] == [];
    } else {
      assert s[pos..stop] == remaining[..k] && remaining[k..] == s[stop..];
    }
  }

  /**
   * The generator itself: pull `chunkSize` elements at a time from one
   * iterator over `iterable` (`pos` is how far that iterator has advanced)
   * and stop at the first empty pull. A size below zero or above
   * `sys.maxsize` is refused by `islice` on the first pull.
   */
  method Grouper<T>(chunkSize: int, iterable: seq<T>) returns (r: Result<seq<seq<T>>, GrouperError>)
    ensures chunkSize < 0 || chunkSize > MaxSize ==> r == Failure(StopOutOfRange(chunkSize))
    ensures 0 <= chunkSize <= MaxSize ==> r == Success(Chunks(chunkSize, iterable))
  {
    if chunkSize < 0 || chunkSize > MaxSize {
      return Failure(StopOutOfRange(chunkSize));
    }
    var groups: seq<seq<T>> := [];
    var pos := 0;
    while true
      invariant 0 <= pos <= |iterable|
      invariant groups + Chunks(chunkSize, iterable[pos..]) == Chunks(chunkSize, iterable)
      decreases |iterable| - pos
    {
      var stop := Min(pos + chunkSize, |iterable|);
      var group := iterable[pos..stop];
      if group == [] {
        break;
      }
      ChunksFrom(chunkSize, iterable, pos);
      groups := groups + [group];
      pos := stop;
    }
    assert Chunks(chunkSize, iterable[pos..]) == [];
    assert groups + [] == groups;
    return Success(groups);
  }
}
