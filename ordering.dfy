/**
  Python's `sorted()` over a set of non-negative integer keys, `list.index`,
  and the pruning of a peer's sequences that the receiver builds from them.
*/
module Ordering {

  predicate Increasing(s: seq<nat>) {
    forall i, j :: 0 <= i < j < |s| ==> s[i] < s[j]
  }

  /** `m` is the smallest element of `s`. */
  predicate IsLeast(m: nat, s: set<nat>) {
    m in s && forall x :: x in s ==> m <= x
  }

  /** Every non-empty finite set of naturals has a smallest element. */
  lemma {:induction false} LeastExists(s: set<nat>)
    requires s != {}
    ensures exists m :: IsLeast(m, s)
  {
    var y :| y in s;
    if s == {y} {
      assert IsLeast(y, s);
    } else {
      var rest := s - {y};
      LeastExists(rest);
      var r :| IsLeast(r, rest);
      var m := if y < r then y else r;
      forall x | x in s
        ensures m <= x
      {
        if x != y {
          assert x in rest;
        }
      }
      assert IsLeast(m, s);
    }
  }

  function Minimum(s: set<nat>): (m: nat)
    requires s != {}
    ensures IsLeast(m, s)
  {
    LeastExists(s);
    var m :| IsLeast(m, s);
    m
  }

  /** `sorted(keys)`: every key once, in ascending order. */
  function SortedKeys(s: set<nat>): (r: seq<nat>)
    ensures |r| == |s|
    ensures forall k :: k in r <==> k in s
    ensures Increasing(r)
    decreases |s|
  {
    if s == {} then []
    else
      var m := Minimum(s);
      [m] + SortedKeys(s - {m})
  }

  /** `list.index(x)`: the first position of `x`. */
  function IndexOf(s: seq<nat>, x: nat): (i: nat)
    requires x in s
    ensures i < |s| && s[i] == x
    ensures forall j :: 0 <= j < i ==> s[j] != x
  {
    if s[0] == x then 0 else 1 + IndexOf(s[1..], x)
  }

  /**
    `sorted(keys)[sorted(keys).index(completed):]`: the keys from
    `completed` on, in ascending order.
  */
  function Leftover(keys: set<nat>, completed: nat): (l: seq<nat>)
    requires completed in keys
    ensures forall k :: k in l <==> k in keys && k >= completed
  {
    var order := SortedKeys(keys);
    SuffixFrom(order, IndexOf(order, completed));
    order[IndexOf(order, completed)..]
  }

  /**
    Drops every sequence of a peer that sorts before `completed`. The
    completed sequence itself and all later ones stay, unchanged.
  */
  function Prune<B>(peer: map<nat, B>, completed: nat): (r: map<nat, B>)
    requires completed in peer
    ensures completed in r && r[completed] == peer[completed]
    ensures forall k :: k in r ==> k in peer && r[k] == peer[k]
  {
    map k | k in peer && k >= completed :: peer[k]
  }

  /** `{i: peer[i] for i in leftover}`. */
  function Rebuilt<B>(peer: map<nat, B>, leftover: seq<nat>): (r: map<nat, B>)
    requires forall k :: k in leftover ==> k in peer
    ensures forall k :: k in r <==> k in leftover
  {
    map k | k in leftover :: peer[k]
  }

  /**
    Rebuilding a peer's map from any list holding exactly the sequences
    from `completed` on yields `Prune`.
  */
  lemma PruneIsRebuild<B>(peer: map<nat, B>, completed: nat, leftover: seq<nat>)
    requires completed in peer
    requires forall k :: k in leftover <==> k in peer && k >= completed
    ensures Prune(peer, completed) == Rebuilt(peer, leftover)
  {
    assert Prune(peer, completed).Keys == Rebuilt(peer, leftover).Keys;
  }

  /**
    The receiver's own construction, rebuilding the peer's map from the
    sorted suffix that starts at `completed`, is `Prune`: it keeps exactly
    the sequences from `completed` on, unchanged.
  */
  lemma PruneIsSortedSuffix<B>(peer: map<nat, B>, completed: nat)
    requires completed in peer
    ensures Prune(peer, completed) == Rebuilt(peer, Leftover(peer.Keys, completed))
    ensures forall k :: k in Prune(peer, completed) <==> k in peer && k >= completed
  {
    PruneIsRebuild(peer, completed, Leftover(peer.Keys, completed));
  }

  /** In an increasing list, the suffix from position `start` holds exactly the entries not below `s[start]`. */
  lemma SuffixFrom(s: seq<nat>, start: nat)
    requires Increasing(s)
    requires start < |s|
    ensures forall k :: k in s[start..] <==> k in s && k >= s[start]
  {
    forall k | k in s
      ensures k in s[start..] <==> k >= s[start]
    {
      var p :| 0 <= p < |s| && s[p] == k;
      if p >= start {
        assert s[start..][p - start] == k;
      }
    }
  }

  /** In an increasing list, entries at least `j - i` apart differ by at least `j - i`. */
  lemma {:induction false} IncreasingGaps(s: seq<nat>, i: nat, j: nat)
    requires Increasing(s)
    requires i <= j < |s|
    ensures s[i] + (j - i) <= s[j]
    decreases j - i
  {
    if i < j {
      IncreasingGaps(s, i, j - 1);
    }
  }

  /** The index set `{0, ..., n-1}`. */
  function Indices(n: nat): (r: set<nat>)
    ensures |r| == n
    ensures forall k: nat :: k in r <==> k < n
  {
    if n == 0 then {}
    else
      var below := Indices(n - 1);
      assert n - 1 !in below;
      below + {n - 1}
  }

  /** Sorting the indices `{0, ..., n-1}` lists them in order. */
  lemma SortedRange(n: nat)
    ensures |SortedKeys(Indices(n))| == n
    ensures forall i :: 0 <= i < n ==> SortedKeys(Indices(n))[i] == i
  {
    var r := SortedKeys(Indices(n));
    forall i | 0 <= i < n
      ensures r[i] < n
    {
      assert r[i] in Indices(n);
    }
    IncreasingBelow(r, n);
  }

  /** The only increasing list of `n` naturals below `n` is `0, ..., n-1`. */
  lemma IncreasingBelow(r: seq<nat>, n: nat)
    requires Increasing(r) && |r| == n
    requires forall i :: 0 <= i < n ==> r[i] < n
    ensures forall i :: 0 <= i < n ==> r[i] == i
  {
    forall i | 0 <= i < n
      ensures r[i] == i
    {
      IncreasingGaps(r, 0, i);
      IncreasingGaps(r, i, n - 1);
    }
  }
}
