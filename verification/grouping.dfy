/**
 * splitChunksForWorkers (tools/matcher/matcher_tools.go): chunks are dealt
 * round-robin into one group per worker, then every odd-numbered group is
 * reversed in place so that neighbouring workers start from opposite ends.
 */
module Grouping {
  import opened Tools
  import opened Wrappers

  /** The elements of `s` at positions i with i % n == g, in order. */
  function Deal<T>(s: seq<T>, n: int, g: int): seq<T>
    requires n > 0
  {
    if |s| == 0 then []
    else Deal(s[..|s| - 1], n, g) + (if (|s| - 1) % n == g then [s[|s| - 1]] else [])
  }

  function Reverse<T>(s: seq<T>): (r: seq<T>)
    ensures |r| == |s|
    ensures forall i | 0 <= i < |s| :: r[i] == s[|s| - 1 - i]
  {
    if |s| == 0 then [] else Reverse(s[1..]) + [s[0]]
  }

  /** Group g after both loops: dealt, and reversed when g is odd. */
  function FinalGroup<T>(s: seq<T>, n: int, g: int): seq<T>
    requires n > 0
  {
    if g % 2 == 1 then Reverse(Deal(s, n, g)) else Deal(s, n, g)
  }

  /**
   * What splitChunksForWorkers returns: None where Go panics, on a negative
   * `make` length or on `i % 0` with at least one chunk.
   */
  function SplitGroups<T>(s: seq<T>, n: int): Option<seq<seq<T>>> {
    if n < 0 || (n == 0 && |s| > 0) then None
    else if n == 0 then Some([])
    else Some(seq(n, g requires 0 <= g < n => FinalGroup(s, n, g)))
  }

  /** All the groups' elements together, counted with multiplicity. */
  function Union<T>(gs: seq<seq<T>>): multiset<T> {
    if |gs| == 0 then multiset{} else Union(gs[..|gs| - 1]) + multiset(gs[|gs| - 1])
  }

  /** The next position after L, in quotient and remainder by n. */
  lemma DivModNext(L: nat, n: int)
    requires n > 0
    ensures L % n < n - 1 ==> (L + 1) / n == L / n && (L + 1) % n == L % n + 1
    ensures L % n == n - 1 ==> (L + 1) / n == L / n + 1 && (L + 1) % n == 0
  {
    var q, r := L / n, L % n;
    assert L == n * q + r;
    if r < n - 1 {
      DivUnique(L + 1, n, q, r + 1);
    } else {
      DivUnique(L + 1, n, q + 1, 0);
    }
  }

  /**
   * Group g receives |s|/n elements, one more when g is below |s| % n: so
   * no two groups differ in size by more than one.
   */
  lemma {:induction false} DealLength<T>(s: seq<T>, n: int, g: int)
    requires n > 0 && 0 <= g < n
    ensures |Deal(s, n, g)| == |s| / n + (if g < |s| % n then 1 else 0)
  {
    if |s| > 0 {
      var L := |s| - 1;
      DealLength(s[..L], n, g);
      DivModNext(L, n);
    }
  }

  /** Element j of group g before the reversal is chunk g + j*n. */
  lemma {:induction false} DealAt<T>(s: seq<T>, n: int, g: int, j: int)
    requires n > 0 && 0 <= g < n && 0 <= j < |Deal(s, n, g)|
    ensures 0 <= g + j * n < |s| && Deal(s, n, g)[j] == s[g + j * n]
  {
    var L := |s| - 1;
    var prev := Deal(s[..L], n, g);
    if j < |prev| {
      DealAt(s[..L], n, g, j);
    } else {
      DealLength(s[..L], n, g);
      assert L % n == g && j == L / n;
      assert L == j * n + g;
    }
  }

  /** Appending x to one group adds exactly x to the union. */
  lemma {:induction false} UnionAppend<T>(gs: seq<seq<T>>, t: int, x: T)
    requires 0 <= t < |gs|
    ensures Union(gs[t := gs[t] + [x]]) == Union(gs) + multiset{x}
  {
    var k := |gs| - 1;
    var gs' := gs[t := gs[t] + [x]];
    if t < k {
      assert gs'[..k] == gs[..k][t := gs[t] + [x]];
      UnionAppend(gs[..k], t, x);
    } else {
      assert gs'[..k] == gs[..k];
    }
  }

  /** The groups before the reversal, as the first loop leaves them. */
  function Dealt<T>(s: seq<T>, n: int): (gs: seq<seq<T>>)
    requires n > 0
    ensures |gs| == n
  {
    seq(n, g requires 0 <= g < n => Deal(s, n, g))
  }

  lemma {:induction false} DealtPermutation<T>(s: seq<T>, n: int)
    requires n > 0
    ensures Union(Dealt(s, n)) == multiset(s)
  {
    if |s| == 0 {
      UnionEmpty(Dealt(s, n));
    } else {
      var L := |s| - 1;
      DealtPermutation(s[..L], n);
      var t := L % n;
      var before := Dealt(s[..L], n);
      var after := before[t := before[t] + [s[L]]];
      forall g | 0 <= g < n ensures Dealt(s, n)[g] == after[g] {
        assert Dealt(s, n)[g] == Deal(s, n, g);
      }
      assert Dealt(s, n) == after;
      UnionAppend(before, t, s[L]);
      assert s == s[..L] + [s[L]];
    }
  }

  lemma {:induction false} UnionEmpty<T>(gs: seq<seq<T>>)
    requires forall g | 0 <= g < |gs| :: gs[g] == []
    ensures Union(gs) == multiset{}
  {
    if |gs| > 0 {
      UnionEmpty(gs[..|gs| - 1]);
    }
  }

  lemma ReversePermutation<T>(s: seq<T>)
    ensures multiset(Reverse(s)) == multiset(s)
  {
    if |s| > 0 {
      ReversePermutation(s[1..]);
      assert s == [s[0]] + s[1..];
    }
  }

  /** Groups with the same multisets have the same union. */
  lemma {:induction false} UnionPointwise<T>(a: seq<seq<T>>, b: seq<seq<T>>)
    requires |a| == |b| && forall g | 0 <= g < |a| :: multiset(a[g]) == multiset(b[g])
    ensures Union(a) == Union(b)
  {
    if |a| > 0 {
      UnionPointwise(a[..|a| - 1], b[..|b| - 1]);
    }
  }

  /**
   * Reverses group i by swapping from both ends, as the second loop's inner
   * loop does; the group is read once and written back once.
   */
  method ReverseGroup<T>(groups: array<seq<T>>, i: int)
    requires 0 <= i < groups.Length
    modifies groups
    ensures groups[i] == Reverse(old(groups[i]))
    ensures forall g | 0 <= g < groups.Length && g != i :: groups[g] == old(groups[g])
    ensures groups[..] == old(groups[..])[i := Reverse(old(groups[i]))]
  {
    var orig := groups[i];
    var cur := orig;
    var j, k := 0, |orig| - 1;
    while j < k
      invariant 0 <= j <= k + 1 && j + k == |orig| - 1 && |cur| == |orig|
      invariant forall m | 0 <= m < j :: cur[m] == orig[|orig| - 1 - m]
      invariant forall m | k < m < |orig| :: cur[m] == orig[|orig| - 1 - m]
      invariant forall m | j <= m <= k :: cur[m] == orig[m]
    {
      cur := cur[j := cur[k]][k := cur[j]];
      j, k := j + 1, k - 1;
    }
    groups[i] := cur;
    assert cur == Reverse(orig);
  }

  /** The first loop of splitChunksForWorkers: chunk i is appended to group i % n. */
  method DealChunks<T>(chunks: seq<T>, groups: array<seq<T>>)
    requires groups.Length > 0 && forall g | 0 <= g < groups.Length :: groups[g] == []
    modifies groups
    ensures forall g | 0 <= g < groups.Length :: groups[g] == Deal(chunks, groups.Length, g)
  {
    var n := groups.Length;
    var i := 0;
    while i < |chunks|
      invariant 0 <= i <= |chunks|
      invariant forall g | 0 <= g < n :: groups[g] == Deal(chunks[..i], n, g)
    {
      var groupIndex := i % n;
      groups[groupIndex] := groups[groupIndex] + [chunks[i]];
      assert chunks[..i + 1][..i] == chunks[..i];
      i := i + 1;
    }
    assert chunks[..i] == chunks;
  }

  /** The second loop of splitChunksForWorkers: groups 1, 3, 5, ... are reversed. */
  method ReverseOddGroups<T>(groups: array<seq<T>>, ghost chunks: seq<T>)
    requires groups.Length > 0
    requires forall g | 0 <= g < groups.Length :: groups[g] == Deal(chunks, groups.Length, g)
    modifies groups
    ensures forall g | 0 <= g < groups.Length :: groups[g] == FinalGroup(chunks, groups.Length, g)
  {
    var n := groups.Length;
    var i := 1;
    assert groups[..] == Progress(chunks, n, i);
    while i < n
      invariant 1 <= i && i % 2 == 1
      invariant groups[..] == Progress(chunks, n, i)
    {
      ProgressStep(chunks, n, i);
      ReverseGroup(groups, i);
      i := i + 2;
    }
    assert forall g | 0 <= g < n :: groups[g] == groups[..][g];
  }

  /** The groups once every odd group below i has been reversed. */
  ghost function Progress<T>(chunks: seq<T>, n: nat, i: int): (gs: seq<seq<T>>)
    requires n > 0
    ensures |gs| == n
  {
    seq(n, g requires 0 <= g < n => if g < i then FinalGroup(chunks, n, g) else Deal(chunks, n, g))
  }

  /** Reversing odd group i moves the progress on by two groups. */
  lemma ProgressStep<T>(chunks: seq<T>, n: nat, i: int)
    requires n > 0 && 1 <= i < n && i % 2 == 1
    ensures Progress(chunks, n, i + 2) == Progress(chunks, n, i)[i := Reverse(Deal(chunks, n, i))]
    ensures (i + 2) % 2 == 1
  {
    assert (i + 1) % 2 == 0;
    var a, b := Progress(chunks, n, i + 2), Progress(chunks, n, i)[i := Reverse(Deal(chunks, n, i))];
    forall g | 0 <= g < n ensures a[g] == b[g] {
      if g == i + 1 {
        assert FinalGroup(chunks, n, g) == Deal(chunks, n, g);
      }
    }
  }

  /**
   * splitChunksForWorkers: chunk i is appended to group i % n, then the
   * odd-numbered groups are reversed.
   */
  method SplitChunksForWorkers<T>(chunks: seq<T>, numWorkers: int) returns (r: Option<seq<seq<T>>>)
    ensures r == SplitGroups(chunks, numWorkers)
  {
    if numWorkers < 0 || (numWorkers == 0 && |chunks| > 0) {
      return None;
    }
    var groups := new seq<T>[numWorkers](_ => []);
    if numWorkers == 0 {
      assert groups[..] == [];
      return Some(groups[..]);
    }
    DealChunks(chunks, groups);
    ReverseOddGroups(groups, chunks);
    assert groups[..] == seq(numWorkers, g requires 0 <= g < numWorkers => FinalGroup(chunks, numWorkers, g));
    return Some(groups[..]);
  }

  /**
   * What splitChunksForWorkers promises, for n >= 1 workers: n groups that
   * together hold exactly the chunks, group sizes |chunks|/n or one more,
   * and chunk g + j*n as element j of group g counted from the front for
   * even g and from the back for odd g.
   */
  lemma SplitGroupsMeaning<T>(chunks: seq<T>, n: int, g: int, j: int)
    requires n >= 1
    ensures SplitGroups(chunks, n).Some? && |SplitGroups(chunks, n).value| == n
    ensures Union(SplitGroups(chunks, n).value) == multiset(chunks)
    ensures 0 <= g < n ==>
      |SplitGroups(chunks, n).value[g]| == |chunks| / n + (if g < |chunks| % n then 1 else 0)
    ensures 0 <= g < n && 0 <= j < |SplitGroups(chunks, n).value[g]| ==>
      var group := SplitGroups(chunks, n).value[g];
      var pos := if g % 2 == 1 then |group| - 1 - j else j;
      0 <= g + pos * n < |chunks| && group[j] == chunks[g + pos * n]
  {
    var gs := SplitGroups(chunks, n).value;
    SplitUnion(chunks, n);
    if 0 <= g < n {
      assert gs[g] == FinalGroup(chunks, n, g);
      DealLength(chunks, n, g);
      if 0 <= j < |gs[g]| {
        FinalGroupAt(chunks, n, g, j);
      }
    }
  }

  lemma SplitUnion<T>(chunks: seq<T>, n: int)
    requires n >= 1
    ensures Union(SplitGroups(chunks, n).value) == multiset(chunks)
  {
    var gs := SplitGroups(chunks, n).value;
    DealtPermutation(chunks, n);
    forall h | 0 <= h < n ensures multiset(gs[h]) == multiset(Dealt(chunks, n)[h]) {
      ReversePermutation(Deal(chunks, n, h));
    }
    UnionPointwise(gs, Dealt(chunks, n));
  }

  /** Element j of a final group, counted from the front for even groups and from the back for odd ones. */
  lemma FinalGroupAt<T>(chunks: seq<T>, n: int, g: int, j: int)
    requires 0 <= g < n && 0 <= j < |FinalGroup(chunks, n, g)|
    ensures var group := FinalGroup(chunks, n, g);
      var pos := if g % 2 == 1 then |group| - 1 - j else j;
      0 <= g + pos * n < |chunks| && group[j] == chunks[g + pos * n]
  {
    var dealt := Deal(chunks, n, g);
    var pos := if g % 2 == 1 then |dealt| - 1 - j else j;
    assert FinalGroup(chunks, n, g)[j] == dealt[pos];
    DealAt(chunks, n, g, pos);
  }

  /** An element of the union belongs to some group, and every group's elements are in the union. */
  lemma {:induction false} UnionMembers<T>(gs: seq<seq<T>>, x: T)
    ensures x in Union(gs) <==> exists g | 0 <= g < |gs| :: x in gs[g]
  {
    if |gs| > 0 {
      var L := |gs| - 1;
      UnionMembers(gs[..L], x);
      if x in Union(gs) && x !in multiset(gs[L]) {
        var g :| 0 <= g < L && x in gs[..L][g];
        assert x in gs[g];
      }
      if exists g | 0 <= g < |gs| :: x in gs[g] {
        var g :| 0 <= g < |gs| && x in gs[g];
        if g < L {
          assert x in gs[..L][g];
        }
      }
    }
  }
}
