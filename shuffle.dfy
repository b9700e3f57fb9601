/** The Fisher–Yates shuffle that the quiz applies to every fetched batch of
    questions. The random index drawn at each step is supplied by the caller:
    `picks[c]` is the index swapped into position `c`, so a valid pick sequence
    has `picks[c] <= c` (the source draws `floor(random * currentIndex)`
    before decrementing `currentIndex` to `c`). */
module Shuffle {

  /** Exchange the elements at positions `i` and `j`. */
  function Swap<T>(s: seq<T>, i: nat, j: nat): (r: seq<T>)
    requires i < |s| && j < |s|
    ensures |r| == |s|
    ensures r[i] == s[j] && r[j] == s[i]
    ensures forall k :: 0 <= k < |s| && k != i && k != j ==> r[k] == s[k]
  {
    s[i := s[j]][j := s[i]]
  }

  lemma SwapPermutes<T>(s: seq<T>, i: nat, j: nat)
    requires i < |s| && j < |s|
    ensures multiset(Swap(s, i, j)) == multiset(s)
  {
  }

  /** Every pick lies at or before the position it fills. */
  predicate ValidPicks(picks: seq<nat>)
  {
    forall c :: 0 <= c < |picks| ==> picks[c] <= c
  }

  /** No element occurs twice. */
  ghost predicate Distinct<T>(s: seq<T>)
  {
    forall i, j :: 0 <= i < j < |s| ==> s[i] != s[j]
  }

  /** The arrangement the loop produces: position `|picks| - 1` is filled
      first, then the loop carries on with the shorter pick sequence. */
  function FisherYates<T>(s: seq<T>, picks: seq<nat>): (r: seq<T>)
    requires |picks| <= |s| && ValidPicks(picks)
    ensures |r| == |s|
    decreases |picks|
  {
    if picks == [] then s
    else
      var c := |picks| - 1;
      FisherYates(Swap(s, c, picks[c]), picks[..c])
  }

  /** The shuffle is a permutation of its input. */
  lemma {:induction false} FisherYatesPermutes<T>(s: seq<T>, picks: seq<nat>)
    requires |picks| <= |s| && ValidPicks(picks)
    ensures multiset(FisherYates(s, picks)) == multiset(s)
    decreases |picks|
  {
    if picks != [] {
      var c := |picks| - 1;
      var s' := Swap(s, c, picks[c]);
      SwapPermutes(s, c, picks[c]);
      FisherYatesPermutes(s', picks[..c]);
    }
  }

  /** Positions the remaining picks do not reach are never touched again. */
  lemma {:induction false} FisherYatesKeepsTail<T>(s: seq<T>, picks: seq<nat>, j: nat)
    requires |picks| <= j < |s| && ValidPicks(picks)
    ensures FisherYates(s, picks)[j] == s[j]
    decreases |picks|
  {
    if picks != [] {
      var c := |picks| - 1;
      FisherYatesKeepsTail(Swap(s, c, picks[c]), picks[..c], j);
    }
  }

  /** Every rearrangement of `s` is produced by some pick sequence: the
      shuffle can reach every permutation. */
  lemma EveryArrangementReachable<T>(s: seq<T>, t: seq<T>) returns (picks: seq<nat>)
    requires multiset(s) == multiset(t)
    ensures |picks| == |s| && ValidPicks(picks)
    ensures FisherYates(s, picks) == t
  {
    assert |s| == |multiset(s)| == |multiset(t)| == |t|;
    assert s[|s|..] == [] == t[|s|..];
    assert s[..|s|] == s && t[..|s|] == t;
    picks := Reach(s, t, |s|);
  }

  /** The first `c` positions of `s` hold the same elements as those of `t`
      and the rest already agree: `c` picks turn `s` into `t`. */
  lemma {:induction false} Reach<T>(s: seq<T>, t: seq<T>, c: nat) returns (picks: seq<nat>)
    requires c <= |s| == |t|
    requires s[c..] == t[c..]
    requires multiset(s[..c]) == multiset(t[..c])
    ensures |picks| == c && ValidPicks(picks)
    ensures FisherYates(s, picks) == t
    decreases c
  {
    if c == 0 {
      assert s == s[0..] == t[0..] == t;
      picks := [];
    } else {
      var k := c - 1;
      assert t[k] in multiset(s[..c]) by {
        assert t[..c] == t[..k] + [t[k]];
      }
      var r :| 0 <= r < c && s[..c][r] == t[k];
      var s' := Swap(s, k, r);
      PlaceLast(s, t, c, r);
      var rest := Reach(s', t, k);
      picks := rest + [r];
      assert picks[..k] == rest;
    }
  }

  /** Swapping the element `t[c - 1]` into position `c - 1` leaves one
      position fewer to arrange. */
  lemma PlaceLast<T>(s: seq<T>, t: seq<T>, c: nat, r: nat)
    requires 0 < c <= |s| == |t| && r < c
    requires s[c..] == t[c..] && multiset(s[..c]) == multiset(t[..c])
    requires s[r] == t[c - 1]
    ensures Swap(s, c - 1, r)[c - 1..] == t[c - 1..]
    ensures multiset(Swap(s, c - 1, r)[..c - 1]) == multiset(t[..c - 1])
  {
    PlaceLastPrefix(s, t, c, r);
    PlaceLastSuffix(s, t, c, r);
  }

  lemma PlaceLastPrefix<T>(s: seq<T>, t: seq<T>, c: nat, r: nat)
    requires 0 < c <= |s| == |t| && r < c
    requires multiset(s[..c]) == multiset(t[..c])
    requires s[r] == t[c - 1]
    ensures multiset(Swap(s, c - 1, r)[..c - 1]) == multiset(t[..c - 1])
  {
    var u := Swap(s, c - 1, r);
    SwapPrefix(s, c - 1, r, c);
    SwapPermutes(s[..c], c - 1, r);
    DropMatchingLast(u, t, c);
  }

  /** Equal multisets of prefixes that end in the same element stay equal
      without it. */
  lemma DropMatchingLast<T>(u: seq<T>, t: seq<T>, c: nat)
    requires 0 < c <= |u| && c <= |t| && u[c - 1] == t[c - 1]
    requires multiset(u[..c]) == multiset(t[..c])
    ensures multiset(u[..c - 1]) == multiset(t[..c - 1])
  {
    assert u[..c] == u[..c - 1] + [u[c - 1]];
    assert t[..c] == t[..c - 1] + [t[c - 1]];
    DropLast(u[..c - 1], t[..c - 1], t[c - 1]);
  }

  lemma PlaceLastSuffix<T>(s: seq<T>, t: seq<T>, c: nat, r: nat)
    requires 0 < c <= |s| == |t| && r < c
    requires s[c..] == t[c..]
    requires s[r] == t[c - 1]
    ensures Swap(s, c - 1, r)[c - 1..] == t[c - 1..]
  {
    var k, s' := c - 1, Swap(s, c - 1, r);
    forall j | k < j < |s| ensures s'[j] == t[j] {
      assert s'[j] == s[j] == s[c..][j - c] == t[c..][j - c];
    }
  }

  /** A swap inside a prefix commutes with taking the prefix. */
  lemma SwapPrefix<T>(s: seq<T>, i: nat, j: nat, c: nat)
    requires i < c && j < c && c <= |s|
    ensures Swap(s, i, j)[..c] == Swap(s[..c], i, j)
  {
  }

  lemma DropLast<T>(u: seq<T>, v: seq<T>, x: T)
    requires multiset(u + [x]) == multiset(v + [x])
    ensures multiset(u) == multiset(v)
  {
    assert multiset(u + [x]) == multiset(u) + multiset{x};
    assert multiset(v + [x]) == multiset(v) + multiset{x};
    forall y ensures multiset(u)[y] == multiset(v)[y] {
      assert (multiset(u) + multiset{x})[y] == (multiset(v) + multiset{x})[y];
    }
  }

  /** Over distinct elements, different pick sequences give different
      arrangements; with `EveryArrangementReachable` this makes the shuffle a
      bijection from pick sequences onto arrangements, so uniform picks give
      every arrangement the same chance. */
  lemma {:induction false} PicksDetermineArrangement<T>(s: seq<T>, p: seq<nat>, q: seq<nat>)
    requires Distinct(s)
    requires |p| == |q| <= |s| && ValidPicks(p) && ValidPicks(q)
    requires FisherYates(s, p) == FisherYates(s, q)
    ensures p == q
    decreases |p|
  {
    if p != [] {
      var c := |p| - 1;
      var sp, sq := Swap(s, c, p[c]), Swap(s, c, q[c]);
      FisherYatesKeepsTail(sp, p[..c], c);
      FisherYatesKeepsTail(sq, q[..c], c);
      assert s[p[c]] == sp[c] == sq[c] == s[q[c]];
      assert p[c] == q[c];
      SwapKeepsDistinct(s, c, p[c]);
      PicksDetermineArrangement(sp, p[..c], q[..c]);
      assert p == p[..c] + [p[c]] && q == q[..c] + [q[c]];
    }
  }

  lemma SwapKeepsDistinct<T>(s: seq<T>, i: nat, j: nat)
    requires Distinct(s) && i < |s| && j < |s|
    ensures Distinct(Swap(s, i, j))
  {
    var r := Swap(s, i, j);
    forall x, y | 0 <= x < y < |r| ensures r[x] != r[y] {
      var x' := if x == i then j else if x == j then i else x;
      var y' := if y == i then j else if y == j then i else y;
      assert r[x] == s[x'] && r[y] == s[y'];
    }
  }

  /** `shuffleArray`: walks `currentIndex` down from the length to zero,
      swapping each position with the picked one, in place. */
  method ShuffleArray<T>(a: array<T>, picks: seq<nat>)
    requires |picks| == a.Length && ValidPicks(picks)
    modifies a
    ensures a[..] == FisherYates(old(a[..]), picks)
    ensures multiset(a[..]) == multiset(old(a[..]))
  {
    var currentIndex := a.Length;
    assert picks[..currentIndex] == picks;
    while currentIndex != 0
      invariant 0 <= currentIndex <= a.Length
      invariant FisherYates(a[..], picks[..currentIndex]) == FisherYates(old(a[..]), picks)
      decreases currentIndex
    {
      var randomIndex := picks[currentIndex - 1];
      currentIndex := currentIndex - 1;
      ghost var before := a[..];
      a[currentIndex], a[randomIndex] := a[randomIndex], a[currentIndex];
      assert a[..] == Swap(before, currentIndex, randomIndex);
      assert picks[..currentIndex + 1][..currentIndex] == picks[..currentIndex];
    }
    assert picks[..0] == [];
    FisherYatesPermutes(old(a[..]), picks);
  }
}
