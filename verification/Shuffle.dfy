/** The in-place Fisher-Yates shuffle of a range of indices, for every outcome of the random numbers. */
module Shuffle {
  import opened Collections

  predicate Injective(s: seq<int>) {
    forall i, j :: 0 <= i < j < |s| ==> s[i] != s[j]
  }

  /** A reordering of the positions 0 up to |s|: each is listed, and listed once (see OrderListsEach). */
  predicate Order(s: seq<int>) {
    Injective(s) && forall k :: 0 <= k < |s| ==> 0 <= s[k] < |s|
  }

  function Swapped(s: seq<int>, i: nat, j: nat): (t: seq<int>)
    requires i < |s| && j < |s|
  {
    s[i := s[j]][j := s[i]]
  }

  /** `v` stands at one of the positions from `lo` up to `hi`. */
  ghost predicate Has(s: seq<int>, lo: int, hi: int, v: int) {
    exists j :: 0 <= lo <= j < hi <= |s| && s[j] == v
  }

  /** Random numbers drawn one after the other for a range of `width` elements: the k-th is below width - k. */
  predicate Draws(draws: seq<nat>, width: nat) {
    |draws| <= width && forall k :: 0 <= k < |draws| ==> draws[k] < width - k
  }

  /** Draws for the whole shuffle: one for each width from `width` down to 2. */
  predicate AllDraws(draws: seq<nat>, width: nat) {
    Draws(draws, width) && |draws| == if width < 2 then 0 else width - 1
  }

  /** What the range has become after these draws. */
  function Shuffled(s: seq<int>, begin: nat, width: nat, draws: seq<nat>): (t: seq<int>)
    requires begin + width <= |s| && Draws(draws, width)
    ensures |t| == |s|
    decreases |draws|
  {
    if draws == [] then s else
    var n := |draws| - 1;
    Swapped(Shuffled(s, begin, width, draws[..n]), begin + draws[n], begin + width - n - 1)
  }

  /** The same values at other places of the range, and the same ones everywhere else. */
  ghost predicate Rearranged(s: seq<int>, t: seq<int>, begin: nat, width: nat) {
    && |t| == |s|
    && (Injective(s) ==> Injective(t))
    && (forall k :: 0 <= k < |s| && (k < begin || begin + width <= k) ==> t[k] == s[k])
    && (forall k :: begin <= k < begin + width <= |s| ==> Has(s, begin, begin + width, t[k]))
  }

  /** Random::Generate: any number below the range. */
  method Generate(range: nat) returns (r: nat)
    requires range > 0
    ensures r < range
  {
    r :| r < range;
  }

  method ShuffleRange(begin: nat, end: nat, s: seq<int>) returns (t: seq<int>, ghost draws: seq<nat>)
    requires begin <= end <= |s|
    ensures AllDraws(draws, end - begin) && t == Shuffled(s, begin, end - begin, draws)
    ensures Rearranged(s, t, begin, end - begin)
  {
    t, draws := s, [];
    var width := end - begin;
    while width >= 2
      invariant Draws(draws, end - begin) && width == end - begin - |draws|
      invariant end - begin < 2 ==> draws == []
      invariant end - begin >= 2 ==> width >= 1
      invariant t == Shuffled(s, begin, end - begin, draws)
    {
      var lastInRange := begin + width - 1;
      var draw := Generate(width);
      var selected := begin + draw;
      t := t[selected := t[lastInRange]][lastInRange := t[selected]];
      assert (draws + [draw])[..|draws|] == draws;
      draws := draws + [draw];
      width := width - 1;
    }
    ShuffleRearranges(s, begin, end - begin, draws);
  }

  /** Whatever is drawn, each value in the range is one that was in it, different ones stay different, and the rest stays. */
  lemma {:induction false} ShuffleRearranges(s: seq<int>, begin: nat, width: nat, draws: seq<nat>)
    requires begin + width <= |s| && Draws(draws, width)
    ensures Rearranged(s, Shuffled(s, begin, width, draws), begin, width)
    decreases |draws|
  {
    var t := Shuffled(s, begin, width, draws);
    if draws == [] {
      forall k | begin <= k < begin + width ensures Has(s, begin, begin + width, t[k]) {
        assert s[k] == t[k];
      }
    } else {
      var n := |draws| - 1;
      ShuffleRearranges(s, begin, width, draws[..n]);
    }
  }

  /** Whatever is drawn, nothing is lost and nothing is repeated, even among equal elements. */
  lemma {:induction false} ShuffleKeepsElements(s: seq<int>, begin: nat, width: nat, draws: seq<nat>)
    requires begin + width <= |s| && Draws(draws, width)
    ensures multiset(Shuffled(s, begin, width, draws)) == multiset(s)
    decreases |draws|
  {
    if draws != [] {
      var n := |draws| - 1;
      ShuffleKeepsElements(s, begin, width, draws[..n]);
      SwapKeepsElements(Shuffled(s, begin, width, draws[..n]), begin + draws[n], begin + width - n - 1);
    }
  }

  lemma SwapKeepsElements(s: seq<int>, i: nat, j: nat)
    requires i < |s| && j < |s|
    ensures multiset(Swapped(s, i, j)) == multiset(s)
  {
  }

  lemma ShuffleKeepsOrder(s: seq<int>, begin: nat, width: nat, draws: seq<nat>)
    requires Order(s) && begin + width <= |s| && Draws(draws, width)
    ensures Order(Shuffled(s, begin, width, draws))
  {
    ShuffleRearranges(s, begin, width, draws);
  }

  /** An order lists every position. */
  lemma OrderListsEach(s: seq<int>, x: int)
    requires Order(s) && 0 <= x < |s|
    ensures x in s
  {
    if x !in s {
      ValuesCount(s);
      SubsetSize(Values(s), Positions(|s|) - {x});
    }
  }

  function Values(s: seq<int>): set<int> { set v | v in s }

  function Positions(n: nat): (p: set<int>)
    ensures |p| == n && forall i :: i in p <==> 0 <= i < n
  {
    if n == 0 then {} else Positions(n - 1) + {n - 1}
  }

  lemma {:induction false} ValuesCount(s: seq<int>)
    requires Injective(s)
    ensures |Values(s)| == |s|
  {
    if s != [] {
      var rest := s[..|s| - 1];
      ValuesCount(rest);
      assert Values(s) == Values(rest) + {s[|s| - 1]};
    }
  }

  lemma DrawBefore(width: nat, draw: nat, rest: seq<nat>)
    requires 0 < width && draw < width && Draws(rest, width - 1)
    ensures Draws([draw] + rest, width)
  {
  }

  /** The draws but the last, after one more before them all. */
  lemma LastDraw(draw: nat, rest: seq<nat>)
    requires rest != []
    ensures var draws, n := [draw] + rest, |rest| - 1;
            draws[..n + 1] == [draw] + rest[..n] && draws[n + 1] == rest[n]
  {
  }

  lemma OneDraw(s: seq<int>, begin: nat, width: nat, draw: nat)
    requires 0 < width && begin + width <= |s| && draw < width
    ensures Shuffled(s, begin, width, [draw]) == Swapped(s, begin + draw, begin + width - 1)
  {
    assert [draw][..0] == [];
  }

  /** The last draw swaps what the others have made of the range. */
  lemma ThenLast(s: seq<int>, begin: nat, width: nat, draws: seq<nat>, n: nat)
    requires begin + width <= |s| && Draws(draws, width) && |draws| == n + 1
    ensures Shuffled(s, begin, width, draws) ==
            Swapped(Shuffled(s, begin, width, draws[..n]), begin + draws[n], begin + width - n - 1)
  {
  }

  lemma FirstDrawToLast(s: seq<int>, begin: nat, width: nat, draw: nat, rest: seq<nat>)
    requires 0 < width && begin + width <= |s| && draw < width && Draws(rest, width - 1) && rest != []
    requires Draws([draw] + rest[..|rest| - 1], width) && Draws([draw] + rest, width)
    requires var u := Swapped(s, begin + draw, begin + width - 1);
             Shuffled(s, begin, width, [draw] + rest[..|rest| - 1]) == Shuffled(u, begin, width - 1, rest[..|rest| - 1])
    ensures Shuffled(s, begin, width, [draw] + rest) ==
            Shuffled(Swapped(s, begin + draw, begin + width - 1), begin, width - 1, rest)
  {
    var n := |rest| - 1;
    LastDraw(draw, rest);
    ThenLast(s, begin, width, [draw] + rest, n + 1);
    ThenLast(Swapped(s, begin + draw, begin + width - 1), begin, width - 1, rest, n);
  }

  /** The first draw settles the last element of the range; the others shuffle what is before it. */
  lemma {:induction false} FirstDraw(s: seq<int>, begin: nat, width: nat, draw: nat, rest: seq<nat>)
    requires 0 < width && begin + width <= |s| && draw < width && Draws(rest, width - 1)
    ensures Draws([draw] + rest, width)
    ensures Shuffled(s, begin, width, [draw] + rest) ==
            Shuffled(Swapped(s, begin + draw, begin + width - 1), begin, width - 1, rest)
    decreases |rest|
  {
    DrawBefore(width, draw, rest);
    if rest == [] {
      OneDraw(s, begin, width, draw);
      assert [draw] + rest == [draw];
    } else {
      FirstDraw(s, begin, width, draw, rest[..|rest| - 1]);
      FirstDrawToLast(s, begin, width, draw, rest);
    }
  }

  /** The two agree outside the range, and in it the target lists values that `s` has there. */
  ghost predicate Reachable(s: seq<int>, begin: nat, width: nat, target: seq<int>) {
    && Injective(s) && Injective(target) && begin + width <= |s| == |target|
    && (forall k :: 0 <= k < |s| && (k < begin || begin + width <= k) ==> target[k] == s[k])
    && (forall k :: begin <= k < begin + width ==> Has(s, begin, begin + width, target[k]))
  }

  lemma NothingToShuffle(s: seq<int>, begin: nat, width: nat, target: seq<int>)
    requires Reachable(s, begin, width, target) && width < 2
    ensures s == target
  {
    if width == 1 {
      assert Has(s, begin, begin + 1, target[begin]);
    }
  }

  lemma Where(s: seq<int>, begin: nat, width: nat, target: seq<int>) returns (at: nat)
    requires Reachable(s, begin, width, target) && width > 0
    ensures begin <= at < begin + width && s[at] == target[begin + width - 1]
  {
    var last := begin + width - 1;
    assert Has(s, begin, begin + width, target[last]);
    at :| begin <= at < begin + width && s[at] == target[last];
  }

  lemma OneMoreDraw(s: seq<int>, begin: nat, width: nat, target: seq<int>, at: nat, rest: seq<nat>)
    requires begin + width <= |s| && begin <= at < begin + width && width >= 2 && AllDraws(rest, width - 1)
    requires Shuffled(Swapped(s, at, begin + width - 1), begin, width - 1, rest) == target
    ensures AllDraws([at - begin] + rest, width) && Shuffled(s, begin, width, [at - begin] + rest) == target
  {
    FirstDraw(s, begin, width, at - begin, rest);
  }

  lemma {:induction false} SomeDrawsReach(s: seq<int>, begin: nat, width: nat, target: seq<int>) returns (draws: seq<nat>)
    requires Reachable(s, begin, width, target)
    ensures AllDraws(draws, width) && Shuffled(s, begin, width, draws) == target
    decreases width
  {
    if width < 2 {
      NothingToShuffle(s, begin, width, target);
      draws := [];
    } else {
      var at := Where(s, begin, width, target);
      OneInPlace(s, begin, width, target, at);
      var rest := SomeDrawsReach(Swapped(s, at, begin + width - 1), begin, width - 1, target);
      OneMoreDraw(s, begin, width, target, at, rest);
      draws := [at - begin] + rest;
    }
  }

  lemma OneInPlace(s: seq<int>, begin: nat, width: nat, target: seq<int>, at: nat)
    requires Reachable(s, begin, width, target) && begin <= at < begin + width && s[at] == target[begin + width - 1]
    ensures Reachable(Swapped(s, at, begin + width - 1), begin, width - 1, target)
  {
    var last := begin + width - 1;
    var u := Swapped(s, at, last);
    forall k | begin <= k < last ensures Has(u, begin, last, target[k]) {
      var j :| begin <= j < begin + width && s[j] == target[k];
      assert u[if j == last then at else j] == target[k];
    }
  }

  /** The shuffle can bring about every order from every other. */
  lemma EveryOrderPossible(s: seq<int>, target: seq<int>) returns (draws: seq<nat>)
    requires Order(s) && Order(target) && |s| == |target|
    ensures AllDraws(draws, |s|) && Shuffled(s, 0, |s|, draws) == target
  {
    forall k | 0 <= k < |s| ensures Has(s, 0, |s|, target[k]) {
      OrderListsEach(s, target[k]);
    }
    draws := SomeDrawsReach(s, 0, |s|, target);
  }
}
