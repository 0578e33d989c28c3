/** The nearest-colour mapper: a linear scan over the palette that keeps the
    entry with the smallest distance seen so far, replacing it only on a
    strictly smaller distance. */
module Mapper {
  import opened Colors

  type Distance = (Color, Color) -> int

  /** A palette as the program holds it: a map from block name to colour,
      together with the order in which ranging over that map visits the keys.
      The language leaves that order unspecified, so every property below is
      proved for any order that visits each key exactly once. */
  datatype Palette = Palette(colors: map<string, Color>, order: seq<string>)
  {
    predicate Valid()
    {
      && (forall i :: 0 <= i < |order| ==> order[i] in colors)
      && (forall i, j :: 0 <= i < j < |order| ==> order[i] != order[j])
      && (forall n :: n in colors ==> n in order)
    }
  }

  /** The scan's state: the best name so far and its distance. */
  datatype Best = Best(name: string, diff: int)

  /** Before the first entry: no name, and the largest finite float as distance. */
  const Initial := Best("", MaxFloat64)

  /** Distance from the target to the palette entry visited at position j. */
  function Diff(p: Palette, dist: Distance, target: Color, j: int): int
    requires p.Valid() && 0 <= j < |p.order|
  {
    dist(target, p.colors[p.order[j]])
  }

  /** One iteration: take the entry at position j only if it is strictly closer. */
  function Step(p: Palette, dist: Distance, target: Color, acc: Best, j: int): (r: Best)
    requires p.Valid() && 0 <= j < |p.order|
    ensures r.diff <= acc.diff && r.diff <= Diff(p, dist, target, j)
    ensures r == acc || r == Best(p.order[j], Diff(p, dist, target, j))
    ensures acc.diff <= Diff(p, dist, target, j) ==> r == acc
  {
    var d := Diff(p, dist, target, j);
    if d < acc.diff then Best(p.order[j], d) else acc
  }

  /** The remaining iterations, from position i to the end of the order. */
  function ScanFrom(p: Palette, dist: Distance, target: Color, i: nat, acc: Best): (r: Best)
    requires p.Valid() && i <= |p.order|
    ensures r.diff <= acc.diff
    ensures forall j :: i <= j < |p.order| ==> r.diff <= Diff(p, dist, target, j)
    ensures r == acc || exists j :: i <= j < |p.order| && r == Best(p.order[j], Diff(p, dist, target, j))
    ensures (forall j :: i <= j < |p.order| ==> acc.diff <= Diff(p, dist, target, j)) ==> r == acc
    ensures r != acc ==> exists j :: && i <= j < |p.order|
                                     && r == Best(p.order[j], Diff(p, dist, target, j))
                                     && Diff(p, dist, target, j) < acc.diff
                                     && forall j' :: i <= j' < j ==> Diff(p, dist, target, j) < Diff(p, dist, target, j')
    decreases |p.order| - i
  {
    if i == |p.order| then acc
    else
      var s := Step(p, dist, target, acc, i);
      var r := ScanFrom(p, dist, target, i + 1, s);
      FirstNearerStep(p, dist, target, i, acc, s, r);
      r
  }

  /** The tie rule carried back over one iteration: if the scan from i + 1,
      started from the state after position i, keeps that state unless some
      later entry is strictly nearer and then holds the first such minimum,
      the same holds for the scan from i started from the state before it. */
  lemma FirstNearerStep(p: Palette, dist: Distance, target: Color, i: nat, acc: Best, s: Best, r: Best)
    requires p.Valid() && i < |p.order|
    requires s == Step(p, dist, target, acc, i)
    requires (forall j :: i + 1 <= j < |p.order| ==> s.diff <= Diff(p, dist, target, j)) ==> r == s
    requires r != s ==> exists j :: && i + 1 <= j < |p.order|
                                    && r == Best(p.order[j], Diff(p, dist, target, j))
                                    && Diff(p, dist, target, j) < s.diff
                                    && forall j' :: i + 1 <= j' < j ==> Diff(p, dist, target, j) < Diff(p, dist, target, j')
    ensures (forall j :: i <= j < |p.order| ==> acc.diff <= Diff(p, dist, target, j)) ==> r == acc
    ensures r != acc ==> exists j :: && i <= j < |p.order|
                                     && r == Best(p.order[j], Diff(p, dist, target, j))
                                     && Diff(p, dist, target, j) < acc.diff
                                     && forall j' :: i <= j' < j ==> Diff(p, dist, target, j) < Diff(p, dist, target, j')
  {
    if r != acc {
      if r == s {
        assert Diff(p, dist, target, i) < acc.diff;
        assert r == Best(p.order[i], Diff(p, dist, target, i));
      } else {
        var j :| && i + 1 <= j < |p.order|
                 && r == Best(p.order[j], Diff(p, dist, target, j))
                 && Diff(p, dist, target, j) < s.diff
                 && forall j' :: i + 1 <= j' < j ==> Diff(p, dist, target, j) < Diff(p, dist, target, j');
        assert Diff(p, dist, target, j) < Diff(p, dist, target, i);
      }
    }
  }
  /** The name of the palette entry closest to the target. */
  function ClosestColor(p: Palette, dist: Distance, target: Color): (r: string)
    requires p.Valid()
    ensures r == "" || r in p.colors
    ensures p.colors == map[] ==> r == ""
  {
    ScanFrom(p, dist, target, 0, Initial).name
  }

  /** Some entry among the first i visited is below the sentinel. */
  ghost predicate AnyBelow(p: Palette, dist: Distance, target: Color, i: int)
    requires p.Valid() && 0 <= i <= |p.order|
  {
    exists j :: 0 <= j < i && Diff(p, dist, target, j) < MaxFloat64
  }

  /** Position k holds the first minimum among the first i visited entries:
      below the sentinel, no farther than any of them, and strictly nearer
      than every entry visited before it. This is the reference definition
      the scan is proved against. */
  ghost predicate IsFirstMin(p: Palette, dist: Distance, target: Color, i: int, k: int)
    requires p.Valid() && 0 <= i <= |p.order|
  {
    && 0 <= k < i
    && Diff(p, dist, target, k) < MaxFloat64
    && (forall j :: 0 <= j < i ==> Diff(p, dist, target, k) <= Diff(p, dist, target, j))
    && (forall j :: 0 <= j < k ==> Diff(p, dist, target, k) < Diff(p, dist, target, j))
  }

  /** Position of the entry the scan holds after the first i entries, or -1
      while it still holds the initial state. */
  ghost function HeldAfter(p: Palette, dist: Distance, target: Color, i: int): (k: int)
    requires p.Valid() && 0 <= i <= |p.order|
    ensures -1 <= k < i
    decreases i
  {
    if i == 0 then -1
    else
      var k := HeldAfter(p, dist, target, i - 1);
      var d := Diff(p, dist, target, i - 1);
      if k == -1 then (if d < MaxFloat64 then i - 1 else -1)
      else if d < Diff(p, dist, target, k) then i - 1 else k
  }

  /** The scan state after the first i entries. */
  ghost function StateAfter(p: Palette, dist: Distance, target: Color, i: int): Best
    requires p.Valid() && 0 <= i <= |p.order|
  {
    var k := HeldAfter(p, dist, target, i);
    if k == -1 then Initial else Best(p.order[k], Diff(p, dist, target, k))
  }

  /** An entry below the sentinel after none was is the first minimum. */
  lemma FirstBelowIsFirstMin(p: Palette, dist: Distance, target: Color, i: nat)
    requires p.Valid() && i < |p.order|
    requires !AnyBelow(p, dist, target, i)
    requires Diff(p, dist, target, i) < MaxFloat64
    ensures IsFirstMin(p, dist, target, i + 1, i)
  {
  }

  /** An entry at or above the sentinel after none was below leaves none below. */
  lemma NoneBelowStays(p: Palette, dist: Distance, target: Color, i: nat)
    requires p.Valid() && i < |p.order|
    requires !AnyBelow(p, dist, target, i)
    requires Diff(p, dist, target, i) >= MaxFloat64
    ensures !AnyBelow(p, dist, target, i + 1)
  {
  }

  /** A strictly nearer entry becomes the first minimum; any other entry leaves
      the first minimum where it was. */
  lemma FirstMinStep(p: Palette, dist: Distance, target: Color, i: nat, k: int)
    requires p.Valid() && i < |p.order|
    requires IsFirstMin(p, dist, target, i, k)
    ensures Diff(p, dist, target, i) < Diff(p, dist, target, k) ==> IsFirstMin(p, dist, target, i + 1, i)
    ensures Diff(p, dist, target, i) >= Diff(p, dist, target, k) ==> IsFirstMin(p, dist, target, i + 1, k)
  {
  }

  /** The held position is the first minimum of the entries visited so far,
      and there is none exactly while no entry is below the sentinel. */
  lemma {:induction false} HeldIsFirstMin(p: Palette, dist: Distance, target: Color, i: int)
    requires p.Valid() && 0 <= i <= |p.order|
    ensures HeldAfter(p, dist, target, i) == -1 <==> !AnyBelow(p, dist, target, i)
    ensures HeldAfter(p, dist, target, i) != -1 ==> IsFirstMin(p, dist, target, i, HeldAfter(p, dist, target, i))
    decreases i
  {
    if i > 0 {
      HeldIsFirstMin(p, dist, target, i - 1);
      var k := HeldAfter(p, dist, target, i - 1);
      if k == -1 {
        if Diff(p, dist, target, i - 1) < MaxFloat64 {
          FirstBelowIsFirstMin(p, dist, target, i - 1);
        } else {
          NoneBelowStays(p, dist, target, i - 1);
        }
      } else {
        FirstMinStep(p, dist, target, i - 1, k);
      }
    }
  }

  /** Each iteration of the loop moves the scan state one entry on. */
  lemma StepAdvancesState(p: Palette, dist: Distance, target: Color, i: nat)
    requires p.Valid() && i < |p.order|
    ensures Step(p, dist, target, StateAfter(p, dist, target, i), i) == StateAfter(p, dist, target, i + 1)
  {
  }

  /** Running the remaining iterations from the state after i entries ends in
      the state after the whole palette. */
  lemma {:induction false} ScanReachesFinalState(p: Palette, dist: Distance, target: Color, i: nat)
    requires p.Valid() && i <= |p.order|
    ensures ScanFrom(p, dist, target, i, StateAfter(p, dist, target, i)) == StateAfter(p, dist, target, |p.order|)
    decreases |p.order| - i
  {
    if i < |p.order| {
      var here := StateAfter(p, dist, target, i);
      StepAdvancesState(p, dist, target, i);
      assert ScanFrom(p, dist, target, i, here) == ScanFrom(p, dist, target, i + 1, Step(p, dist, target, here, i));
      ScanReachesFinalState(p, dist, target, i + 1);
    }
  }

  /** The first minimum of a palette is unique. */
  lemma FirstMinUnique(p: Palette, dist: Distance, target: Color, i: int, k: int, k': int)
    requires p.Valid() && 0 <= i <= |p.order|
    requires IsFirstMin(p, dist, target, i, k) && IsFirstMin(p, dist, target, i, k')
    ensures k == k'
  {
  }

  /** The scan's result, characterised: when some entry is below the sentinel
      it is the name at the first minimum, and otherwise it is the empty name. */
  lemma ClosestColorIsFirstMin(p: Palette, dist: Distance, target: Color)
    requires p.Valid()
    ensures AnyBelow(p, dist, target, |p.order|) ==>
      exists k :: IsFirstMin(p, dist, target, |p.order|, k) && ClosestColor(p, dist, target) == p.order[k]
    ensures !AnyBelow(p, dist, target, |p.order|) ==> ClosestColor(p, dist, target) == ""
  {
    ScanReachesFinalState(p, dist, target, 0);
    HeldIsFirstMin(p, dist, target, |p.order|);
  }

  /** Both directions: when some entry is below the sentinel, the name at
      position k is returned exactly when k is the first minimum. */
  lemma ClosestColorIffFirstMin(p: Palette, dist: Distance, target: Color, k: int)
    requires p.Valid() && 0 <= k < |p.order|
    requires AnyBelow(p, dist, target, |p.order|)
    ensures ClosestColor(p, dist, target) == p.order[k] <==> IsFirstMin(p, dist, target, |p.order|, k)
  {
    ClosestColorIsFirstMin(p, dist, target);
    var k' :| IsFirstMin(p, dist, target, |p.order|, k') && ClosestColor(p, dist, target) == p.order[k'];
    if IsFirstMin(p, dist, target, |p.order|, k) {
      FirstMinUnique(p, dist, target, |p.order|, k, k');
    }
  }

  /** Some key of the palette is nearer than the sentinel. */
  ghost predicate SomeKeyBelow(p: Palette, dist: Distance, target: Color)
  {
    exists n :: n in p.colors && dist(target, p.colors[n]) < MaxFloat64
  }

  lemma SomeKeyBelowIsAnyBelow(p: Palette, dist: Distance, target: Color)
    requires p.Valid()
    ensures SomeKeyBelow(p, dist, target) <==> AnyBelow(p, dist, target, |p.order|)
  {
    if SomeKeyBelow(p, dist, target) {
      var n :| n in p.colors && dist(target, p.colors[n]) < MaxFloat64;
      var j :| 0 <= j < |p.order| && p.order[j] == n;
      assert Diff(p, dist, target, j) < MaxFloat64;
    }
    if AnyBelow(p, dist, target, |p.order|) {
      var j :| 0 <= j < |p.order| && Diff(p, dist, target, j) < MaxFloat64;
      assert p.order[j] in p.colors;
    }
  }

  /** Closure: when some key is nearer than the sentinel the result is a key
      of the palette; when none is, the result is the empty name. */
  lemma ClosestColorIsKey(p: Palette, dist: Distance, target: Color)
    requires p.Valid()
    ensures SomeKeyBelow(p, dist, target) ==> ClosestColor(p, dist, target) in p.colors
    ensures !SomeKeyBelow(p, dist, target) ==> ClosestColor(p, dist, target) == ""
  {
    SomeKeyBelowIsAnyBelow(p, dist, target);
    ClosestColorIsFirstMin(p, dist, target);
  }

  /** Minimality: the returned entry is no farther from the target than any key. */
  lemma ClosestColorIsMinimal(p: Palette, dist: Distance, target: Color)
    requires p.Valid()
    requires SomeKeyBelow(p, dist, target)
    ensures ClosestColor(p, dist, target) in p.colors
    ensures forall n :: n in p.colors ==>
      dist(target, p.colors[ClosestColor(p, dist, target)]) <= dist(target, p.colors[n])
  {
    SomeKeyBelowIsAnyBelow(p, dist, target);
    ClosestColorIsFirstMin(p, dist, target);
    var k :| IsFirstMin(p, dist, target, |p.order|, k) && ClosestColor(p, dist, target) == p.order[k];
    forall n | n in p.colors
      ensures dist(target, p.colors[p.order[k]]) <= dist(target, p.colors[n])
    {
      var j :| 0 <= j < |p.order| && p.order[j] == n;
      assert Diff(p, dist, target, k) <= Diff(p, dist, target, j);
    }
  }

  /** Tie-breaking: every entry visited before the returned one is strictly
      farther, so among equal distances the first one visited wins. */
  lemma ClosestColorTiesGoFirst(p: Palette, dist: Distance, target: Color, k: int)
    requires p.Valid() && 0 <= k < |p.order|
    requires SomeKeyBelow(p, dist, target)
    requires ClosestColor(p, dist, target) == p.order[k]
    ensures forall j :: 0 <= j < k ==> Diff(p, dist, target, k) < Diff(p, dist, target, j)
  {
    SomeKeyBelowIsAnyBelow(p, dist, target);
    ClosestColorIffFirstMin(p, dist, target, k);
  }

  /** Exact match: when the target is the colour of some key, the returned
      entry is at distance zero from it, and under a distance that is zero
      only on equal colours its colour is the target itself. */
  lemma ExactMatchHasZeroDistance(p: Palette, dist: Distance, target: Color, n: string)
    requires p.Valid()
    requires forall a, b :: 0 <= dist(a, b)
    requires forall c :: dist(c, c) == 0
    requires n in p.colors && p.colors[n] == target
    ensures ClosestColor(p, dist, target) in p.colors
    ensures dist(target, p.colors[ClosestColor(p, dist, target)]) == 0
  {
    assert dist(target, p.colors[n]) == 0;
    ClosestColorIsMinimal(p, dist, target);
  }

  /** Exact match wins: with a proper distance and pairwise distinct palette
      colours, a target equal to the colour of key n is mapped to n, whatever
      the iteration order. */
  lemma ExactMatchWins(p: Palette, dist: Distance, target: Color, n: string)
    requires p.Valid()
    requires IsDistance(dist)
    requires Injective(p.colors)
    requires n in p.colors && p.colors[n] == target
    ensures ClosestColor(p, dist, target) == n
  {
    ExactMatchHasZeroDistance(p, dist, target, n);
    var m := ClosestColor(p, dist, target);
    assert dist(target, p.colors[m]) == 0;
    assert p.colors[m] == p.colors[n];
  }

  /** Key m is at the minimum distance from the target among all keys. */
  ghost predicate IsMinKey(colors: map<string, Color>, dist: Distance, target: Color, m: string)
  {
    m in colors && forall k :: k in colors ==> dist(target, colors[m]) <= dist(target, colors[k])
  }

  /** Order matters only through ties: two iteration orders of the same map
      pick the same name whenever exactly one key is at the minimum distance,
      whatever ties there are among the farther keys. */
  lemma OrderIrrelevantWithoutTies(p: Palette, q: Palette, dist: Distance, target: Color)
    requires p.Valid() && q.Valid() && p.colors == q.colors
    requires SomeKeyBelow(p, dist, target)
    requires forall m, n :: IsMinKey(p.colors, dist, target, m) && IsMinKey(p.colors, dist, target, n) ==> m == n
    ensures ClosestColor(p, dist, target) == ClosestColor(q, dist, target)
  {
    ClosestColorIsMinimal(p, dist, target);
    ClosestColorIsMinimal(q, dist, target);
    var a := ClosestColor(p, dist, target);
    var b := ClosestColor(q, dist, target);
    assert IsMinKey(p.colors, dist, target, a);
    assert IsMinKey(p.colors, dist, target, b);
  }

  /** With the squared RGB distance and the block table, every colour is
      mapped to a block, and the colour of any block is mapped to that block,
      whatever order the map is ranged over in. */
  lemma BlocksClosestColor(order: seq<string>, target: Color)
    requires Palette(Blocks, order).Valid()
    ensures ClosestColor(Palette(Blocks, order), SquaredRgb, target) in Blocks
    ensures forall n :: n in Blocks && Blocks[n] == target ==>
      ClosestColor(Palette(Blocks, order), SquaredRgb, target) == n
  {
    var p := Palette(Blocks, order);
    SquaredRgbIsDistance();
    SquaredRgbIsBounded();
    BlocksAreDistinct();
    assert SquaredRgb(target, Blocks["Black Concrete"]) < MaxFloat64;
    ClosestColorIsKey(p, SquaredRgb, target);
    forall n | n in Blocks && Blocks[n] == target
      ensures ClosestColor(p, SquaredRgb, target) == n
    {
      ExactMatchWins(p, SquaredRgb, target, n);
    }
  }
}
