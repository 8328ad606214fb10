/**
 The tile height of the H-compress algorithm.

 A tiling which leaves one, two or three rows for the last tiles is not acceptable to H-compress.
 */
module Tiling {

  import opened Geometry

  /** The heights which are tried, in order. */
  const HEIGHTS: seq<int> := [16, 24, 20, 30, 28, 26, 22, 18, 14]

  const FALLBACK: int := 17

  /** The last tiles are whole, or have at least four rows. */
  predicate Acceptable(height: int, rows: int)
    requires rows > 0
  {
    height % rows == 0 || height % rows >= 4
  }

  predicate Short(remainder: int)
  {
    1 <= remainder <= 3
  }

  /** No height is acceptable for such images. */
  predicate NoneFits(height: int)
  {
    Short(height % 5040) && Short(height % 22) && Short(height % 26)
  }

  /** The remainder by a divisor of 5040 is that of the remainder by 5040. */
  lemma RemainderOfRemainder(h: int, s: int, q: int, r: int, c: int)
    requires r > 0 && h == 5040 * q + s && 5040 == r * c
    ensures h % r == s % r
  {
    var a := s / r;
    assert s == r * a + s % r;
    assert h == r * (c * q + a) + s % r by {
      assert r * (c * q + a) == (r * c) * q + r * a;
    }
    DivModUnique(s % r, r, c * q + a);
  }

  lemma Same16And24(s: int)
    requires Short(s % 16) && Short(s % 24)
    ensures s % 16 == s % 24
  {
  }

  lemma Same16And20(s: int)
    requires Short(s % 16) && Short(s % 20)
    ensures s % 16 == s % 20
  {
  }

  lemma Same16And28(s: int)
    requires Short(s % 16) && Short(s % 28)
    ensures s % 16 == s % 28
  {
  }

  lemma Same24And18(s: int)
    requires Short(s % 24) && Short(s % 18)
    ensures s % 24 == s % 18
  {
  }

  lemma Common16And18(t: int)
    requires t % 16 == 0 && t % 18 == 0
    ensures t % 144 == 0
  {
  }

  lemma Common20And28(t: int)
    requires t % 20 == 0 && t % 28 == 0
    ensures t % 35 == 0
  {
    var a, b := t / 20, t / 28;
    assert b == 5 * (3 * b - 2 * a);
    DivModUnique(0, 35, 4 * (3 * b - 2 * a));
  }

  lemma Common144And35(t: int)
    requires t % 144 == 0 && t % 35 == 0
    ensures t % 5040 == 0
  {
    var a, b := t / 144, t / 35;
    assert a == 35 * (9 * b - 37 * a);
    DivModUnique(0, 5040, 9 * b - 37 * a);
  }

  lemma Difference(s: int, v: int, r: int)
    requires r > 0 && s % r == v
    ensures (s - v) % r == 0
  {
    DivModUnique(0, r, s / r);
  }

  /** Short remainders by 16, 24, 20, 28 and 18 are all the same, so they are the remainder by 5040. */
  lemma SameShortRemainder(s: int)
    requires 0 <= s < 5040
    requires Short(s % 16) && Short(s % 24) && Short(s % 20) && Short(s % 28) && Short(s % 18)
    ensures Short(s)
  {
    var v := s % 16;
    Same16And24(s);
    Same16And20(s);
    Same16And28(s);
    Same24And18(s);
    Difference(s, v, 16);
    Difference(s, v, 18);
    Difference(s, v, 20);
    Difference(s, v, 28);
    Common16And18(s - v);
    Common20And28(s - v);
    Common144And35(s - v);
  }

  /** The search fails exactly for `NoneFits`. */
  lemma SearchFails(height: int)
    requires height > 30
    ensures (forall i :: 0 <= i < |HEIGHTS| ==> !Acceptable(height, HEIGHTS[i])) <==> NoneFits(height)
  {
    var s, q := height % 5040, height / 5040;
    RemainderOfRemainder(height, s, q, 16, 315);
    RemainderOfRemainder(height, s, q, 24, 210);
    RemainderOfRemainder(height, s, q, 20, 252);
    RemainderOfRemainder(height, s, q, 30, 168);
    RemainderOfRemainder(height, s, q, 28, 180);
    RemainderOfRemainder(height, s, q, 18, 280);
    RemainderOfRemainder(height, s, q, 14, 360);
    if Short(s % 16) && Short(s % 24) && Short(s % 20) && Short(s % 28) && Short(s % 18) {
      SameShortRemainder(s);
    }
    assert HEIGHTS[0] == 16 && HEIGHTS[1] == 24 && HEIGHTS[2] == 20 && HEIGHTS[3] == 30 && HEIGHTS[4] == 28;
    assert HEIGHTS[5] == 26 && HEIGHTS[6] == 22 && HEIGHTS[7] == 18 && HEIGHTS[8] == 14;
  }

  /** `rows` is the height of rank `i`, and the first one which is acceptable. */
  ghost predicate IsFirstFit(height: int, i: int, rows: int)
  {
    && 0 <= i < |HEIGHTS| && HEIGHTS[i] == rows && rows > 0 && Acceptable(height, rows)
    && forall j :: 0 <= j < i ==> !Acceptable(height, HEIGHTS[j])
  }

  /** The height which is chosen, by the remainders in their order of preference. */
  function Chosen(height: int): (r: int)
  {
    if !Short(height % 16) then 16
    else if !Short(height % 24) then 24
    else if !Short(height % 20) then 20
    else if !Short(height % 30) then 30
    else if !Short(height % 28) then 28
    else if !Short(height % 26) then 26
    else if !Short(height % 22) then 22
    else if !Short(height % 18) then 18
    else if !Short(height % 14) then 14
    else 17
  }

  /** It is that of rank `i` if it is the first one which is acceptable. */
  lemma ChosenRank(height: int, i: int)
    requires 0 <= i <= |HEIGHTS| && forall j :: 0 <= j < i ==> !Acceptable(height, HEIGHTS[j])
    requires i < |HEIGHTS| ==> Acceptable(height, HEIGHTS[i])
    ensures Chosen(height) == if i < |HEIGHTS| then HEIGHTS[i] else FALLBACK
  {
    forall j | 0 <= j < |HEIGHTS| ensures Acceptable(height, HEIGHTS[j]) <==> !Short(height % HEIGHTS[j]) {
    }
    assert HEIGHTS[0] == 16 && HEIGHTS[1] == 24 && HEIGHTS[2] == 20 && HEIGHTS[3] == 30 && HEIGHTS[4] == 28;
    assert HEIGHTS[5] == 26 && HEIGHTS[6] == 22 && HEIGHTS[7] == 18 && HEIGHTS[8] == 14;
  }

  /** The tiling of an image of given height: the whole image, or full rows by groups. */
  method HcompressTiling(height: int) returns (tiling: seq<int>)
    ensures height <= 30 ==> tiling == [-1]
    ensures height > 30 ==> |tiling| == 2 && tiling[0] == -1 && 14 <= tiling[1] <= 30
    ensures height > 30 ==> (tiling[1] == FALLBACK <==> NoneFits(height))
    ensures height > 30 ==> (Acceptable(height, tiling[1]) <==> !NoneFits(height) || Acceptable(height, FALLBACK))
    ensures height > 30 && !NoneFits(height) ==> exists i :: IsFirstFit(height, i, tiling[1])
    ensures height > 30 ==> tiling[1] == Chosen(height)
  {
    if height <= 30 {
      return [-1];
    }
    SearchFails(height);
    for i := 0 to |HEIGHTS|
      invariant forall j :: 0 <= j < i ==> !Acceptable(height, HEIGHTS[j])
    {
      var rows := HEIGHTS[i];
      var modulo := height % rows;
      if modulo == 0 || modulo >= 4 {
        assert IsFirstFit(height, i, rows);
        ChosenRank(height, i);
        return [-1, rows];
      }
    }
    ChosenRank(height, |HEIGHTS|);
    return [-1, FALLBACK];
  }

  /** There are images whose last tiles have one row. */
  lemma FallbackCounterexample()
    ensures NoneFits(12252241) && !Acceptable(12252241, FALLBACK)
  {
  }
}
