/**
 * Worked layouts: the deterministic tie-break and a small balancing run,
 * derived from the general lemmas about the greedy pass.
 */
module LayoutExamples {
  import opened MasonryLayout

  /** Column heights are `a, b` (two columns) or `a, b, d` (three). */
  predicate Two(s: seq<nat>, a: nat, b: nat) {
    |s| == 2 && s[0] == a && s[1] == b
  }

  predicate Three(s: seq<nat>, a: nat, b: nat, d: nat) {
    |s| == 3 && s[0] == a && s[1] == b && s[2] == d
  }

  lemma ShortestOfTwo(s: seq<nat>, a: nat, b: nat)
    requires Two(s, a, b)
    ensures ShortestColumn(s) == if b < a then 1 else 0
  {
  }

  lemma ShortestOfThree(s: seq<nat>, a: nat, b: nat, d: nat)
    requires Three(s, a, b, d)
    ensures ShortestColumn(s) == if d < a && d < b then 2 else if b < a then 1 else 0
  {
  }

  /** One step of a run over two columns, from a known state. */
  lemma {:induction false} TwoColumnsStep(c: seq<nat>, hs: seq<nat>, i: nat, a: nat, b: nat)
    requires |c| > 0 && i < |hs| && Two(Replay(c, hs[..i]), a, b)
    ensures if b < a then Two(Replay(c, hs[..i + 1]), a, b + hs[i])
            else Two(Replay(c, hs[..i + 1]), a + hs[i], b)
  {
    ReplayExtend(c, hs, i);
    ShortestOfTwo(Replay(c, hs[..i]), a, b);
  }

  /** One step of a run over three columns, from a known state. */
  lemma {:induction false} ThreeColumnsStep(c: seq<nat>, hs: seq<nat>, i: nat, a: nat, b: nat, d: nat)
    requires |c| > 0 && i < |hs| && Three(Replay(c, hs[..i]), a, b, d)
    ensures if d < a && d < b then Three(Replay(c, hs[..i + 1]), a, b, d + hs[i])
            else if b < a then Three(Replay(c, hs[..i + 1]), a, b + hs[i], d)
            else Three(Replay(c, hs[..i + 1]), a + hs[i], b, d)
  {
    ReplayExtend(c, hs, i);
    ShortestOfThree(Replay(c, hs[..i]), a, b, d);
  }

  /** The style of item `i` of a run over two columns, from a known state. */
  lemma {:induction false} TwoColumnsStyle(c: seq<nat>, hs: seq<nat>, i: nat, w: real, a: nat, b: nat)
    requires |c| > 0 && i < |hs| && Two(Replay(c, hs[..i]), a, b)
    ensures Place(c, hs, w)[i] == if b < a then ItemStyle(w, 100, b) else ItemStyle(w, 0, a)
  {
    PlaceNth(c, hs, w, i);
    ShortestOfTwo(Replay(c, hs[..i]), a, b);
  }

  /** The style of item `i` of a run over three columns, from a known state. */
  lemma {:induction false} ThreeColumnsStyle(c: seq<nat>, hs: seq<nat>, i: nat, w: real, a: nat, b: nat, d: nat)
    requires |c| > 0 && i < |hs| && Three(Replay(c, hs[..i]), a, b, d)
    ensures Place(c, hs, w)[i]
            == if d < a && d < b then ItemStyle(w, 200, d)
               else if b < a then ItemStyle(w, 100, b)
               else ItemStyle(w, 0, a)
  {
    PlaceNth(c, hs, w, i);
    ShortestOfThree(Replay(c, hs[..i]), a, b, d);
  }

  /** Three equal items over three empty columns take columns 0, 1 and 2 in
      that order, all at the top. */
  lemma {:induction false} TieBreakExample(hs: seq<nat>)
    requires hs == [5, 5, 5]
    ensures var styles := FullLayout(3, hs).itemStyles;
            && |styles| == 3
            && styles[0].translateX == 0 && styles[1].translateX == 100 && styles[2].translateX == 200
            && styles[0].translateY == 0 && styles[1].translateY == 0 && styles[2].translateY == 0
  {
    var w := 100.0 / 3 as real;
    var z := Zeros(3);
    assert hs[..0] == [] && hs[0..] == hs;
    assert Three(Replay(z, hs[..0]), 0, 0, 0);
    ThreeColumnsStep(z, hs, 0, 0, 0, 0);
    ThreeColumnsStep(z, hs, 1, 5, 0, 0);
    ThreeColumnsStyle(z, hs, 0, w, 0, 0, 0);
    ThreeColumnsStyle(z, hs, 1, w, 5, 0, 0);
    ThreeColumnsStyle(z, hs, 2, w, 5, 5, 0);
  }

  /** The column heights of the balancing run, item by item. */
  lemma {:induction false} BalancingColumns(hs: seq<nat>)
    requires |hs| == 4 && hs[0] == 10 && hs[1] == 20 && hs[2] == 5 && hs[3] == 15
    ensures Two(Replay(Zeros(2), hs[..0]), 0, 0)
    ensures Two(Replay(Zeros(2), hs[..1]), 10, 0)
    ensures Two(Replay(Zeros(2), hs[..2]), 10, 20)
    ensures Two(Replay(Zeros(2), hs[..3]), 15, 20)
    ensures Two(Replay(Zeros(2), hs), 30, 20)
  {
    var z := Zeros(2);
    assert hs[..0] == [] && hs[..4] == hs;
    assert Two(Replay(z, hs[..0]), 0, 0);
    assert Two(Replay(z, hs[..1]), 10, 0) by {
      TwoColumnsStep(z, hs, 0, 0, 0);
    }
    assert Two(Replay(z, hs[..2]), 10, 20) by {
      TwoColumnsStep(z, hs, 1, 10, 0);
    }
    assert Two(Replay(z, hs[..3]), 15, 20) by {
      TwoColumnsStep(z, hs, 2, 10, 20);
    }
    assert Two(Replay(z, hs[..4]), 30, 20) by {
      TwoColumnsStep(z, hs, 3, 15, 20);
    }
  }

  /** The styles of the balancing run, item by item. */
  lemma {:induction false} BalancingStyles(hs: seq<nat>)
    requires |hs| == 4 && hs[0] == 10 && hs[1] == 20 && hs[2] == 5 && hs[3] == 15
    ensures Place(Zeros(2), hs, 50.0)
            == [ItemStyle(50.0, 0, 0), ItemStyle(50.0, 100, 0),
                ItemStyle(50.0, 0, 10), ItemStyle(50.0, 0, 15)]
  {
    var z := Zeros(2);
    BalancingColumns(hs);
    TwoColumnsStyle(z, hs, 0, 50.0, 0, 0);
    TwoColumnsStyle(z, hs, 1, 50.0, 10, 0);
    TwoColumnsStyle(z, hs, 2, 50.0, 10, 20);
    TwoColumnsStyle(z, hs, 3, 50.0, 15, 20);
  }

  /** Heights 10, 20, 5, 15 over two columns: item 0 at column 0 (y 0), item 1
      at column 1 (y 0), item 2 at column 0 (y 10), and item 3 again at column
      0 (y 15), since 15 < 20; the container is 30 high. */
  lemma {:induction false} BalancingExample(hs: seq<nat>)
    requires |hs| == 4 && hs[0] == 10 && hs[1] == 20 && hs[2] == 5 && hs[3] == 15
    ensures FullLayout(2, hs)
            == LayoutState([ItemStyle(50.0, 0, 0), ItemStyle(50.0, 100, 0),
                            ItemStyle(50.0, 0, 10), ItemStyle(50.0, 0, 15)], 30)
  {
    assert 100.0 / 2 as real == 50.0;
    FullLayoutPlacesAll(2, hs);
    BalancingStyles(hs);
    BalancingColumns(hs);
    var final := Replay(Zeros(2), hs);
    assert Max(final) == 30 by {
      assert final[..1] == [30];
    }
  }
}
