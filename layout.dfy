/**
 * The greedy shortest-column placement of the masonry layout, stated on
 * values. Column heights are a `seq<nat>`; every item, in index order, goes
 * to the lowest-indexed column of least height, and its placement records
 * that column and the column's height before the item was added.
 *
 * The imperative layout pass (module MasonryComponent) is proved equal to
 * `Layout` below; the properties the pass promises are lemmas about it.
 */
module MasonryLayout {

  /** The per-item style the pass emits: `width` in percent of the container,
      `translateX` in percent of the item's own width, `translateY` in pixels. */
  datatype ItemStyle = ItemStyle(width: real, translateX: nat, translateY: nat)

  /** The two state fields the pass assigns. */
  datatype LayoutState = LayoutState(itemStyles: seq<ItemStyle>, tallestColumnHeight: nat)

  // ---------------------------------------------------------------------
  // Builtins the pass relies on: Math.min, Math.max, Array.prototype.indexOf
  // ---------------------------------------------------------------------

  /** `Math.min(...s)` over a non-empty list. */
  function Min(s: seq<nat>): (m: nat)
    requires |s| > 0
    ensures m in s
    ensures forall i :: 0 <= i < |s| ==> m <= s[i]
  {
    if |s| == 1 then s[0]
    else
      var m' := Min(s[..|s| - 1]);
      if s[|s| - 1] < m' then s[|s| - 1] else m'
  }

  /** `Math.max(...s)` over a non-empty list. */
  function Max(s: seq<nat>): (m: nat)
    requires |s| > 0
    ensures m in s
    ensures forall i :: 0 <= i < |s| ==> s[i] <= m
  {
    if |s| == 1 then s[0]
    else
      var m' := Max(s[..|s| - 1]);
      if s[|s| - 1] > m' then s[|s| - 1] else m'
  }

  /** `s.indexOf(v)`: the first position holding `v`, or -1 when there is none. */
  function IndexOf(s: seq<nat>, v: nat): (i: int)
    ensures -1 <= i < |s|
    ensures i == -1 <==> v !in s
    ensures 0 <= i ==> s[i] == v && forall j :: 0 <= j < i ==> s[j] != v
  {
    if |s| == 0 then -1
    else if s[0] == v then 0
    else
      var i' := IndexOf(s[1..], v);
      if i' == -1 then -1 else i' + 1
  }

  // ---------------------------------------------------------------------
  // One greedy step
  // ---------------------------------------------------------------------

  /** `new Array(column).fill(0)`. */
  function Zeros(column: nat): (z: seq<nat>)
    ensures |z| == column
    ensures forall i :: 0 <= i < column ==> z[i] == 0
  {
    seq(column, _ => 0)
  }

  /** `columnHeights.indexOf(Math.min(...columnHeights))`: the lowest-indexed
      column whose height is minimal. */
  function ShortestColumn(columnHeights: seq<nat>): (k: nat)
    requires |columnHeights| > 0
    ensures k < |columnHeights|
    ensures columnHeights[k] == Min(columnHeights)
    ensures forall j :: 0 <= j < |columnHeights| ==> columnHeights[k] <= columnHeights[j]
    ensures forall j :: 0 <= j < k ==> columnHeights[j] > columnHeights[k]
  {
    IndexOf(columnHeights, Min(columnHeights))
  }

  /** Adds one item of height `h` to the shortest column. */
  function Step(columnHeights: seq<nat>, h: nat): (c: seq<nat>)
    requires |columnHeights| > 0
    ensures |c| == |columnHeights|
    ensures c[ShortestColumn(columnHeights)] == columnHeights[ShortestColumn(columnHeights)] + h
    ensures forall j :: 0 <= j < |c| && j != ShortestColumn(columnHeights) ==> c[j] == columnHeights[j]
  {
    var k := ShortestColumn(columnHeights);
    columnHeights[k := columnHeights[k] + h]
  }

  /** The column heights after placing every item of `hs`, in order, on top
      of `columnHeights` (the effect of the replay loop and of the placement
      loop on `columnHeights` alike). */
  function Replay(columnHeights: seq<nat>, hs: seq<nat>): (c: seq<nat>)
    requires |columnHeights| > 0
    ensures |c| == |columnHeights|
    decreases |hs|
  {
    if hs == [] then columnHeights
    else Step(Replay(columnHeights, hs[..|hs| - 1]), hs[|hs| - 1])
  }

  /** The style of the next item when the columns stand at `columnHeights`. */
  function StyleAt(columnHeights: seq<nat>, width: real): ItemStyle
    requires |columnHeights| > 0
  {
    var k := ShortestColumn(columnHeights);
    ItemStyle(width, k * 100, columnHeights[k])
  }

  /** The styles of the items `hs`, placed in order on top of `columnHeights`. */
  function Place(columnHeights: seq<nat>, hs: seq<nat>, width: real): (styles: seq<ItemStyle>)
    requires |columnHeights| > 0
    ensures |styles| == |hs|
    decreases |hs|
  {
    if hs == [] then []
    else
      var prefix := hs[..|hs| - 1];
      Place(columnHeights, prefix, width) + [StyleAt(Replay(columnHeights, prefix), width)]
  }

  /** `Math.min(index, |s|)`: where `slice(0, index)` ends. */
  function Clamp(index: nat, length: nat): (n: nat)
    ensures n <= length && n <= index
    ensures n == index || n == length
  {
    if index < length then index else length
  }

  /** The state `updateItemStylesAfterIndex(index)` assigns: the old styles
      before `index` are kept, the items from `index` on are placed fresh on
      top of the replayed prefix, and the container height is the tallest
      final column. */
  function Layout(column: nat, itemHeights: seq<nat>, index: nat, itemStyles: seq<ItemStyle>): LayoutState
    requires column >= 1
  {
    var split := Clamp(index, |itemHeights|);
    var start := Replay(Zeros(column), itemHeights[..split]);
    var newStyles := Place(start, itemHeights[split..], 100.0 / column as real);
    var final := Replay(start, itemHeights[split..]);
    LayoutState(itemStyles[..Clamp(index, |itemStyles|)] + newStyles, Max(final))
  }

  /** A recompute from 0, which is also the layout of a freshly built component. */
  function FullLayout(column: nat, itemHeights: seq<nat>): LayoutState
    requires column >= 1
  {
    Layout(column, itemHeights, 0, [])
  }

  /** Sum of a list of heights. */
  function Sum(s: seq<nat>): nat
    decreases |s|
  {
    if s == [] then 0 else Sum(s[..|s| - 1]) + s[|s| - 1]
  }

  // ---------------------------------------------------------------------
  // Composition of the replay and the placement
  // ---------------------------------------------------------------------

  lemma {:induction false} ReplayAppend(c: seq<nat>, a: seq<nat>, b: seq<nat>)
    requires |c| > 0
    ensures Replay(c, a + b) == Replay(Replay(c, a), b)
    decreases |b|
  {
    if b == [] {
      assert a + b == a;
    } else {
      var b' := b[..|b| - 1];
      assert (a + b)[..|a + b| - 1] == a + b';
      assert (a + b)[|a + b| - 1] == b[|b| - 1];
      ReplayAppend(c, a, b');
    }
  }

  lemma {:induction false} PlaceAppend(c: seq<nat>, a: seq<nat>, b: seq<nat>, width: real)
    requires |c| > 0
    ensures Place(c, a + b, width) == Place(c, a, width) + Place(Replay(c, a), b, width)
    decreases |b|
  {
    if b == [] {
      assert a + b == a;
    } else {
      var b' := b[..|b| - 1];
      assert (a + b)[..|a + b| - 1] == a + b';
      PlaceAppend(c, a, b', width);
      ReplayAppend(c, a, b');
    }
  }

  /** The replay prefix and the placement suffix together have the effect of
      one pass over all items: the final column heights do not depend on
      where the pass started. */
  lemma {:induction false} ReplaySplit(c: seq<nat>, hs: seq<nat>, split: nat)
    requires |c| > 0 && split <= |hs|
    ensures Replay(Replay(c, hs[..split]), hs[split..]) == Replay(c, hs)
  {
    assert hs[..split] + hs[split..] == hs;
    ReplayAppend(c, hs[..split], hs[split..]);
  }

  /** Item `i` of a placement: the lowest shortest column at that moment,
      X = 100 * that column, Y = that column's height before the item. */
  lemma {:induction false} ReplayExtend(c: seq<nat>, hs: seq<nat>, i: nat)
    requires |c| > 0 && i < |hs|
    ensures Replay(c, hs[..i + 1]) == Step(Replay(c, hs[..i]), hs[i])
  {
    assert hs[..i + 1][..i] == hs[..i];
  }

  lemma {:induction false} ReplayNext(c: seq<nat>, hs: seq<nat>, i: nat)
    requires |c| > 0 && i < |hs|
    ensures var before := Replay(c, hs[..i]);
            var k := ShortestColumn(before);
            Replay(c, hs[..i + 1]) == before[k := before[k] + hs[i]]
  {
    ReplayExtend(c, hs, i);
  }

  lemma {:induction false} PlaceNth(c: seq<nat>, hs: seq<nat>, width: real, i: nat)
    requires |c| > 0 && i < |hs|
    ensures Place(c, hs, width)[i] == StyleAt(Replay(c, hs[..i]), width)
  {
    var upto := hs[..i + 1];
    assert upto + hs[i + 1..] == hs;
    PlaceAppend(c, upto, hs[i + 1..], width);
    assert upto[..i] == hs[..i];
    assert Place(c, hs, width)[i] == Place(c, upto, width)[i];
  }

  /** Item `i` of a placement: the lowest shortest column at that moment,
      X = 100 * that column, Y = that column's height before the item, and
      only that column grows, by the item's height. */
  lemma {:induction false} PlaceAt(c: seq<nat>, hs: seq<nat>, width: real, i: nat)
    requires |c| > 0 && i < |hs|
    ensures var before := Replay(c, hs[..i]);
            var k := ShortestColumn(before);
            && Place(c, hs, width)[i] == ItemStyle(width, k * 100, before[k])
            && Place(c, hs, width)[i].translateY == Min(before)
            && Replay(c, hs[..i + 1]) == before[k := before[k] + hs[i]]
  {
    ReplayNext(c, hs, i);
    PlaceNth(c, hs, width, i);
  }

  // ---------------------------------------------------------------------
  // Column heights only grow, and their sum is the sum of the items
  // ---------------------------------------------------------------------

  lemma {:induction false} ReplayGrows(c: seq<nat>, hs: seq<nat>)
    requires |c| > 0
    ensures forall j :: 0 <= j < |c| ==> c[j] <= Replay(c, hs)[j]
    decreases |hs|
  {
    if hs != [] {
      ReplayGrows(c, hs[..|hs| - 1]);
    }
  }

  lemma {:induction false} SumUpdate(s: seq<nat>, k: nat, h: nat)
    requires k < |s|
    ensures Sum(s[k := s[k] + h]) == Sum(s) + h
    decreases |s|
  {
    var n := |s| - 1;
    if k < n {
      assert s[k := s[k] + h][..n] == s[..n][k := s[..n][k] + h];
      SumUpdate(s[..n], k, h);
    } else {
      assert s[k := s[k] + h][..n] == s[..n];
    }
  }

  /** Every item's height ends up in exactly one column. */
  lemma {:induction false} ReplaySum(c: seq<nat>, hs: seq<nat>)
    requires |c| > 0
    ensures Sum(Replay(c, hs)) == Sum(c) + Sum(hs)
    decreases |hs|
  {
    if hs != [] {
      var prefix := hs[..|hs| - 1];
      var h := hs[|hs| - 1];
      ReplaySum(c, prefix);
      StepSum(Replay(c, prefix), h);
    }
  }

  lemma StepSum(c: seq<nat>, h: nat)
    requires |c| > 0
    ensures Sum(Step(c, h)) == Sum(c) + h
  {
    var k := ShortestColumn(c);
    var c' := Step(c, h);
    assert c' == c[k := c[k] + h];
    SumUpdate(c, k, h);
  }

  lemma {:induction false} ZerosSum(column: nat)
    ensures Sum(Zeros(column)) == 0
  {
    if column > 0 {
      assert Zeros(column)[..column - 1] == Zeros(column - 1);
      ZerosSum(column - 1);
    }
  }

  // ---------------------------------------------------------------------
  // Properties of the pass
  // ---------------------------------------------------------------------

  /** The shape of the result: the first `index` old styles are kept (as far
      as there are any), one new style per item from `index` on, each of width
      100/column and with an X offset naming a column; the tallest height is
      the maximum of the final column heights, which are those of one greedy
      pass over all items whatever `index` is. */
  lemma {:induction false} LayoutShape(column: nat, itemHeights: seq<nat>, index: nat, itemStyles: seq<ItemStyle>)
    requires column >= 1
    ensures var r := Layout(column, itemHeights, index, itemStyles);
            var kept := Clamp(index, |itemStyles|);
            && |r.itemStyles| == kept + (if index < |itemHeights| then |itemHeights| - index else 0)
            && r.itemStyles[..kept] == itemStyles[..kept]
            && (forall i :: kept <= i < |r.itemStyles| ==>
                  r.itemStyles[i].width == 100.0 / column as real
                  && r.itemStyles[i].translateX < column * 100
                  && r.itemStyles[i].translateX % 100 == 0)
            && r.tallestColumnHeight == Max(Replay(Zeros(column), itemHeights))
  {
    var split := Clamp(index, |itemHeights|);
    var start := Replay(Zeros(column), itemHeights[..split]);
    var rest := itemHeights[split..];
    var w := 100.0 / column as real;
    var newStyles := Place(start, rest, w);
    var kept := Clamp(index, |itemStyles|);
    assert Layout(column, itemHeights, index, itemStyles).itemStyles == itemStyles[..kept] + newStyles;
    forall i | 0 <= i < |newStyles|
      ensures newStyles[i].width == w
      ensures newStyles[i].translateX < column * 100
      ensures newStyles[i].translateX % 100 == 0
    {
      PlaceNth(start, rest, w, i);
      ColumnOffset(ShortestColumn(Replay(start, rest[..i])), column);
    }
    ReplaySplit(Zeros(column), itemHeights, split);
  }

  lemma ColumnOffset(k: nat, column: nat)
    requires k < column
    ensures k * 100 < column * 100 && (k * 100) % 100 == 0
  {
  }

  /** The column heights of any pass sum to the sum of all item heights. */
  lemma {:induction false} ColumnHeightsConserveSum(column: nat, itemHeights: seq<nat>)
    requires column >= 1
    ensures Sum(Replay(Zeros(column), itemHeights)) == Sum(itemHeights)
  {
    ReplaySum(Zeros(column), itemHeights);
    ZerosSum(column);
  }

  /** For every newly placed item, its Y offset plus its height is at most the
      container height. */
  lemma {:induction false} TallestBoundsEveryItem(column: nat, itemHeights: seq<nat>, index: nat, itemStyles: seq<ItemStyle>, i: nat)
    requires column >= 1
    requires index <= i < |itemHeights|
    ensures var r := Layout(column, itemHeights, index, itemStyles);
            var at := Clamp(index, |itemStyles|) + (i - index);
            at < |r.itemStyles| && r.itemStyles[at].translateY + itemHeights[i] <= r.tallestColumnHeight
  {
    var start := Replay(Zeros(column), itemHeights[..index]);
    var rest := itemHeights[index..];
    var w := 100.0 / column as real;
    var j := i - index;
    PlaceAt(start, rest, w, j);
    var before := Replay(start, rest[..j]);
    var k := ShortestColumn(before);
    var after := Replay(start, rest[..j + 1]);
    assert after[k] == Place(start, rest, w)[j].translateY + itemHeights[i];
    ReplaySplit(start, rest, j + 1);
    ReplayGrows(after, rest[j + 1..]);
  }

  /** Pointwise the columns never spread further apart than the tallest item:
      the greedy invariant behind the balancing guarantee. */
  ghost predicate Spread(c: seq<nat>, bound: nat)
    requires |c| > 0
  {
    forall j :: 0 <= j < |c| ==> c[j] <= Min(c) + bound
  }

  lemma {:induction false} StepKeepsSpread(c: seq<nat>, h: nat, bound: nat)
    requires |c| > 0 && Spread(c, bound) && h <= bound
    ensures Spread(Step(c, h), bound)
  {
    var c' := Step(c, h);
    assert forall j :: 0 <= j < |c| ==> c[j] <= c'[j];
    assert Min(c) <= Min(c');
  }

  lemma {:induction false} ReplayKeepsSpread(c: seq<nat>, hs: seq<nat>, bound: nat)
    requires |c| > 0 && Spread(c, bound)
    requires forall i :: 0 <= i < |hs| ==> hs[i] <= bound
    ensures Spread(Replay(c, hs), bound)
    decreases |hs|
  {
    if hs != [] {
      ReplayKeepsSpread(c, hs[..|hs| - 1], bound);
      StepKeepsSpread(Replay(c, hs[..|hs| - 1]), hs[|hs| - 1], bound);
    }
  }

  lemma {:induction false} MinBelowAverage(c: seq<nat>)
    requires |c| > 0
    ensures |c| * Min(c) <= Sum(c)
    decreases |c|
  {
    if |c| > 1 {
      var n := |c| - 1;
      var p := c[..n];
      MinBelowAverage(p);
      AverageStep(n, Min(c), Min(p), c[n], Sum(p));
    }
  }

  lemma AverageStep(n: nat, m: nat, mp: nat, last: nat, total: nat)
    requires m <= mp && m <= last && n * mp <= total
    ensures (n + 1) * m <= total + last
  {
    MulMonotone(n, m, mp);
  }

  lemma MulMonotone(a: nat, x: nat, y: nat)
    requires x <= y
    ensures a * x <= a * y
  {
  }

  /** The greedy guarantee: `column * tallest <= total + column * highest`,
      that is, the container is at most the average column height plus the
      tallest single item. */
  lemma {:induction false} GreedyBalance(column: nat, itemHeights: seq<nat>, highest: nat)
    requires column >= 1
    requires forall i :: 0 <= i < |itemHeights| ==> itemHeights[i] <= highest
    ensures column * FullLayout(column, itemHeights).tallestColumnHeight
            <= Sum(itemHeights) + column * highest
  {
    var z := Zeros(column);
    var c := Replay(z, itemHeights);
    assert Spread(z, highest) by {
      assert Min(z) in z;
    }
    ReplayKeepsSpread(z, itemHeights, highest);
    LayoutShape(column, itemHeights, 0, []);
    ColumnHeightsConserveSum(column, itemHeights);
    MinBelowAverage(c);
    var m, lo := Max(c), Min(c);
    assert m <= lo + highest by {
      assert m in c;
    }
    BalanceArithmetic(column, m, lo, highest, Sum(c));
  }

  lemma BalanceArithmetic(n: nat, m: nat, lo: nat, bound: nat, total: nat)
    requires m <= lo + bound && n * lo <= total
    ensures n * m <= total + n * bound
  {
    MulMonotone(n, m, lo + bound);
    assert n * (lo + bound) == n * lo + n * bound;
  }

  // ---------------------------------------------------------------------
  // Incremental recompute agrees with a full recompute
  // ---------------------------------------------------------------------

  /** A full pass places every item on top of the empty columns. */
  lemma FullLayoutPlacesAll(column: nat, itemHeights: seq<nat>)
    requires column >= 1
    ensures FullLayout(column, itemHeights)
            == LayoutState(Place(Zeros(column), itemHeights, 100.0 / column as real),
                           Max(Replay(Zeros(column), itemHeights)))
  {
    assert itemHeights[..0] == [] && itemHeights[0..] == itemHeights;
  }

  /** Styles of a full pass before `n` depend only on the heights before `n`. */
  lemma {:induction false} FullPrefix(column: nat, itemHeights: seq<nat>, n: nat)
    requires column >= 1 && n <= |itemHeights|
    ensures FullLayout(column, itemHeights).itemStyles[..n]
            == Place(Zeros(column), itemHeights[..n], 100.0 / column as real)
  {
    var w := 100.0 / column as real;
    assert itemHeights[..n] + itemHeights[n..] == itemHeights;
    FullLayoutPlacesAll(column, itemHeights);
    PlaceAppend(Zeros(column), itemHeights[..n], itemHeights[n..], w);
  }

  /** Recomputing from `index` after a full pass, when only heights at or
      after `index` changed, gives the full pass over the new heights. */
  lemma {:induction false} IncrementalAgreesWithFull(column: nat, before: seq<nat>, after: seq<nat>, index: nat)
    requires column >= 1
    requires index <= |before| && index <= |after|
    requires before[..index] == after[..index]
    ensures Layout(column, after, index, FullLayout(column, before).itemStyles) == FullLayout(column, after)
  {
    var w := 100.0 / column as real;
    var z := Zeros(column);
    var prev := FullLayout(column, before).itemStyles;
    LayoutShape(column, before, 0, []);
    LayoutShape(column, after, 0, []);
    LayoutShape(column, after, index, prev);
    FullPrefix(column, before, index);
    FullPrefix(column, after, index);
    assert after[..0] == [] && after[0..] == after;
    assert after[..index] + after[index..] == after;
    PlaceAppend(z, after[..index], after[index..], w);
  }

  /** A recompute from any index, with no height changed since the last full
      pass, reproduces that pass (for an index beyond the item count too). */
  lemma {:induction false} RecomputeIsIdempotent(column: nat, itemHeights: seq<nat>, index: nat)
    requires column >= 1
    ensures Layout(column, itemHeights, index, FullLayout(column, itemHeights).itemStyles)
            == FullLayout(column, itemHeights)
  {
    if index <= |itemHeights| {
      IncrementalAgreesWithFull(column, itemHeights, itemHeights, index);
    } else {
      var full := FullLayout(column, itemHeights);
      LayoutShape(column, itemHeights, 0, []);
      LayoutShape(column, itemHeights, index, full.itemStyles);
      assert full.itemStyles[..|itemHeights|] == full.itemStyles;
    }
  }

  /** A recompute from 0 ignores the old styles: after a column change it is
      the layout of a component built fresh with the new column count. */
  lemma {:induction false} RecomputeFromZeroIsFresh(column: nat, itemHeights: seq<nat>, itemStyles: seq<ItemStyle>)
    requires column >= 1
    ensures Layout(column, itemHeights, 0, itemStyles) == FullLayout(column, itemHeights)
    ensures |FullLayout(column, itemHeights).itemStyles| == |itemHeights|
  {
    LayoutShape(column, itemHeights, 0, []);
  }
}
