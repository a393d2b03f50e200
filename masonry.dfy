/**
 * The Masonry component: the layout pass that assigns `itemStyles` and
 * `tallestColumnHeight`, the two events that start it (a batch from the
 * resize observer and a change of the `column` prop) and the ref registry
 * it reads the items' heights from.
 *
 * `setState` is modelled as assigning the two state fields; the DOM read
 * `clientHeight` is a parameter giving each mounted element's height at the
 * moment of the pass.
 */
module MasonryComponent {
  import opened Wrappers
  import opened MasonryLayout
  import opened Registry

  /** `masonryItemRefs.map(childNode => childNode.clientHeight)`. */
  function ItemHeights(nodes: seq<Node>, clientHeight: Node -> nat): (hs: seq<nat>)
    ensures |hs| == |nodes|
    ensures forall i :: 0 <= i < |nodes| ==> hs[i] == clientHeight(nodes[i])
  {
    seq(|nodes|, i requires 0 <= i < |nodes| => clientHeight(nodes[i]))
  }

  /** The replay loop: each of `replayed`, in order, is added to the
      lowest-indexed shortest column; no style is emitted. */
  method ReplayColumns(columnHeights: array<nat>, replayed: seq<nat>)
    requires columnHeights.Length > 0
    modifies columnHeights
    ensures columnHeights[..] == Replay(old(columnHeights[..]), replayed)
  {
    ghost var start := columnHeights[..];
    var i := 0;
    while i < |replayed|
      invariant 0 <= i <= |replayed|
      invariant columnHeights[..] == Replay(start, replayed[..i])
    {
      ghost var before := columnHeights[..];
      var shortestColumnIndex := ShortestColumn(columnHeights[..]);
      columnHeights[shortestColumnIndex] := columnHeights[shortestColumnIndex] + replayed[i];
      assert columnHeights[..] == before[shortestColumnIndex := before[shortestColumnIndex] + replayed[i]];
      assert columnHeights[..] == Step(before, replayed[i]);
      assert replayed[..i + 1][..i] == replayed[..i];
      i := i + 1;
    }
    assert replayed[..i] == replayed;
  }

  /** The placement loop: each of `placed`, in order, gets the style
      {width, X = 100 * shortest column, Y = that column's height}, and then
      that column grows by the item's height. */
  method PlaceItems(columnHeights: array<nat>, placed: seq<nat>, itemWidth: real)
    returns (newItemStyles: seq<ItemStyle>)
    requires columnHeights.Length > 0
    modifies columnHeights
    ensures columnHeights[..] == Replay(old(columnHeights[..]), placed)
    ensures newItemStyles == Place(old(columnHeights[..]), placed, itemWidth)
  {
    ghost var start := columnHeights[..];
    newItemStyles := [];
    var n := 0;
    while n < |placed|
      invariant 0 <= n <= |placed|
      invariant columnHeights[..] == Replay(start, placed[..n])
      invariant newItemStyles == Place(start, placed[..n], itemWidth)
    {
      ghost var before := columnHeights[..];
      var shortestColumnHeight := Min(columnHeights[..]);
      var shortestColumnIndex: nat := IndexOf(columnHeights[..], shortestColumnHeight);
      var translateX := shortestColumnIndex * 100;
      var translateY := shortestColumnHeight;
      columnHeights[shortestColumnIndex] := columnHeights[shortestColumnIndex] + placed[n];
      assert columnHeights[..] == before[shortestColumnIndex := before[shortestColumnIndex] + placed[n]];
      assert columnHeights[..] == Step(before, placed[n]);
      newItemStyles := newItemStyles + [ItemStyle(itemWidth, translateX, translateY)];
      assert placed[..n + 1][..n] == placed[..n];
      n := n + 1;
    }
    assert placed[..n] == placed;
  }

  /** The body of `updateItemStylesAfterIndex` up to its `setState` call: a
      `columnHeights` array of `column` zeros, the replay of the items before
      `index` (skipped when `index` is 0), the placement of the items from
      `index` on, and the tallest column. */
  method LayoutPass(column: nat, itemHeights: seq<nat>, index: nat, itemStyles: seq<ItemStyle>)
    returns (styles: seq<ItemStyle>, tallestColumnHeight: nat)
    requires column >= 1
    ensures LayoutState(styles, tallestColumnHeight) == Layout(column, itemHeights, index, itemStyles)
  {
    var itemWidth := 100.0 / column as real;
    var columnHeights := new nat[column](_ => 0);
    assert columnHeights[..] == Zeros(column);
    var split := Clamp(index, |itemHeights|);
    if index != 0 {
      ReplayColumns(columnHeights, itemHeights[..split]);
    } else {
      assert itemHeights[..split] == [];
    }
    var oldItemStyles := itemStyles[..Clamp(index, |itemStyles|)];
    var newItemStyles := PlaceItems(columnHeights, itemHeights[split..], itemWidth);
    styles := oldItemStyles + newItemStyles;
    tallestColumnHeight := Max(columnHeights[..]);
  }

  class Masonry {
    /** The `column` prop. */
    var column: nat
    /** State: one style per item, index-aligned with the children. */
    var itemStyles: seq<ItemStyle>
    /** State: the container's height. */
    var tallestColumnHeight: nat
    /** `this.masonryItemRefs`. */
    var masonryItemRefs: Refs

    /** The initial state: no styles, height 0, an empty registry. */
    constructor (column: nat)
      ensures this.column == column
      ensures itemStyles == [] && tallestColumnHeight == 0 && masonryItemRefs == map[]
    {
      this.column := column;
      itemStyles := [];
      tallestColumnHeight := 0;
      masonryItemRefs := map[];
    }

    /** `setMasonryItemRef(node, index)`: overwrites the slot at `index` and
        nothing else. */
    method SetMasonryItemRef(node: Option<Node>, index: nat)
      modifies this`masonryItemRefs
      ensures masonryItemRefs == old(masonryItemRefs)[index := node]
      ensures forall k :: k != index && k in old(masonryItemRefs) ==>
                k in masonryItemRefs && masonryItemRefs[k] == old(masonryItemRefs)[k]
      ensures masonryItemRefs.Keys == old(masonryItemRefs).Keys + {index}
    {
      masonryItemRefs := masonryItemRefs[index := node];
    }

    /** The heights of the mounted items, in item order. */
    function MeasuredHeights(clientHeight: Node -> nat): seq<nat>
      reads this`masonryItemRefs
    {
      ItemHeights(GetMasonryItemRefs(masonryItemRefs), clientHeight)
    }

    /** `updateItemStylesAfterIndex(index)`: one layout pass, whose result
        replaces the two state fields. */
    method UpdateItemStylesAfterIndex(index: nat, clientHeight: Node -> nat)
      requires column >= 1
      modifies this`itemStyles, this`tallestColumnHeight
      ensures LayoutState(itemStyles, tallestColumnHeight)
              == Layout(column, MeasuredHeights(clientHeight), index, old(itemStyles))
    {
      var itemHeights := ItemHeights(GetMasonryItemRefs(masonryItemRefs), clientHeight);
      ghost var target := Layout(column, itemHeights, index, itemStyles);
      var styles, tallest := LayoutPass(column, itemHeights, index, itemStyles);
      itemStyles, tallestColumnHeight := styles, tallest;
      assert itemHeights == MeasuredHeights(clientHeight);
      assert LayoutState(itemStyles, tallestColumnHeight) == target;
    }

    /** The resize-observer callback: one pass, from the least index among
        the batch's entries. */
    method OnResize(entries: seq<nat>, clientHeight: Node -> nat)
      requires |entries| > 0 && column >= 1
      modifies this`itemStyles, this`tallestColumnHeight
      ensures LayoutState(itemStyles, tallestColumnHeight)
              == Layout(column, MeasuredHeights(clientHeight), Min(entries), old(itemStyles))
    {
      var indexRequiredUpdate := Min(entries);
      UpdateItemStylesAfterIndex(indexRequiredUpdate, clientHeight);
    }

    /** `componentDidUpdate` for the `column` prop: a changed column count
        lays every item out afresh; otherwise the state is left alone. */
    method ComponentDidUpdate(prevColumn: nat, clientHeight: Node -> nat)
      requires column != prevColumn ==> column >= 1
      modifies this`itemStyles, this`tallestColumnHeight
      ensures column != prevColumn ==>
                LayoutState(itemStyles, tallestColumnHeight) == FullLayout(column, MeasuredHeights(clientHeight))
      ensures column == prevColumn ==>
                itemStyles == old(itemStyles) && tallestColumnHeight == old(tallestColumnHeight)
    {
      if column != prevColumn {
        UpdateItemStylesAfterIndex(0, clientHeight);
        RecomputeFromZeroIsFresh(column, MeasuredHeights(clientHeight), old(itemStyles));
      }
    }
  }

  /** Heights that changed only at reported indices agree below the least
      reported index. */
  lemma UnchangedBelowMin(before: seq<nat>, after: seq<nat>, entries: seq<nat>)
    requires |entries| > 0 && |before| == |after|
    requires forall i :: 0 <= i < |after| && before[i] != after[i] ==> i in entries
    ensures Min(entries) <= |after| ==> before[..Min(entries)] == after[..Min(entries)]
    ensures Min(entries) > |after| ==> before == after
  {
    var m := Min(entries);
    assert forall i :: 0 <= i < |after| && i < m ==> i !in entries;
    if m <= |after| {
      assert before[..m] == after[..m];
    } else {
      assert before == after;
    }
  }

  /** Coalescing is sound: when the heights changed only at indices the batch
      reports, one recompute from the batch's least index, on top of the
      styles of a full pass over the old heights, is the full pass over the
      new heights. */
  lemma BatchRecomputeAgreesWithFull(column: nat, before: seq<nat>, after: seq<nat>, entries: seq<nat>)
    requires column >= 1 && |entries| > 0
    requires |before| == |after|
    requires forall i :: 0 <= i < |after| && before[i] != after[i] ==> i in entries
    ensures Layout(column, after, Min(entries), FullLayout(column, before).itemStyles)
            == FullLayout(column, after)
  {
    var m := Min(entries);
    UnchangedBelowMin(before, after, entries);
    if m <= |after| {
      IncrementalAgreesWithFull(column, before, after, m);
    } else {
      RecomputeIsIdempotent(column, after, m);
    }
  }
}
