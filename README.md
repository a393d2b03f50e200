# react-masonry layout core in Dafny

This project models the layout core of the `Masonry` React component and proves properties of it. The component positions its children in `column` columns. Each child goes into the currently shortest column; when several columns tie, the lowest-indexed one wins. Each child gets an absolute translation, and the container gets the height of the tallest column.

The modelled pieces:

- **The layout pass.** `updateItemStylesAfterIndex(index)` is modelled as the method `MasonryComponent.LayoutPass`, which keeps the source's `columnHeights` array.
  - A replay loop adds the heights of the items before `index` to the columns. That loop is `MasonryComponent.ReplayColumns`.
  - A placement loop gives every later item a style `{width, translateX, translateY}` and then grows the chosen column. That loop is `MasonryComponent.PlaceItems`.
  - The spec of both methods is the pure function `MasonryLayout.Layout`, which is built from `Step`, `Replay` and `Place`.
- **The component state.** The class `MasonryComponent.Masonry` holds `itemStyles`, `tallestColumnHeight` and the ref registry `masonryItemRefs`. `setState` becomes an assignment to the two state fields.
- **The two events that start a pass.** The resize-observer callback starts one pass from the least index in its batch. A change of the `column` prop starts a pass from 0.
- **The ref registry.** This is an index-keyed map of element refs or `null` (module `Registry`), with `setMasonryItemRef` and `getMasonryItemRefs`.
- **The demo application's column count.** `updateColumn` in module `App` sets it from three width breakpoints: 640, 960 and 1080.

The main results are these:

- Only the shortest column grows, and it grows by exactly the item's height.
- Every X offset names a column, and every Y offset is the height of that column.
- The old styles before `index` are kept.
- The sum of the column heights equals the sum of the item heights.
- Every placed item fits under the container height.
- The container is at most the average column height plus the tallest item.
- A recompute from `index` after a full pass gives the same result as a full pass over the new heights, provided the heights before `index` did not change. As a consequence, coalescing a resize batch into its least index is sound.
- After a render, the registry lists the rendered elements in item order.

The code is followed wherever a worked example of the balancing behaviour disagrees with it. One example describes heights 10, 20, 5, 15 over two columns as ending with item 3 in column 1 at y = 20 and a container 35 high. The code puts item 3 in column 0 at y = 15, because 15 < 20, and the container is then 30 high. `LayoutExamples.BalancingExample` proves the code's result.

## Model

| member | source | states |
|---|---|---|
| MasonryLayout.Min | src/Masonry/index.js:110 | `Math.min` over the column heights: the result is one of them and no column is lower |
| MasonryLayout.Max | src/Masonry/index.js:142 | `Math.max` over the column heights: the result is one of them and no column is higher |
| MasonryLayout.IndexOf | src/Masonry/index.js:122 | `indexOf` gives the first position holding the value, and -1 exactly when the value is absent |
| MasonryLayout.Zeros | src/Masonry/index.js:105 | the columns start as exactly `column` zeros |
| MasonryLayout.ShortestColumn | src/Masonry/index.js:109-111 | the chosen column has the minimal height, and every lower-indexed column is strictly higher; this is the lowest-index tie-break |
| MasonryLayout.Step | src/Masonry/index.js:112-113 | one item grows only the chosen column, by exactly its height; every other column is unchanged |
| MasonryLayout.Clamp | src/Masonry/index.js:108 | where `slice(0, index)` ends: at `index`, or at the length when the list is shorter |
| MasonryLayout.ReplaySplit | src/Masonry/index.js:107-131 | replaying the prefix and then placing the rest leaves the columns a single pass over all items would leave, whatever `index` is |
| MasonryLayout.PlaceAt | src/Masonry/index.js:118-131 | item `i` of a placement sits in the lowest shortest column at that moment, with X = 100 × that column and Y = its height (the minimum); only that column then grows, by the item's height |
| MasonryLayout.LayoutShape | src/Masonry/index.js:95-142 | the first `index` old styles are kept (as far as they exist); one new style is added per item from `index` on (none when `index` is past the end); each new style has width 100/column and an X offset that is a multiple of 100 below column × 100; the container height is the tallest column of one pass over all items |
| MasonryLayout.ColumnHeightsConserveSum | src/Masonry/index.js:105-131 | the final column heights sum to the sum of the item heights |
| MasonryLayout.TallestBoundsEveryItem | src/Masonry/index.js:127-142 | for every newly placed item, Y plus its height is at most `tallestColumnHeight` |
| MasonryLayout.ReplayKeepsSpread | src/Masonry/index.js:118-131 | greedy placement keeps every column within the tallest item's height of the shortest column |
| MasonryLayout.GreedyBalance | src/Masonry/index.js:118-142 | column × container height ≤ total item height + column × tallest item; the container is at most the average column plus one item |
| MasonryLayout.IncrementalAgreesWithFull | src/Masonry/index.js:107-141 | when the heights before `index` are unchanged since a full pass, a recompute from `index` on that pass's styles equals a full pass over the new heights |
| MasonryLayout.RecomputeIsIdempotent | src/Masonry/index.js:89-143 | with no height changed, a recompute from any index, even one past the last item, reproduces the full pass |
| MasonryLayout.RecomputeFromZeroIsFresh | src/Masonry/index.js:57-59 | a recompute from 0 ignores the old styles and is the layout of a freshly built component, with one style per item |
| MasonryComponent.ItemHeights | src/Masonry/index.js:98-100 | one height per mounted element, in registry order, each that element's `clientHeight` |
| MasonryComponent.ReplayColumns | src/Masonry/index.js:107-115 | the replay loop leaves the array holding `Replay` of its old contents over the prefix heights |
| MasonryComponent.PlaceItems | src/Masonry/index.js:117-138 | the placement loop returns `Place` of the columns over the remaining heights and leaves the array holding `Replay` of them |
| MasonryComponent.LayoutPass | src/Masonry/index.js:89-143 | the imperative pass, with its array and two loops, computes exactly the styles and height `Layout` specifies |
| MasonryComponent.Masonry.constructor | src/Masonry/index.js:21-38 | the initial state is no styles, height 0 and an empty registry |
| MasonryComponent.Masonry.SetMasonryItemRef | src/Masonry/index.js:79-81 | only the slot at `index` is overwritten; every other slot is unchanged |
| MasonryComponent.Masonry.UpdateItemStylesAfterIndex | src/Masonry/index.js:89-144 | the state becomes `Layout` of the registry's measured heights from `index`, over the old styles |
| MasonryComponent.Masonry.OnResize | src/Masonry/index.js:40-45 | one resize batch causes exactly one pass, starting at the least reported index |
| MasonryComponent.Masonry.ComponentDidUpdate | src/Masonry/index.js:54-59 | a changed column count lays every item out afresh; an unchanged one leaves the state alone |
| MasonryComponent.BatchRecomputeAgreesWithFull | src/Masonry/index.js:40-45 | if heights changed only at indices the batch reports, the single pass from the batch's least index ends in the full layout of the new heights |
| Registry.LiveKeys | src/Masonry/index.js:83-87 | the keys holding a non-null ref, strictly ascending, and all of them |
| Registry.GetMasonryItemRefs | src/Masonry/index.js:83-87 | exactly the non-null refs, position `i` holding the ref under the `i`-th live key in ascending order |
| Registry.Rendered | src/Masonry/index.js:168-172 | after a render of `n` children, slots `0 .. n-1` hold their elements and the unmounted slots after them hold `null` |
| Registry.RenderedRefs | src/Masonry/index.js:79-87 | after a render, `getMasonryItemRefs` returns the rendered elements in item order, so height `i` is item `i`'s |
| App.UpdateColumn | src/App.js:63-85 | widths above 1080 give 5 columns, 961–1080 give 4, 641–960 give 3, and at most 640 give 2; the result is always in 2..5 |
| App.UpdateColumnMonotone | src/App.js:26-30 | a wider window never gets fewer columns |
| LayoutExamples.TieBreakExample | src/Masonry/index.js:120-127 | three equal items over three empty columns go to columns 0, 1 and 2, all at Y = 0 |
| LayoutExamples.BalancingExample | src/Masonry/index.js:105-142 | heights 10, 20, 5, 15 over two columns give X = 0, 100, 0, 0 and Y = 0, 0, 10, 15 at width 50, with a container 30 high |

## Left out

- The React lifecycle, `render`'s JSX, `componentDidMount` and `componentWillUnmount` are UI plumbing. Only the ref callbacks of `render` are modelled, by `Registry.Rendered`.
- The CSS strings for `width` and `transform`, and the z-index and transition styles, are presentation. A style is modelled as its three numbers.
- `ResizeObserver` `observe`/`unobserve` and DOM measurement are a foreign library and the DOM. Heights come from a `clientHeight` parameter read at the time of the pass. A resize batch is a sequence of item indices.
- The re-observe step in `componentDidUpdate` when the child count changes is observer registration.
- The string-to-number coercion of the `index` attribute is not modelled: a batch is a non-empty sequence of `nat` indices.
- `Math.min()` over an empty batch is not modelled, since the observer never delivers an empty batch.
- JavaScript floating point in `100 / column` is not modelled: the width is an exact `real`.
- `column = 0` is not modelled. It yields `Infinity` and an `indexOf` of -1 in the source, and every pass requires `column >= 1`, which is also the prop's default.
- The demo application's `debounce`, timers, window resize listener and `fetchData` are event plumbing and network I/O. Its debounce branch that calls immediately can never run, because `setTimeout` never returns a falsy handle; `initUpdateColumn` exists for that reason.
- `webpack.config.js` is build configuration.
- Nodes carry an identity only. Which element an index maps to is modelled; the element's contents are not.
- MasonryComponent.Masonry.UpdateItemStylesAfterIndex: the old styles are cut with `slice(0, index)` as written. When `index` exceeds the number of old styles, the new styles follow a shorter prefix and are not index-aligned with the items. `MasonryLayout.LayoutShape` states this length.
