/**
 * The demo application's responsive column count: `updateColumn` maps the
 * window's inner width to the `column` prop through three breakpoints.
 */
module App {
  const SMALL: int := 640
  const MEDIUM: int := 960
  const LARGE: int := 1080

  /** `updateColumn`: the first breakpoint the width exceeds decides. */
  function UpdateColumn(innerWidth: int): (column: nat)
    ensures 2 <= column <= 5
    ensures column == 5 <==> LARGE < innerWidth
    ensures column == 4 <==> MEDIUM < innerWidth <= LARGE
    ensures column == 3 <==> SMALL < innerWidth <= MEDIUM
    ensures column == 2 <==> innerWidth <= SMALL
  {
    if innerWidth > LARGE then 5
    else if innerWidth > MEDIUM then 4
    else if innerWidth > SMALL then 3
    else 2
  }

  /** A wider window never gets fewer columns. */
  lemma UpdateColumnMonotone(narrower: int, wider: int)
    requires narrower <= wider
    ensures UpdateColumn(narrower) <= UpdateColumn(wider)
  {
  }
}
