/**
 * The registry of mounted item elements: an object keyed by item index whose
 * values are element refs or `null` (React hands a ref callback `null` when
 * an element unmounts). `Object.values` lists integer keys in ascending
 * numeric order, so the registry's list of refs is ordered by item index,
 * and that order decides which measured height belongs to which item.
 */
module Registry {
  import opened Wrappers

  /** A mounted item element; its identity is all the layout needs. */
  datatype Node = Node(id: nat)

  /** `masonryItemRefs`: item index to ref. */
  type Refs = map<nat, Option<Node>>

  /** No key exceeds `k`. */
  predicate Bounds(keys: set<nat>, k: nat) {
    forall j :: j in keys ==> j <= k
  }

  lemma {:induction false} MaxKeyExists(keys: set<nat>)
    requires keys != {}
    ensures exists k :: k in keys && Bounds(keys, k)
    decreases |keys|
  {
    var x :| x in keys;
    if keys == {x} {
      assert Bounds(keys, x);
    } else {
      var rest := keys - {x};
      MaxKeyExists(rest);
      var y :| y in rest && Bounds(rest, y);
      var m := if x <= y then y else x;
      assert Bounds(keys, m) by {
        forall j | j in keys ensures j <= m {
          if j != x {
            assert j in rest;
          }
        }
      }
    }
  }

  /** The largest key in use. */
  function MaxKey(keys: set<nat>): (k: nat)
    requires keys != {}
    ensures k in keys && forall j :: j in keys ==> j <= k
  {
    MaxKeyExists(keys);
    var k :| k in keys && Bounds(keys, k);
    k
  }

  /** Whether slot `k` holds a non-null ref. */
  predicate Live(refs: Refs, k: nat) {
    k in refs && refs[k].Some?
  }

  /** The live keys below `n`, ascending. */
  function LiveKeysBelow(refs: Refs, n: nat): (keys: seq<nat>)
    ensures forall i :: 0 <= i < |keys| ==> keys[i] < n && Live(refs, keys[i])
    ensures forall i, j :: 0 <= i < j < |keys| ==> keys[i] < keys[j]
    ensures forall k :: 0 <= k < n && Live(refs, k) ==> k in keys
  {
    if n == 0 then []
    else LiveKeysBelow(refs, n - 1) + (if Live(refs, n - 1) then [n - 1] else [])
  }

  /** Every key holding a non-null ref, in ascending order. */
  function LiveKeys(refs: Refs): (keys: seq<nat>)
    ensures forall i :: 0 <= i < |keys| ==> Live(refs, keys[i])
    ensures forall i, j :: 0 <= i < j < |keys| ==> keys[i] < keys[j]
    ensures forall k :: Live(refs, k) ==> k in keys
  {
    if refs == map[] then []
    else
      var bound := MaxKey(refs.Keys) + 1;
      assert forall k :: k in refs ==> k < bound;
      LiveKeysBelow(refs, bound)
  }

  /** `getMasonryItemRefs`: the non-null refs, ordered by their index. */
  function GetMasonryItemRefs(refs: Refs): (nodes: seq<Node>)
    ensures |nodes| == |LiveKeys(refs)|
    ensures forall i :: 0 <= i < |nodes| ==> refs[LiveKeys(refs)[i]] == Some(nodes[i])
  {
    var keys := LiveKeys(refs);
    seq(|keys|, i requires 0 <= i < |keys| => refs[keys[i]].value)
  }

  /** The registry after a render of `nodes`, whose items are at indices
      `0 .. |nodes| - 1`, once `stale` items that used to follow them have
      unmounted and had their refs set to `null`. */
  function Rendered(nodes: seq<Node>, stale: nat): (refs: Refs)
    ensures forall k: nat :: k in refs <==> k < |nodes| + stale
    ensures forall k: nat :: k < |nodes| ==> k in refs && refs[k] == Some(nodes[k])
    ensures forall k: nat :: |nodes| <= k < |nodes| + stale ==> k in refs && refs[k] == None
  {
    map k: nat | k < |nodes| + stale :: if k < |nodes| then Some(nodes[k]) else None
  }

  function Range(n: nat): (r: seq<nat>)
    ensures |r| == n && forall i :: 0 <= i < n ==> r[i] == i
  {
    seq(n, i => i)
  }

  /** When exactly the slots below `live` hold refs, the live keys below `n`
      are `0, 1, ...` up to the smaller of the two. */
  lemma {:induction false} PrefixKeysBelow(refs: Refs, live: nat, n: nat)
    requires forall k: nat :: Live(refs, k) <==> k < live
    ensures LiveKeysBelow(refs, n) == Range(if n < live then n else live)
  {
    if n > 0 {
      PrefixKeysBelow(refs, live, n - 1);
      if n <= live {
        assert Live(refs, n - 1);
        assert Range(n - 1) + [n - 1] == Range(n);
      } else {
        assert !Live(refs, n - 1);
      }
    }
  }

  /** When exactly the slots below `live` hold refs, the live keys are
      `0, 1, ..., live - 1`. */
  lemma {:induction false} PrefixLiveKeys(refs: Refs, live: nat)
    requires forall k: nat :: Live(refs, k) <==> k < live
    ensures LiveKeys(refs) == Range(live)
  {
    if refs != map[] {
      var bound := MaxKey(refs.Keys) + 1;
      assert live <= bound by {
        if live > 0 {
          assert Live(refs, live - 1);
        }
      }
      PrefixKeysBelow(refs, live, bound);
    } else {
      assert !Live(refs, 0);
    }
  }

  /** After a render, the registry lists exactly the rendered elements, in
      item order: the `i`-th ref is the element of item `i`. */
  lemma {:induction false} RenderedRefs(nodes: seq<Node>, stale: nat)
    ensures GetMasonryItemRefs(Rendered(nodes, stale)) == nodes
  {
    var refs := Rendered(nodes, stale);
    assert forall k: nat :: Live(refs, k) <==> k < |nodes|;
    PrefixLiveKeys(refs, |nodes|);
  }
}
