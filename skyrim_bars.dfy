/** The bar-data step of createBarGraph (Skyrim.js): every child of the
    focused node gets its aggregate as its `value`, and then the children
    array is sorted in place so that the values do not increase. */
module SkyrimBars {
  import opened JsBuiltins
  import opened SkyrimTree

  /** `n` after `n.value = assignValuesForBars(n)`. */
  function WithAggregate(n: TreeNode): TreeNode
  {
    n.(value := Some(Aggregate(n)))
  }

  /** The nodes of `s` after `s.forEach(d => d.value = assignValuesForBars(d))`. */
  function WithAggregates(s: seq<TreeNode>): (r: seq<TreeNode>)
    ensures |r| == |s|
  {
    seq(|s|, i requires 0 <= i < |s| => WithAggregate(s[i]))
  }

  /** A node whose stored value is its own aggregate. */
  predicate Stored(n: TreeNode)
  {
    n.value == Some(Aggregate(n))
  }

  /** Storing the aggregate does not change it: a leaf's weight becomes its
      value, and an internal node's sum ignores its own value. So the stored
      value is the node's aggregate, and storing again changes nothing. */
  lemma WithAggregateStored(n: TreeNode)
    ensures Aggregate(WithAggregate(n)) == Aggregate(n)
    ensures Stored(WithAggregate(n))
    ensures WithAggregate(WithAggregate(n)) == WithAggregate(n)
  {
    if !n.isLeaf {
      assert WithAggregate(n).children == n.children;
    }
  }

  /** Every node has a number as its value. */
  predicate HasValues(s: seq<TreeNode>)
  {
    forall i :: 0 <= i < |s| ==> s[i].value.Some?
  }

  /** The values of `s` do not increase from left to right: the order
      produced by the comparator `(a, b) => b.value - a.value`. */
  predicate Descending(s: seq<TreeNode>)
    requires HasValues(s)
  {
    forall i, j :: 0 <= i < j < |s| ==> s[j].value.value <= s[i].value.value
  }

  /** `data.forEach(d => d.value = assignValuesForBars(d))`. */
  method AssignBarValues(data: array<TreeNode>)
    modifies data
    ensures data[..] == WithAggregates(old(data[..]))
    ensures forall i :: 0 <= i < data.Length ==> Stored(data[i])
  {
    for i := 0 to data.Length
      invariant forall k :: 0 <= k < i ==> data[k] == WithAggregate(old(data[k]))
      invariant forall k :: i <= k < data.Length ==> data[k] == old(data[k])
    {
      data[i] := data[i].(value := Some(Aggregate(data[i])));
    }
    forall i | 0 <= i < data.Length ensures Stored(data[i]) {
      WithAggregateStored(old(data[i]));
    }
  }

  /** `data.sort((a, b) => b.value - a.value)`, as an insertion sort by
      adjacent swaps: the result is a permutation in which the values do not
      increase. */
  method SortBarsDescending(data: array<TreeNode>)
    modifies data
    requires HasValues(data[..])
    ensures HasValues(data[..])
    ensures multiset(data[..]) == multiset(old(data[..]))
    ensures Descending(data[..])
  {
    for i := 0 to data.Length
      invariant HasValues(data[..])
      invariant multiset(data[..]) == multiset(old(data[..]))
      invariant Descending(data[..i])
    {
      InsertDescending(data, i);
    }
    assert data[..data.Length] == data[..];
  }

  /** One pass of the insertion sort: moves `data[i]` left past the smaller
      values before it, so that the first `i + 1` values do not increase. */
  method InsertDescending(data: array<TreeNode>, i: nat)
    modifies data
    requires i < data.Length
    requires HasValues(data[..]) && Descending(data[..i])
    ensures HasValues(data[..]) && Descending(data[..i + 1])
    ensures multiset(data[..]) == multiset(old(data[..]))
  {
    var j := i;
    while j > 0 && data[j - 1].value.value < data[j].value.value
      invariant 0 <= j <= i
      invariant forall k :: 0 <= k < data.Length ==> data[k].value.Some?
      invariant multiset(data[..]) == multiset(old(data[..]))
      invariant forall a, b :: 0 <= a < b <= i && a != j && b != j ==> data[b].value.value <= data[a].value.value
      invariant forall b :: j < b <= i ==> data[b].value.value < data[j].value.value
    {
      SwapAdjacent(data, j);
      j := j - 1;
    }
    forall a, b | 0 <= a < b <= i ensures data[b].value.value <= data[a].value.value {
      if b == j && a < j - 1 {
        assert data[j].value.value <= data[j - 1].value.value <= data[a].value.value;
      }
    }
  }

  /** Exchanges `data[j - 1]` and `data[j]`. */
  method SwapAdjacent(data: array<TreeNode>, j: nat)
    modifies data
    requires 0 < j < data.Length
    ensures data[j - 1] == old(data[j]) && data[j] == old(data[j - 1])
    ensures forall k :: 0 <= k < data.Length && k != j - 1 && k != j ==> data[k] == old(data[k])
    ensures multiset(data[..]) == multiset(old(data[..]))
  {
    data[j - 1], data[j] := data[j], data[j - 1];
    assert data[..] == old(data[..])[j - 1 := old(data[j])][j := old(data[j - 1])];
  }

  /** Lines 253-259 of createBarGraph: after the step, each child holds its
      aggregate as its value, the children are a permutation of the
      originals with those values, and the values do not increase. */
  method PrepareBarData(data: array<TreeNode>)
    modifies data
    ensures HasValues(data[..])
    ensures multiset(data[..]) == multiset(WithAggregates(old(data[..])))
    ensures Descending(data[..])
    ensures forall i :: 0 <= i < data.Length ==> Stored(data[i])
  {
    AssignBarValues(data);
    ghost var withValues := data[..];
    SortBarsDescending(data);
    forall i | 0 <= i < data.Length ensures Stored(data[i]) {
      assert data[i] in multiset(withValues);
    }
  }
}
