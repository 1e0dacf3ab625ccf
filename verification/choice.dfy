/** Extended integers for the search window and the "first strictly
    greatest" selection the search uses in three places. */
module Choice {

  /** An integer or one of the two sentinels the source starts its
      maximisations and minimisations from (Integer.MIN_VALUE and
      Integer.MAX_VALUE), read here as minus and plus infinity. */
  datatype Ext = NegInf | Fin(n: int) | PosInf

  predicate Le(a: Ext, b: Ext) {
    a.NegInf? || b.PosInf? || (a.Fin? && b.Fin? && a.n <= b.n)
  }

  predicate Lt(a: Ext, b: Ext) {
    !Le(b, a)
  }

  function Max(a: Ext, b: Ext): (r: Ext)
    ensures Le(a, r) && Le(b, r) && (r == a || r == b)
  {
    if Le(a, b) then b else a
  }

  function Min(a: Ext, b: Ext): (r: Ext)
    ensures Le(r, a) && Le(r, b) && (r == a || r == b)
  {
    if Le(a, b) then a else b
  }

  /** The loop `best = xs[0]; for i: if xs[i] > best then best = xs[i]`
      from index i on, with k the index of the best so far. */
  function PickFrom(xs: seq<int>, i: nat, k: nat): (r: nat)
    requires k < i <= |xs|
    requires forall j | 0 <= j < i :: xs[j] <= xs[k]
    requires forall j | 0 <= j < k :: xs[j] < xs[k]
    ensures r < |xs|
    ensures forall j | 0 <= j < |xs| :: xs[j] <= xs[r]
    ensures forall j | 0 <= j < r :: xs[j] < xs[r]
    decreases |xs| - i
  {
    if i == |xs| then k
    else if xs[i] > xs[k] then PickFrom(xs, i + 1, i)
    else PickFrom(xs, i + 1, k)
  }

  /** The index of the first strictly greatest element: later elements that
      only tie with the best so far never replace it. */
  function FirstArgMax(xs: seq<int>): (k: nat)
    requires |xs| > 0
    ensures k < |xs|
    ensures forall j | 0 <= j < |xs| :: xs[j] <= xs[k]
    ensures forall j | 0 <= j < k :: xs[j] < xs[k]
  {
    PickFrom(xs, 1, 0)
  }

  /** The two properties determine the index. */
  lemma FirstArgMaxUnique(xs: seq<int>, k: nat)
    requires k < |xs|
    requires forall j | 0 <= j < |xs| :: xs[j] <= xs[k]
    requires forall j | 0 <= j < k :: xs[j] < xs[k]
    ensures FirstArgMax(xs) == k
  {
    var r := FirstArgMax(xs);
    if r != k {
      assert false;
    }
  }

  /** Appending an element: it becomes the choice only when strictly greater
      than every earlier element. */
  lemma FirstArgMaxAppend(xs: seq<int>, x: int)
    requires |xs| > 0
    ensures FirstArgMax(xs + [x]) == if x > xs[FirstArgMax(xs)] then |xs| else FirstArgMax(xs)
  {
    var k := FirstArgMax(xs);
    var ys := xs + [x];
    if x > xs[k] {
      FirstArgMaxUnique(ys, |xs|);
    } else {
      FirstArgMaxUnique(ys, k);
    }
  }
}
