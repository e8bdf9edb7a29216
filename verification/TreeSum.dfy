/** tree_sum of amaranth_cfu/util.py: the adder tree it builds for a list of values. */
module TreeSum {
  import opened Words

  datatype Adder = Value(value: int) | Plus(left: Adder, right: Adder)
  {
    function Eval(): int { if Value? then value else left.Eval() + right.Eval() }

    // Additions on the longest path from a value to the result.
    function Depth(): nat
    {
      if Value? then 0
      else 1 + if left.Depth() > right.Depth() then left.Depth() else right.Depth()
    }

    // The values at the leaves, left to right.
    function Leaves(): seq<int> { if Value? then [value] else left.Leaves() + right.Leaves() }
  }

  function Build(l: seq<int>): Adder
    requires l != []
  {
    if |l| == 1 then Value(l[0])
    else
      var half := |l| / 2;
      Plus(Build(l[..half]), Build(l[half..]))
  }

  function Sum(l: seq<int>): int { if l == [] then 0 else Sum(l[..|l| - 1]) + l[|l| - 1] }

  lemma {:induction false} SumAppend(a: seq<int>, b: seq<int>)
    ensures Sum(a + b) == Sum(a) + Sum(b)
  {
    if b == [] {
      assert a + b == a;
    } else {
      var n := |b| - 1;
      SumAppend(a, b[..n]);
      assert (a + b)[..|a + b| - 1] == a + b[..n];
    }
  }

  // The tree adds every value exactly once, in order, and comes to the left-to-right sum.
  lemma {:induction false} TreeIsSum(l: seq<int>)
    requires l != []
    ensures Build(l).Eval() == Sum(l) && Build(l).Leaves() == l
  {
    if |l| == 1 {
      SumOne(l);
    } else {
      var half := |l| / 2;
      TreeIsSum(l[..half]);
      TreeIsSum(l[half..]);
      Halves(l, half);
    }
  }

  lemma SumOne(l: seq<int>)
    requires |l| == 1
    ensures Sum(l) == l[0]
  {
    assert Sum(l[..0]) == 0;
  }

  lemma Halves(l: seq<int>, half: nat)
    requires half <= |l|
    ensures l == l[..half] + l[half..] && Sum(l) == Sum(l[..half]) + Sum(l[half..])
  {
    assert l == l[..half] + l[half..];
    SumAppend(l[..half], l[half..]);
  }

  // The depth is the ceiling of the binary logarithm of the number of values.
  lemma {:induction false} TreeDepth(l: seq<int>)
    requires l != []
    ensures CeilLog2(|l|, Build(l).Depth())
  {
    if |l| > 1 {
      var half := |l| / 2;
      TreeDepth(l[..half]);
      TreeDepth(l[half..]);
      JoinDepths(half, |l| - half, Build(l[..half]).Depth(), Build(l[half..]).Depth());
    }
  }

  // d is the ceiling of the binary logarithm of n.
  ghost predicate CeilLog2(n: nat, d: nat) { n <= Pow2(d) && (d > 0 ==> Pow2(d - 1) < n) }

  lemma JoinDepths(m: nat, n: nat, d: nat, e: nat)
    requires 0 < m <= n <= m + 1 && CeilLog2(m, d) && CeilLog2(n, e)
    ensures CeilLog2(m + n, 1 + if d > e then d else e)
  {
    if d > e {
      Pow2Monotone(e, d - 1);
      assert false;
    } else if d < e {
      Pow2Monotone(d, e - 1);
    }
  }

  // No tree that adds the same values is shallower.
  lemma {:induction false} DepthIsLeast(t: Adder)
    ensures |t.Leaves()| <= Pow2(t.Depth())
  {
    if t.Plus? {
      DepthIsLeast(t.left);
      DepthIsLeast(t.right);
      Pow2Monotone(t.left.Depth(), t.Depth() - 1);
      Pow2Monotone(t.right.Depth(), t.Depth() - 1);
    }
  }

  lemma TreeIsShallowest(l: seq<int>, t: Adder)
    requires l != [] && t.Leaves() == l
    ensures Build(l).Depth() <= t.Depth()
  {
    TreeDepth(l);
    DepthIsLeast(t);
    if Build(l).Depth() > t.Depth() {
      Pow2Monotone(t.Depth(), Build(l).Depth() - 1);
    }
  }
}
