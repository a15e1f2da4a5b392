/** Sizes of the trees in a Merkle mountain range (pkg/inclusion/commitment.go). */
module Mountain {
  import opened PowersOfTwo

  function Sum(s: seq<nat>): (r: nat)
  {
    if s == [] then 0 else s[0] + Sum(s[1..])
  }

  lemma {:induction false} SumAppend(s: seq<nat>, t: seq<nat>)
    ensures Sum(s + t) == Sum(s) + Sum(t)
  {
    if s == [] {
      assert s + t == t;
    } else {
      assert (s + t)[1..] == s[1..] + t;
      SumAppend(s[1..], t);
    }
  }

  lemma SumSnoc(s: seq<nat>, i: nat)
    requires i < |s|
    ensures Sum(s[..i + 1]) == Sum(s[..i]) + s[i]
    ensures Sum(s[..i + 1]) <= Sum(s)
  {
    assert s[..i + 1] == s[..i] + [s[i]];
    SumAppend(s[..i], [s[i]]);
    assert s == s[..i + 1] + s[i + 1..];
    SumAppend(s[..i + 1], s[i + 1..]);
  }

  /** The next tree: `maxTreeSize` leaves while they fit, then the largest power of two that does. */
  function NextTree(totalSize: nat, maxTreeSize: nat): (r: nat)
    requires maxTreeSize > 0 && totalSize > 0
    ensures 0 < r <= totalSize && r <= maxTreeSize
  {
    if totalSize >= maxTreeSize then maxTreeSize else RoundDown(totalSize)
  }

  function Mountains(totalSize: nat, maxTreeSize: nat): (r: seq<nat>)
    requires maxTreeSize > 0 || totalSize == 0
    decreases totalSize
  {
    if totalSize == 0 then []
    else
      [NextTree(totalSize, maxTreeSize)]
      + Mountains(totalSize - NextTree(totalSize, maxTreeSize), maxTreeSize)
  }

  /** The trees cover all leaves and, with a power-of-two bound, are non-increasing powers of two. */
  lemma {:induction false} MountainsShape(totalSize: nat, maxTreeSize: nat)
    requires IsPow2(maxTreeSize)
    ensures var m := Mountains(totalSize, maxTreeSize);
            && Sum(m) == totalSize
            && (forall i :: 0 <= i < |m| ==> IsPow2(m[i]) && m[i] <= maxTreeSize && m[i] <= totalSize)
            && (forall i, j :: 0 <= i < j < |m| ==> m[j] <= m[i])
    decreases totalSize
  {
    if totalSize != 0 {
      var size := NextTree(totalSize, maxTreeSize);
      var rest := Mountains(totalSize - size, maxTreeSize);
      RoundDownIsPow2(totalSize);
      MountainsShape(totalSize - size, maxTreeSize);
      assert Mountains(totalSize, maxTreeSize)[1..] == rest;
    }
  }

  /** `a` is a sum of `w`s. */
  predicate IsMultiple(a: nat, w: nat)
    requires w > 0
  {
    a == 0 || (a >= w && IsMultiple(a - w, w))
  }

  lemma {:induction false} ProductIsMultiple(a: nat, q: nat, w: nat)
    requires w > 0 && a == q * w
    ensures IsMultiple(a, w)
    decreases q
  {
    if q > 0 {
      assert q * w == (q - 1) * w + w;
      assert (q - 1) * w >= 0;
      ProductIsMultiple(a - w, q - 1, w);
    }
  }

  lemma {:induction false} SumIsMultiple(a: nat, b: nat, w: nat)
    requires w > 0 && IsMultiple(a, w) && IsMultiple(b, w)
    ensures IsMultiple(a + b, w)
    decreases a
  {
    if a > 0 {
      SumIsMultiple(a - w, b, w);
      assert a - w + b == a + b - w;
    }
  }

  /** Whole trees split off: a range can be cut after any number of full-size trees. */
  lemma {:induction false} MountainsSplit(a: nat, rest: nat, w: nat)
    requires w > 0 && IsMultiple(a, w)
    ensures Mountains(a + rest, w) == Mountains(a, w) + Mountains(rest, w)
    decreases a
  {
    if a > 0 {
      FullTreeFirst(a, w);
      FullTreeFirst(a + rest, w);
      MountainsSplit(a - w, rest, w);
      assert a - w + rest == a + rest - w;
    }
  }

  lemma FullTreeFirst(a: nat, w: nat)
    requires 0 < w <= a
    ensures Mountains(a, w) == [w] + Mountains(a - w, w)
  {
  }

  /** What is left to cover after the given number of iterations of the loop below. */
  function Remaining(totalSize: nat, maxTreeSize: nat, steps: nat): (r: nat)
  {
    if steps == 0 then totalSize
    else
      var before := Remaining(totalSize, maxTreeSize, steps - 1);
      if before == 0 then 0
      else if before >= maxTreeSize then before - maxTreeSize
      else before - RoundDown(before)
  }

  /** MerkleMountainRangeSizes. The loop ends because something is covered every time. */
  method MerkleMountainRangeSizes(totalSize0: nat, maxTreeSize: nat) returns (treeSizes: seq<nat>, ghost steps: nat)
    requires maxTreeSize > 0 || totalSize0 == 0
    ensures treeSizes == Mountains(totalSize0, maxTreeSize)
    ensures Remaining(totalSize0, maxTreeSize, steps) == 0
  {
    var totalSize: nat := totalSize0;
    treeSizes, steps := [], 0;
    while totalSize != 0
      invariant treeSizes + Mountains(totalSize, maxTreeSize) == Mountains(totalSize0, maxTreeSize)
      invariant totalSize == Remaining(totalSize0, maxTreeSize, steps)
    {
      steps := steps + 1;
      if totalSize >= maxTreeSize {
        treeSizes := treeSizes + [maxTreeSize];
        totalSize := totalSize - maxTreeSize;
      } else {
        var treeSize := RoundDownPowerOfTwo(totalSize);
        treeSizes := treeSizes + [treeSize.value];
        totalSize := totalSize - treeSize.value;
      }
    }
  }

  /** With trees of size 0 the same iterations never cover anything. */
  lemma {:induction false} EmptyTreesDiverge(totalSize: nat, steps: nat)
    ensures Remaining(totalSize, 0, steps) == totalSize
  {
    if steps > 0 {
      EmptyTreesDiverge(totalSize, steps - 1);
    }
  }
}
