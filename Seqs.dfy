/** Sequence facts shared by the models: distinctness, first occurrences and
    first-seen de-duplication (the behaviour of a list guarded by a hash set). */
module Seqs {

  /** No element occurs twice: each element is absent from the elements before it. */
  predicate Distinct<T(==)>(xs: seq<T>)
    decreases |xs|
  {
    xs == [] || (Distinct(xs[..|xs| - 1]) && xs[|xs| - 1] !in xs[..|xs| - 1])
  }

  /** Distinct says that any two positions hold different elements. */
  lemma {:induction false} DistinctPairwise<T>(xs: seq<T>)
    ensures Distinct(xs) <==> forall i, j :: 0 <= i < j < |xs| ==> xs[i] != xs[j]
    decreases |xs|
  {
    if xs != [] {
      var init := xs[..|xs| - 1];
      DistinctPairwise(init);
      if Distinct(xs) {
        forall i, j | 0 <= i < j < |xs|
          ensures xs[i] != xs[j]
        {
          if j < |xs| - 1 {
            assert init[i] == xs[i] && init[j] == xs[j];
          } else {
            assert init[i] == xs[i];
          }
        }
      }
      if forall i, j :: 0 <= i < j < |xs| ==> xs[i] != xs[j] {
        forall i, j | 0 <= i < j < |init|
          ensures init[i] != init[j]
        {
          assert init[i] == xs[i] && init[j] == xs[j];
        }
      }
    }
  }

  /** A prefix of distinct elements is distinct, and the element after it is not in it. */
  lemma {:induction false} DistinctTake<T>(xs: seq<T>, j: nat)
    requires Distinct(xs) && j <= |xs|
    ensures Distinct(xs[..j])
    ensures j < |xs| ==> xs[j] !in xs[..j]
    decreases |xs|
  {
    if j == |xs| {
      assert xs[..j] == xs;
    } else {
      var init := xs[..|xs| - 1];
      assert init[..j] == xs[..j];
      if j < |init| {
        DistinctTake(init, j);
        assert init[j] == xs[j];
      } else {
        assert init == xs[..j];
      }
    }
  }

  /** The position of the first occurrence of `x` in `xs`. */
  function FirstIndex<T(==)>(xs: seq<T>, x: T): (k: nat)
    requires x in xs
    ensures k < |xs| && xs[k] == x
    ensures forall i :: 0 <= i < k ==> xs[i] != x
    decreases |xs|
  {
    if xs[0] == x then 0 else 1 + FirstIndex(xs[1..], x)
  }

  /** The elements of `xs`, each once, kept where it first occurs: what a loop that
      appends an element only when a set of seen elements lacks it produces. */
  function Dedup<T(==)>(xs: seq<T>): (r: seq<T>)
    ensures Distinct(r)
    decreases |xs|
  {
    if xs == [] then []
    else
      var d := Dedup(xs[..|xs| - 1]);
      var x := xs[|xs| - 1];
      assert (d + [x])[..|d|] == d;
      if x in d then d else d + [x]
  }

  /** The set of the elements of `xs`. */
  function Elements<T>(xs: seq<T>): set<T>
    decreases |xs|
  {
    if xs == [] then {} else Elements(xs[..|xs| - 1]) + {xs[|xs| - 1]}
  }

  lemma {:induction false} ElementsMembership<T>(xs: seq<T>, x: T)
    ensures x in Elements(xs) <==> x in xs
    decreases |xs|
  {
    if xs != [] {
      var init := xs[..|xs| - 1];
      assert xs == init + [xs[|xs| - 1]];
      ElementsMembership(init, x);
    }
  }

  /** A sequence without repeats has as many distinct elements as positions. */
  lemma {:induction false} DistinctCard<T>(xs: seq<T>)
    requires Distinct(xs)
    ensures |Elements(xs)| == |xs|
    decreases |xs|
  {
    if xs != [] {
      var init := xs[..|xs| - 1];
      DistinctCard(init);
      ElementsMembership(init, xs[|xs| - 1]);
    }
  }

  lemma ElementsAppend<T>(xs: seq<T>, x: T)
    ensures Elements(xs + [x]) == Elements(xs) + {x}
  {
    assert (xs + [x])[..|xs|] == xs;
  }

  lemma AppendSliceStep<T>(xs: seq<T>, ys: seq<T>, i: nat)
    requires i < |ys|
    ensures xs + ys[..i + 1] == (xs + ys[..i]) + [ys[i]]
  {
    assert ys[..i + 1] == ys[..i] + [ys[i]];
  }

  /** Dedup lists exactly the elements of its input. */
  lemma {:induction false} DedupMembership<T>(xs: seq<T>, x: T)
    ensures x in Dedup(xs) <==> x in xs
    decreases |xs|
  {
    if xs != [] {
      var init := xs[..|xs| - 1];
      assert xs == init + [xs[|xs| - 1]];
      DedupMembership(init, x);
    }
  }

  /** One more element either is already listed by Dedup or is appended to its list. */
  lemma DedupAppend<T>(xs: seq<T>, x: T)
    ensures Dedup(xs + [x]) == if x in xs then Dedup(xs) else Dedup(xs) + [x]
  {
    assert (xs + [x])[..|xs|] == xs;
    DedupMembership(xs, x);
  }

  lemma FirstIndexAppend<T>(xs: seq<T>, x: T, y: T)
    requires y in xs
    ensures FirstIndex(xs + [x], y) == FirstIndex(xs, y)
  {
    var k := FirstIndex(xs, y);
    var k' := FirstIndex(xs + [x], y);
    assert (xs + [x])[k] == y;
  }

  /** Dedup lists the elements in the order of their first occurrence in the input. */
  lemma {:induction false} DedupFirstSeenOrder<T>(xs: seq<T>, i: nat, j: nat)
    requires i < j < |Dedup(xs)|
    ensures Dedup(xs)[i] in xs && Dedup(xs)[j] in xs
    ensures FirstIndex(xs, Dedup(xs)[i]) < FirstIndex(xs, Dedup(xs)[j])
    decreases |xs|
  {
    var init := xs[..|xs| - 1];
    var x := xs[|xs| - 1];
    assert xs == init + [x];
    DedupAppend(init, x);
    var d := Dedup(init);
    assert Dedup(xs)[i] == d[i];
    DedupMembership(init, d[i]);
    DedupMembership(xs, Dedup(xs)[i]);
    DedupMembership(xs, Dedup(xs)[j]);
    FirstIndexAppend(init, x, Dedup(xs)[i]);
    if j < |d| {
      assert Dedup(xs)[j] == d[j];
      DedupMembership(init, d[j]);
      FirstIndexAppend(init, x, Dedup(xs)[j]);
      DedupFirstSeenOrder(init, i, j);
    } else {
      assert Dedup(xs)[j] == x && x !in init;
      assert FirstIndex(xs, x) == |init|;
    }
  }

  /** The first position whose element already occurred earlier, or |xs| when the
      elements are distinct. */
  function FirstRepeat<T(==)>(xs: seq<T>): (k: nat)
    ensures k <= |xs|
  {
    FirstRepeatFrom(xs, 0)
  }

  function FirstRepeatFrom<T(==)>(xs: seq<T>, k: nat): (r: nat)
    requires k <= |xs|
    ensures k <= r <= |xs|
    decreases |xs| - k
  {
    if k == |xs| then k
    else if xs[k] in xs[..k] then k
    else FirstRepeatFrom(xs, k + 1)
  }

  /** The elements before the first repeat are distinct, and the element at it occurred
      before it. */
  lemma FirstRepeatSpec<T>(xs: seq<T>)
    ensures Distinct(xs[..FirstRepeat(xs)])
    ensures FirstRepeat(xs) < |xs| ==> xs[FirstRepeat(xs)] in xs[..FirstRepeat(xs)]
  {
    FirstRepeatFromSpec(xs, 0);
  }

  lemma {:induction false} FirstRepeatFromSpec<T>(xs: seq<T>, k: nat)
    requires k <= |xs| && Distinct(xs[..k])
    ensures Distinct(xs[..FirstRepeatFrom(xs, k)])
    ensures FirstRepeatFrom(xs, k) < |xs| ==> xs[FirstRepeatFrom(xs, k)] in xs[..FirstRepeatFrom(xs, k)]
    decreases |xs| - k
  {
    if k < |xs| && xs[k] !in xs[..k] {
      assert xs[..k + 1][..k] == xs[..k];
      FirstRepeatFromSpec(xs, k + 1);
    }
  }

  /** A position whose element occurred before it, after distinct elements, is the first
      repeat. */
  lemma FirstRepeatAt<T>(xs: seq<T>, k: nat)
    requires k < |xs| && Distinct(xs[..k]) && xs[k] in xs[..k]
    ensures FirstRepeat(xs) == k
  {
    FirstRepeatFromAt(xs, 0, k);
  }

  lemma {:induction false} FirstRepeatFromAt<T>(xs: seq<T>, j: nat, k: nat)
    requires j <= k < |xs| && Distinct(xs[..k]) && xs[k] in xs[..k]
    ensures FirstRepeatFrom(xs, j) == k
    decreases k - j
  {
    assert xs[..k][..j] == xs[..j];
    DistinctTake(xs[..k], j);
    if j < k {
      assert xs[..k][j] == xs[j];
      FirstRepeatFromAt(xs, j + 1, k);
    }
  }

  lemma DistinctExtend<T>(xs: seq<T>, k: nat)
    requires k < |xs| && Distinct(xs[..k]) && xs[k] !in xs[..k]
    ensures Distinct(xs[..k + 1])
  {
    assert xs[..k + 1][..k] == xs[..k];
  }

  /** The elements are distinct exactly when no position repeats an earlier one. */
  lemma FirstRepeatDistinct<T>(xs: seq<T>)
    ensures Distinct(xs) <==> FirstRepeat(xs) == |xs|
  {
    var k := FirstRepeat(xs);
    FirstRepeatSpec(xs);
    assert xs[..|xs|] == xs;
    if k < |xs| && Distinct(xs) {
      DistinctTake(xs, k);
    }
  }
}
