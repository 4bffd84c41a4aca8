/**
  The list-building loops the scripts repeat: appending what each element gives
  (`rv += f(x)` over a list), keeping the elements that pass a test (a list
  comprehension with an `if`), and one result per element (a loop that prints or
  appends one value for each), and the search for the first element that passes a test.
 */
module Lists {

  import opened Wrappers

  /** The concatenation of what `f` gives for each element, in order. */
  function Collect<A, B>(xs: seq<A>, f: A -> seq<B>): seq<B>
    decreases |xs|
  {
    if xs == [] then [] else Collect(xs[..|xs| - 1], f) + f(xs[|xs| - 1])
  }

  /** An element of the result comes from some element of the input, and everything each element gives is kept. */
  lemma {:induction false} CollectIn<A, B>(xs: seq<A>, f: A -> seq<B>, y: B)
    ensures y in Collect(xs, f) <==> exists i :: GivenBy(xs, f, i, y)
    decreases |xs|
  {
    if xs != [] {
      var n := |xs| - 1;
      var init := xs[..n];
      assert Collect(xs, f) == Collect(init, f) + f(xs[n]);
      CollectIn(init, f, y);
      if y in Collect(init, f) {
        var i :| GivenBy(init, f, i, y);
        assert init[i] == xs[i];
        assert GivenBy(xs, f, i, y);
      } else if y in f(xs[n]) {
        assert GivenBy(xs, f, n, y);
      }
      if exists i :: GivenBy(xs, f, i, y) {
        var i :| GivenBy(xs, f, i, y);
        if i < n {
          assert init[i] == xs[i];
          assert GivenBy(init, f, i, y);
        }
      }
    }
  }

  /** Element `i` of `xs` gives `y`. */
  ghost predicate GivenBy<A, B>(xs: seq<A>, f: A -> seq<B>, i: int, y: B) {
    0 <= i < |xs| && y in f(xs[i])
  }

  /** One more element appends what it gives. */
  lemma CollectPrefix<A, B>(xs: seq<A>, f: A -> seq<B>, i: nat)
    requires i < |xs|
    ensures Collect(xs[..i + 1], f) == Collect(xs[..i], f) + f(xs[i])
  {
    assert xs[..i + 1][..i] == xs[..i];
  }

  /** When no element gives anything, nothing is collected. */
  lemma {:induction false} CollectNothing<A, B>(xs: seq<A>, f: A -> seq<B>)
    requires forall i :: 0 <= i < |xs| ==> f(xs[i]) == []
    ensures Collect(xs, f) == []
    decreases |xs|
  {
    if xs != [] {
      CollectNothing(xs[..|xs| - 1], f);
    }
  }

  /** Appending is associative. */
  /** An element of a concatenation comes from its first part or, past that, from its second. */
  lemma ConcatAt<A>(xs: seq<A>, ys: seq<A>, zs: seq<A>, k: nat)
    requires zs == xs + ys && k < |zs|
    ensures if k < |xs| then zs[k] == xs[k] else k - |xs| < |ys| && zs[k] == ys[k - |xs|]
  {
  }

  lemma ConcatAssoc<A>(a: seq<A>, b: seq<A>, c: seq<A>)
    ensures (a + b) + c == a + (b + c)
  {
  }

  /** The elements that pass `p`, in order. */
  function Filter<A>(xs: seq<A>, p: A -> bool): seq<A>
    decreases |xs|
  {
    if xs == [] then []
    else Filter(xs[..|xs| - 1], p) + (if p(xs[|xs| - 1]) then [xs[|xs| - 1]] else [])
  }

  /** The result holds exactly the input elements that pass `p`. */
  lemma {:induction false} FilterIn<A>(xs: seq<A>, p: A -> bool, x: A)
    ensures x in Filter(xs, p) <==> x in xs && p(x)
    decreases |xs|
  {
    if xs != [] {
      FilterIn(xs[..|xs| - 1], p, x);
      assert xs == xs[..|xs| - 1] + [xs[|xs| - 1]];
    }
  }

  lemma FilterPrefix<A>(xs: seq<A>, p: A -> bool, i: nat)
    requires i < |xs|
    ensures Filter(xs[..i + 1], p) == Filter(xs[..i], p) + (if p(xs[i]) then [xs[i]] else [])
  {
    assert xs[..i + 1][..i] == xs[..i];
  }

  /** One result per element, in order. */
  function Map<A, B>(xs: seq<A>, f: A -> B): seq<B>
    decreases |xs|
  {
    if xs == [] then [] else Map(xs[..|xs| - 1], f) + [f(xs[|xs| - 1])]
  }

  /** The `i`-th result is what `f` gives for the `i`-th element. */
  lemma {:induction false} MapAt<A, B>(xs: seq<A>, f: A -> B)
    ensures |Map(xs, f)| == |xs|
    ensures forall i :: 0 <= i < |xs| ==> Map(xs, f)[i] == f(xs[i])
    decreases |xs|
  {
    if xs != [] {
      MapAt(xs[..|xs| - 1], f);
    }
  }

  lemma MapPrefix<A, B>(xs: seq<A>, f: A -> B, i: nat)
    requires i < |xs|
    ensures Map(xs[..i + 1], f) == Map(xs[..i], f) + [f(xs[i])]
  {
    assert xs[..i + 1][..i] == xs[..i];
  }

  /** Some element passes `p`. */
  predicate Any<A>(xs: seq<A>, p: A -> bool) {
    exists i :: 0 <= i < |xs| && p(xs[i])
  }

  lemma AnyLast<A>(xs: seq<A>, p: A -> bool)
    requires xs != []
    ensures Any(xs, p) <==> Any(xs[..|xs| - 1], p) || p(xs[|xs| - 1])
  {
    var n := |xs| - 1;
    if Any(xs[..n], p) {
      var i :| 0 <= i < n && p(xs[..n][i]);
      assert xs[..n][i] == xs[i];
    }
    if Any(xs, p) {
      var i :| 0 <= i < |xs| && p(xs[i]);
      if i < n {
        assert xs[..n][i] == xs[i];
      }
    }
  }

  /** The first element that passes `p`, if any. */
  function First<A>(xs: seq<A>, p: A -> bool): Option<A>
    decreases |xs|
  {
    if xs == [] then None else if p(xs[0]) then Some(xs[0]) else First(xs[1..], p)
  }

  /** The element at `i` passes and none before it does: it is the first. */
  lemma {:induction false} FirstAt<A>(xs: seq<A>, p: A -> bool, i: nat)
    requires i < |xs| && p(xs[i])
    requires forall j :: 0 <= j < i ==> !p(xs[j])
    ensures First(xs, p) == Some(xs[i])
    decreases i
  {
    if i > 0 {
      assert !p(xs[0]);
      FirstAt(xs[1..], p, i - 1);
    }
  }

  /** No element passes: there is no first. */
  lemma {:induction false} FirstNone<A>(xs: seq<A>, p: A -> bool)
    requires forall j :: 0 <= j < |xs| ==> !p(xs[j])
    ensures First(xs, p) == None
    decreases |xs|
  {
    if xs != [] {
      assert !p(xs[0]);
      FirstNone(xs[1..], p);
    }
  }

  /** What `First` finds is an element that passes, and it finds one whenever some element passes. */
  lemma {:induction false} FirstSpec<A>(xs: seq<A>, p: A -> bool)
    ensures First(xs, p).Some? ==> First(xs, p).value in xs && p(First(xs, p).value)
    ensures First(xs, p).None? <==> forall j :: 0 <= j < |xs| ==> !p(xs[j])
    decreases |xs|
  {
    if xs != [] && !p(xs[0]) {
      FirstSpec(xs[1..], p);
      if forall j :: 0 <= j < |xs[1..]| ==> !p(xs[1..][j]) {
        forall j | 0 <= j < |xs| ensures !p(xs[j]) {
          if j > 0 {
            assert xs[j] == xs[1..][j - 1];
          }
        }
      }
    }
  }
}
