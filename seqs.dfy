/** Sequence facts and the filter-map the model's lists are built with. */
module Seqs {
  import opened Wrappers

  /** Concatenation regroups freely. */
  lemma AppendAssoc<T>(x: seq<T>, y: seq<T>, z: seq<T>)
    ensures (x + y) + z == x + (y + z)
  {
  }

  /** A left-nested concatenation of four parts is its head followed by the other three. */
  lemma AppendAssoc4<T>(w: seq<T>, x: seq<T>, y: seq<T>, z: seq<T>)
    ensures w + x + y + z == w + (x + y + z)
  {
    AppendAssoc(w + x, y, z);
    AppendAssoc(w, x, y + z);
    AppendAssoc(x, y, z);
  }

  /** An optional value as a list of zero or one elements. */
  function AsSeq<T>(o: Option<T>): seq<T> {
    match o
    case None => []
    case Some(x) => [x]
  }

  /** The values `f` yields over `xs`, in order, skipping `None`. */
  function Somes<A, B>(xs: seq<A>, f: A -> Option<B>): seq<B> {
    if xs == [] then []
    else Somes(xs[..|xs| - 1], f) + AsSeq(f(xs[|xs| - 1]))
  }

  /** When `f` yields a value everywhere, there is one value per element. */
  lemma {:induction false} SomesLength<A, B>(xs: seq<A>, f: A -> Option<B>)
    requires forall i :: 0 <= i < |xs| ==> f(xs[i]).Some?
    ensures |Somes(xs, f)| == |xs|
    decreases |xs|
  {
    if xs != [] {
      var init := xs[..|xs| - 1];
      assert forall i :: 0 <= i < |init| ==> init[i] == xs[i];
      SomesLength(init, f);
    }
  }

  /** When `f` yields a value everywhere, the value at index `k` is the one for element `k`. */
  lemma {:induction false} SomesAt<A, B>(xs: seq<A>, f: A -> Option<B>, k: nat)
    requires forall i :: 0 <= i < |xs| ==> f(xs[i]).Some?
    requires k < |xs|
    ensures |Somes(xs, f)| == |xs| && f(xs[k]) == Some(Somes(xs, f)[k])
    decreases |xs|
  {
    var n := |xs| - 1;
    var init := xs[..n];
    assert forall i :: 0 <= i < |init| ==> init[i] == xs[i];
    SomesLength(init, f);
    var prev, v := Somes(init, f), f(xs[n]).value;
    assert Somes(xs, f) == prev + [v];
    if k < n {
      SomesAt(init, f, k);
      assert (prev + [v])[k] == prev[k];
    }
  }
}
