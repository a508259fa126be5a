/** Sequences of optional values, as the crawler's loops produce them: one
    entry per item processed, present when the item contributed a value. */
module OptionSeqs {
  import opened Http

  /** The present values of `xs`, in order. */
  function Somes<T>(xs: seq<Option<T>>): seq<T>
    decreases |xs|
  {
    if xs == [] then []
    else Somes(xs[..|xs| - 1]) + (if xs[|xs| - 1].Some? then [xs[|xs| - 1].value] else [])
  }

  /** The positions of the present values of `xs`, in increasing order. */
  function SomePositions<T>(xs: seq<Option<T>>): (ps: seq<nat>)
    ensures forall i, j :: 0 <= i < j < |ps| ==> ps[i] < ps[j]
    ensures forall k: nat :: k in ps <==> k < |xs| && xs[k].Some?
    decreases |xs|
  {
    if xs == [] then []
    else
      var ps := SomePositions(xs[..|xs| - 1]);
      assert forall i :: 0 <= i < |ps| ==> ps[i] in ps;
      ps + (if xs[|xs| - 1].Some? then [|xs| - 1] else [])
  }

  /** The `j`-th present value sits at the `j`-th present position. */
  lemma {:induction false} SomesAt<T>(xs: seq<Option<T>>)
    ensures var ps := SomePositions(xs);
            |Somes(xs)| == |ps| && forall j :: 0 <= j < |ps| ==> ps[j] < |xs| && xs[ps[j]] == Some(Somes(xs)[j])
    decreases |xs|
  {
    if xs != [] {
      var init := xs[..|xs| - 1];
      SomesAt(init);
      var ps := SomePositions(xs);
      var before := SomePositions(init);
      forall j | 0 <= j < |ps|
        ensures ps[j] < |xs| && xs[ps[j]] == Some(Somes(xs)[j])
      {
        if j < |before| {
          assert ps[j] == before[j] && Somes(xs)[j] == Somes(init)[j];
        }
      }
    }
  }
}
