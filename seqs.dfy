/** Facts about sequence concatenation that the recursive definitions of the model unfold to. */
module Seqs {

  lemma HeadOfConcat<T>(a: seq<T>, b: seq<T>)
    requires a != []
    ensures (a + b)[0] == a[0] && (a + b)[1..] == a[1..] + b
  {
  }

  lemma LastOfConcat<T>(a: seq<T>, b: seq<T>)
    requires b != []
    ensures (a + b)[|a + b| - 1] == b[|b| - 1] && (a + b)[..|a + b| - 1] == a + b[..|b| - 1]
  {
  }

  lemma ConcatAssociates<T>(x: seq<T>, y: seq<T>, z: seq<T>)
    ensures x + (y + z) == (x + y) + z
  {
  }

  /** The concatenation of the pieces, in order. */
  function Flat<T>(pieces: seq<seq<T>>): seq<T> {
    if pieces == [] then [] else Flat(pieces[..|pieces| - 1]) + pieces[|pieces| - 1]
  }

  /** The positions of the non-empty pieces, in increasing order. */
  function NonEmptyAt<T>(pieces: seq<seq<T>>): seq<int> {
    if pieces == [] then []
    else
      var last := |pieces| - 1;
      NonEmptyAt(pieces[..last]) + if pieces[last] != [] then [last] else []
  }

  /** When no piece holds more than one element, the `k`-th element is the one of the `k`-th non-empty piece. */
  lemma {:induction false} FlatOfSingles<T>(pieces: seq<seq<T>>)
    requires forall i :: 0 <= i < |pieces| ==> |pieces[i]| <= 1
    ensures var at, flat := NonEmptyAt(pieces), Flat(pieces);
      |at| == |flat| &&
      forall k :: 0 <= k < |at| ==> 0 <= at[k] < |pieces| && pieces[at[k]] != [] && flat[k] == pieces[at[k]][0]
  {
    if pieces != [] {
      var last := |pieces| - 1;
      var init := pieces[..last];
      FlatOfSingles(init);
      var at, flat := NonEmptyAt(pieces), Flat(pieces);
      var at', flat' := NonEmptyAt(init), Flat(init);
      assert at == at' + if pieces[last] != [] then [last] else [];
      assert flat == flat' + pieces[last];
      forall k | 0 <= k < |at|
        ensures 0 <= at[k] < |pieces| && pieces[at[k]] != [] && flat[k] == pieces[at[k]][0]
      {
        if k < |at'| {
          assert at[k] == at'[k] && flat[k] == flat'[k];
          assert pieces[at[k]] == init[at'[k]];
        }
      }
    }
  }

  /** The positions increase. */
  lemma {:induction false} NonEmptyAtIncreases<T>(pieces: seq<seq<T>>)
    ensures forall k :: 0 <= k < |NonEmptyAt(pieces)| ==> 0 <= NonEmptyAt(pieces)[k] < |pieces|
    ensures forall k, l :: 0 <= k < l < |NonEmptyAt(pieces)| ==> NonEmptyAt(pieces)[k] < NonEmptyAt(pieces)[l]
  {
    if pieces != [] {
      var last := |pieces| - 1;
      var at, at' := NonEmptyAt(pieces), NonEmptyAt(pieces[..last]);
      NonEmptyAtIncreases(pieces[..last]);
      assert at == at' + if pieces[last] != [] then [last] else [];
      forall k | 0 <= k < |at|
        ensures 0 <= at[k] < |pieces| && (k < |at'| ==> at[k] < last)
      {
        if k < |at'| {
          assert at[k] == at'[k];
        }
      }
      forall k, l | 0 <= k < l < |at|
        ensures at[k] < at[l]
      {
        if l < |at'| {
          assert at[k] == at'[k] && at[l] == at'[l];
        }
      }
    }
  }

  /** Every non-empty piece has its position listed. */
  lemma {:induction false} NonEmptyAtComplete<T>(pieces: seq<seq<T>>)
    ensures forall i :: 0 <= i < |pieces| && pieces[i] != [] ==> i in NonEmptyAt(pieces)
  {
    if pieces != [] {
      var last := |pieces| - 1;
      var init := pieces[..last];
      var at, at' := NonEmptyAt(pieces), NonEmptyAt(init);
      NonEmptyAtComplete(init);
      assert at == at' + if pieces[last] != [] then [last] else [];
      forall i | 0 <= i < |pieces| && pieces[i] != []
        ensures i in at
      {
        if i < last {
          assert init[i] == pieces[i];
          assert i in at';
        }
      }
    }
  }
}
