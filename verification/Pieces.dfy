/** Messages cut into pieces. */
module Pieces {
  import opened Octets

  function Flatten(pieces: seq<Octets>): Octets {
    if |pieces| == 0 then [] else Flatten(pieces[..|pieces| - 1]) + pieces[|pieces| - 1]
  }

  function Total(cuts: seq<nat>): nat {
    if |cuts| == 0 then 0 else Total(cuts[..|cuts| - 1]) + cuts[|cuts| - 1]
  }

  /** x cut into pieces of the given lengths. */
  function Cut(x: Octets, cuts: seq<nat>): (pieces: seq<Octets>)
    requires Total(cuts) == |x|
    decreases |cuts|
  {
    if |cuts| == 0 then [] else
      var n := |x| - cuts[|cuts| - 1];
      Cut(x[..n], cuts[..|cuts| - 1]) + [x[n..]]
  }

  lemma {:induction false} CutFlattens(x: Octets, cuts: seq<nat>)
    requires Total(cuts) == |x|
    ensures Flatten(Cut(x, cuts)) == x
    decreases |cuts|
  {
    if |cuts| > 0 {
      var n := |x| - cuts[|cuts| - 1];
      CutFlattens(x[..n], cuts[..|cuts| - 1]);
      assert Cut(x, cuts)[..|Cut(x, cuts)| - 1] == Cut(x[..n], cuts[..|cuts| - 1]);
    }
  }
}
