/** The missingness detector: `isNA` and `isNotNArowvec` of src/resid.cpp,
    with the specification of the valid-column index set they produce. */
module Missingness {
  import opened Cells

  /** The valid (non-missing) positions of a row, ascending: the index set
      every row-wise driver fits on. */
  function ValidIndices(x: seq<Cell>): (ids: seq<nat>)
    ensures InBounds(ids, |x|) && Ascending(ids)
    ensures forall t :: 0 <= t < |ids| ==> x[ids[t]].Num?
    ensures forall j :: 0 <= j < |x| && x[j].Num? ==> j in ids
  {
    if x == [] then []
    else ValidIndices(x[..|x| - 1]) + (if x[|x| - 1].Num? then [|x| - 1] else [])
  }

  /** The number of missing entries of a row. */
  function CountMissing(x: seq<Cell>): nat {
    if x == [] then 0
    else CountMissing(x[..|x| - 1]) + (if x[|x| - 1].Missing? then 1 else 0)
  }

  /** Armadillo's `find(out == 0)`: the ascending positions of the false
      entries of a flag vector. */
  function Find(flags: seq<bool>): (ids: seq<nat>)
    ensures InBounds(ids, |flags|) && Ascending(ids)
    ensures forall t :: 0 <= t < |ids| ==> !flags[ids[t]]
    ensures forall j :: 0 <= j < |flags| && !flags[j] ==> j in ids
  {
    if flags == [] then []
    else Find(flags[..|flags| - 1]) + (if flags[|flags| - 1] then [] else [|flags| - 1])
  }

  /** The valid positions leave out exactly the missing ones. */
  lemma {:induction false} ValidIndicesCount(x: seq<Cell>)
    ensures |ValidIndices(x)| == |x| - CountMissing(x)
  {
    if x != [] {
      ValidIndicesCount(x[..|x| - 1]);
    }
  }

  /** Searching the missingness flags of a row for the false entries yields
      exactly its valid positions: the index set is the complement of the
      positions `isNA` marks. */
  lemma {:induction false} FindOfFlags(flags: seq<bool>, x: seq<Cell>)
    requires |flags| == |x|
    requires forall i :: 0 <= i < |x| ==> flags[i] == x[i].Missing?
    ensures Find(flags) == ValidIndices(x)
  {
    if x != [] {
      FindOfFlags(flags[..|flags| - 1], x[..|x| - 1]);
    }
  }

  /** A complete row is valid at every position. */
  lemma {:induction false} ValidIndicesComplete(v: seq<real>)
    ensures ValidIndices(Lift(v)) == Range(|v|)
  {
    if v != [] {
      var n := |v| - 1;
      assert Lift(v)[..n] == Lift(v[..n]);
      ValidIndicesComplete(v[..n]);
      assert Range(n) + [n] == Range(n + 1);
    }
  }

  /** isNA: one flag per entry, true exactly at the missing entries. */
  method IsNA(x: seq<Cell>) returns (out: seq<bool>)
    ensures |out| == |x|
    ensures forall i :: 0 <= i < |x| ==> (out[i] <==> x[i].Missing?)
  {
    var flags := new bool[|x|];
    for i := 0 to |x|
      invariant forall j :: 0 <= j < i ==> flags[j] == x[j].Missing?
    {
      flags[i] := x[i].Missing?;
    }
    out := flags[..];
  }

  /** isNotNArowvec: flag the missing entries, then find the unflagged
      positions. */
  method IsNotNARowvec(x: seq<Cell>) returns (ids: seq<nat>)
    ensures ids == ValidIndices(x)
    ensures |ids| == |x| - CountMissing(x)
  {
    var flags := new bool[|x|];
    for i := 0 to |x|
      invariant forall j :: 0 <= j < i ==> flags[j] == x[j].Missing?
    {
      flags[i] := x[i].Missing?;
    }
    FindOfFlags(flags[..], x);
    ValidIndicesCount(x);
    ids := Find(flags[..]);
  }
}
