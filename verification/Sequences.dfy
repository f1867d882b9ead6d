/** Small things about numbers and sequences that several modules share. */
module Sequences {
  import opened Bytes

  function Min(x: nat, y: nat): nat { if y < x then y else x }

  /** xs with position d erased. */
  function Without<T>(xs: seq<T>, d: nat): (r: seq<T>)
    requires d < |xs|
    ensures |r| == |xs| - 1
    ensures forall k :: 0 <= k < |r| ==> r[k] == if k < d then xs[k] else xs[k + 1]
  {
    xs[..d] + xs[d + 1..]
  }

  /** std::find: the first place of x at or behind from. */
  function Find<T(==)>(s: seq<T>, x: T, from: nat): (r: Option<nat>)
    requires from <= |s|
    ensures r.Some? ==> from <= r.value < |s| && s[r.value] == x && x !in s[from..r.value]
    ensures r.None? ==> x !in s[from..]
    decreases |s| - from
  {
    if from == |s| then None
    else if s[from] == x then Some(from)
    else
      var r := Find(s, x, from + 1);
      assert r.Some? ==> s[from..r.value] == [s[from]] + s[from + 1..r.value];
      assert r.None? ==> s[from..] == [s[from]] + s[from + 1..];
      r
  }

  /** The parts one after the other. */
  function Concat<T>(parts: seq<seq<T>>): seq<T> {
    if parts == [] then [] else parts[0] + Concat(parts[1..])
  }
}
