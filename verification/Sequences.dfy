module Sequences {

  /** The parts, one after the other. */
  function Concat<T>(parts: seq<seq<T>>): seq<T> {
    if parts == [] then [] else Concat(parts[..|parts| - 1]) + parts[|parts| - 1]
  }

  lemma {:induction false} ConcatGrows<T>(parts: seq<seq<T>>, i: nat)
    requires i <= |parts|
    ensures |Concat(parts[..i])| <= |Concat(parts)|
    decreases |parts|
  {
    if i < |parts| {
      var front := parts[..|parts| - 1];
      ConcatGrows(front, i);
      assert front[..i] == parts[..i];
    } else {
      assert parts[..i] == parts;
    }
  }

  lemma {:induction false} SliceOfSlice<T>(s: seq<T>, from: nat, end: nat, i: nat, j: nat)
    requires i <= j && from + j <= end <= |s|
    ensures s[from..end][i..j] == s[from + i..from + j]
  {
    var t, u := s[from..end][i..j], s[from + i..from + j];
    assert |t| == |u| == j - i;
    assert forall k :: 0 <= k < j - i ==> t[k] == s[from + i + k] == u[k];
  }

  lemma {:induction false} SliceOfSum<T>(s: seq<T>, t: seq<T>, i: nat, j: nat)
    requires i <= j <= |s|
    ensures (s + t)[i..j] == s[i..j] && (s + t)[|s|..|s| + |t|] == t
  {
    var u, v := (s + t)[i..j], s[i..j];
    assert |u| == |v| == j - i;
    assert forall k :: 0 <= k < j - i ==> u[k] == (s + t)[i + k] == s[i + k] == v[k];
  }
}
