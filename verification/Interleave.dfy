/** Interleaving of blocks of unequal length, column by column (ISO/IEC 18004:2015, section
    7.6), and its inverse. */
module Interleaving {

  /** The entries of the blocks at index i, for the blocks long enough to have one. */
  function Column<T>(blocks: seq<seq<T>>, i: nat): seq<T> {
    if blocks == [] then []
    else Column(blocks[..|blocks| - 1], i) + Last(blocks, i)
  }

  function Last<T>(blocks: seq<seq<T>>, i: nat): seq<T>
    requires blocks != []
  {
    var b := blocks[|blocks| - 1];
    if i < |b| then [b[i]] else []
  }

  /** The first n columns, one after the other. */
  function Columns<T>(blocks: seq<seq<T>>, n: nat): seq<T> {
    if n == 0 then [] else Columns(blocks, n - 1) + Column(blocks, n - 1)
  }

  function Max(a: nat, b: nat): nat {
    if a < b then b else a
  }

  function MaxLength<T>(blocks: seq<seq<T>>): nat {
    if blocks == [] then 0 else Max(MaxLength(blocks[..|blocks| - 1]), |blocks[|blocks| - 1]|)
  }

  function Interleave<T>(blocks: seq<seq<T>>): seq<T> {
    Columns(blocks, MaxLength(blocks))
  }

  // ---- positions, from the lengths alone ----

  function Lengths<T>(blocks: seq<seq<T>>): (lens: seq<nat>)
    ensures |lens| == |blocks|
  {
    seq(|blocks|, r requires 0 <= r < |blocks| => |blocks[r]|)
  }

  lemma {:induction false} LengthsAt<T>(blocks: seq<seq<T>>, r: nat)
    requires r < |blocks|
    ensures Lengths(blocks)[r] == |blocks[r]|
  {
  }

  /** How many of the first r blocks reach index i. */
  function Rank(lens: seq<nat>, r: nat, i: nat): nat
    requires r <= |lens|
  {
    if r == 0 then 0 else Rank(lens, r - 1, i) + (if i < lens[r - 1] then 1 else 0)
  }

  function Before(lens: seq<nat>, n: nat): nat {
    if n == 0 then 0 else Before(lens, n - 1) + Rank(lens, |lens|, n - 1)
  }

  /** Where entry i of block r lands. */
  function Position(lens: seq<nat>, r: nat, i: nat): nat
    requires r < |lens|
  {
    Before(lens, i) + Rank(lens, r, i)
  }

  function Total(lens: seq<nat>): nat {
    if lens == [] then 0 else Total(lens[..|lens| - 1]) + lens[|lens| - 1]
  }

  /** The decoder's view: pick every block's entries out of the stream. */
  function Deinterleave<T>(lens: seq<nat>, data: seq<T>): (blocks: seq<seq<T>>)
    requires |data| == Total(lens)
    ensures Lengths(blocks) == lens
  {
    PositionsInRange(lens);
    seq(|lens|, r requires 0 <= r < |lens| =>
      seq(lens[r], i requires 0 <= i < lens[r] => data[Position(lens, r, i)]))
  }

  // ---- counting ----

  lemma {:induction false} RankMonotone(lens: seq<nat>, r: nat, s: nat, i: nat)
    requires r <= s <= |lens|
    ensures Rank(lens, r, i) <= Rank(lens, s, i)
    ensures r < s && i < lens[r] ==> Rank(lens, r, i) < Rank(lens, s, i)
    decreases s
  {
    if r < s {
      RankMonotone(lens, r, s - 1, i);
    }
  }

  lemma {:induction false} BeforeMonotone(lens: seq<nat>, i: nat, n: nat)
    requires i < n
    ensures Before(lens, i) + Rank(lens, |lens|, i) <= Before(lens, n)
    decreases n
  {
    if i < n - 1 {
      BeforeMonotone(lens, i, n - 1);
    }
  }

  /** The number of entries with index below n. */
  function Clipped(lens: seq<nat>, n: nat): nat {
    if lens == [] then 0
    else Clipped(lens[..|lens| - 1], n) + (if lens[|lens| - 1] < n then lens[|lens| - 1] else n)
  }

  lemma {:induction false} RankPrefix(lens: seq<nat>, r: nat, i: nat)
    requires r < |lens|
    ensures Rank(lens[..|lens| - 1], r, i) == Rank(lens, r, i)
  {
    if r > 0 {
      RankPrefix(lens, r - 1, i);
    }
  }

  lemma {:induction false} ClippedStep(lens: seq<nat>, n: nat)
    ensures Clipped(lens, n + 1) == Clipped(lens, n) + Rank(lens, |lens|, n)
  {
    if lens != [] {
      ClippedStep(lens[..|lens| - 1], n);
      RankPrefix(lens, |lens| - 1, n);
    }
  }

  lemma {:induction false} ClippedZero(lens: seq<nat>)
    ensures Clipped(lens, 0) == 0
  {
    if lens != [] {
      ClippedZero(lens[..|lens| - 1]);
    }
  }

  /** Counting by columns and counting by blocks agree. */
  lemma {:induction false} BeforeClipped(lens: seq<nat>, n: nat)
    ensures Before(lens, n) == Clipped(lens, n)
  {
    if n == 0 {
      ClippedZero(lens);
    } else {
      BeforeClipped(lens, n - 1);
      ClippedStep(lens, n - 1);
    }
  }

  lemma {:induction false} ClippedTotal(lens: seq<nat>, n: nat)
    ensures Clipped(lens, n) <= Total(lens)
    ensures (forall r :: 0 <= r < |lens| ==> lens[r] <= n) ==> Clipped(lens, n) == Total(lens)
  {
    if lens != [] {
      ClippedTotal(lens[..|lens| - 1], n);
    }
  }

  lemma {:induction false} PositionInRange(lens: seq<nat>, r: nat, i: nat)
    requires r < |lens| && i < lens[r]
    ensures Position(lens, r, i) < Before(lens, i + 1) <= Total(lens)
  {
    RankMonotone(lens, r, |lens|, i);
    BeforeClipped(lens, i + 1);
    ClippedTotal(lens, i + 1);
  }

  lemma {:induction false} PositionsInRange(lens: seq<nat>)
    ensures forall r, i :: 0 <= r < |lens| && 0 <= i < lens[r] ==> Position(lens, r, i) < Total(lens)
  {
    forall r, i | 0 <= r < |lens| && 0 <= i < lens[r]
      ensures Position(lens, r, i) < Total(lens)
    {
      PositionInRange(lens, r, i);
    }
  }

  // ---- Position is a bijection ----

  /** The entries go by their index, and those of one index in the order of the blocks. */
  lemma {:induction false} PositionOrder(lens: seq<nat>, r: nat, i: nat, s: nat, j: nat)
    requires r < |lens| && s < |lens| && i < lens[r] && j < lens[s]
    ensures Position(lens, r, i) < Position(lens, s, j) <==> i < j || (i == j && r < s)
  {
    var n := |lens|;
    RankMonotone(lens, r, n, i);
    RankMonotone(lens, s, n, j);
    if i < j {
      BeforeMonotone(lens, i, j);
    } else if j < i {
      BeforeMonotone(lens, j, i);
    } else if r < s {
      RankMonotone(lens, r, s, i);
    } else {
      RankMonotone(lens, s, r, i);
    }
  }

  lemma {:induction false} PositionInjective(lens: seq<nat>, r: nat, i: nat, s: nat, j: nat)
    requires r < |lens| && i < lens[r] && s < |lens| && j < lens[s]
    requires Position(lens, r, i) == Position(lens, s, j)
    ensures r == s && i == j
  {
    PositionOrder(lens, r, i, s, j);
    PositionOrder(lens, s, j, r, i);
  }

  lemma {:induction false} RankSurjective(lens: seq<nat>, n: nat, i: nat, k: nat) returns (r: nat)
    requires n <= |lens| && k < Rank(lens, n, i)
    ensures r < n && i < lens[r] && Rank(lens, r, i) == k
  {
    if k < Rank(lens, n - 1, i) {
      r := RankSurjective(lens, n - 1, i, k);
    } else {
      r := n - 1;
    }
  }

  lemma {:induction false} PositionSurjective(lens: seq<nat>, n: nat, k: nat) returns (r: nat, i: nat)
    requires k < Before(lens, n)
    ensures r < |lens| && i < lens[r] && i < n && Position(lens, r, i) == k
  {
    if k < Before(lens, n - 1) {
      r, i := PositionSurjective(lens, n - 1, k);
    } else {
      i := n - 1;
      r := RankSurjective(lens, |lens|, i, k - Before(lens, n - 1));
    }
  }

  // ---- the interleaved stream, entry by entry ----

  lemma {:induction false} ColumnRank<T>(blocks: seq<seq<T>>, i: nat)
    ensures |Column(blocks, i)| == Rank(Lengths(blocks), |blocks|, i)
  {
    if blocks != [] {
      var front := blocks[..|blocks| - 1];
      ColumnRank(front, i);
      RankPrefix(Lengths(blocks), |blocks| - 1, i);
      assert Lengths(blocks)[..|blocks| - 1] == Lengths(front);
    }
  }

  lemma {:induction false} ColumnAt<T>(blocks: seq<seq<T>>, r: nat, i: nat)
    requires r < |blocks| && i < |blocks[r]|
    ensures Rank(Lengths(blocks), r, i) < |Column(blocks, i)|
    ensures Column(blocks, i)[Rank(Lengths(blocks), r, i)] == blocks[r][i]
  {
    var n := |blocks| - 1;
    var front := blocks[..n];
    assert Lengths(blocks)[..n] == Lengths(front);
    RankPrefix(Lengths(blocks), r, i);
    ColumnRank(front, i);
    if r < n {
      ColumnAt(front, r, i);
    }
  }

  lemma {:induction false} ColumnsAt<T>(blocks: seq<seq<T>>, n: nat, r: nat, i: nat)
    requires r < |blocks| && i < |blocks[r]| && i < n
    ensures |Columns(blocks, n)| == Before(Lengths(blocks), n)
    ensures Position(Lengths(blocks), r, i) < |Columns(blocks, n)|
    ensures Columns(blocks, n)[Position(Lengths(blocks), r, i)] == blocks[r][i]
  {
    hide Lengths, Column, Rank;
    ColumnsLength(blocks, n);
    ColumnsLength(blocks, n - 1);
    assert |blocks[r]| == Lengths(blocks)[r] by {
      LengthsAt(blocks, r);
    }
    PositionInRange(Lengths(blocks), r, i);
    if i < n - 1 {
      ColumnsAt(blocks, n - 1, r, i);
    } else {
      ColumnAt(blocks, r, i);
    }
  }

  lemma {:induction false} ColumnsLength<T>(blocks: seq<seq<T>>, n: nat)
    ensures |Columns(blocks, n)| == Before(Lengths(blocks), n)
  {
    hide Lengths, Column, Rank;
    if n > 0 {
      ColumnsLength(blocks, n - 1);
      ColumnRank(blocks, n - 1);
    }
  }

  lemma {:induction false} MaxLengthBounds<T>(blocks: seq<seq<T>>, r: nat)
    requires r < |blocks|
    ensures |blocks[r]| <= MaxLength(blocks)
  {
    if r < |blocks| - 1 {
      MaxLengthBounds(blocks[..|blocks| - 1], r);
    }
  }

  /** As many slots as the blocks have entries. */
  lemma {:induction false} InterleaveLength<T>(blocks: seq<seq<T>>)
    ensures |Interleave(blocks)| == Total(Lengths(blocks)) == Before(Lengths(blocks), MaxLength(blocks))
  {
    var n := MaxLength(blocks);
    ColumnsLength(blocks, n);
    BeforeClipped(Lengths(blocks), n);
    forall r | 0 <= r < |blocks|
      ensures Lengths(blocks)[r] <= n
    {
      MaxLengthBounds(blocks, r);
    }
    ClippedTotal(Lengths(blocks), n);
  }

  /** Entry i of block r is found at its position. */
  lemma {:induction false} InterleaveAt<T>(blocks: seq<seq<T>>, r: nat, i: nat)
    requires r < |blocks| && i < |blocks[r]|
    ensures Position(Lengths(blocks), r, i) < |Interleave(blocks)|
    ensures Interleave(blocks)[Position(Lengths(blocks), r, i)] == blocks[r][i]
  {
    MaxLengthBounds(blocks, r);
    ColumnsAt(blocks, MaxLength(blocks), r, i);
  }

  /** De-interleaving recovers the blocks. */
  lemma {:induction false} InterleaveRoundTrip<T>(blocks: seq<seq<T>>)
    ensures |Interleave(blocks)| == Total(Lengths(blocks))
    ensures Deinterleave(Lengths(blocks), Interleave(blocks)) == blocks
  {
    InterleaveLength(blocks);
    var back := Deinterleave(Lengths(blocks), Interleave(blocks));
    assert Lengths(back) == Lengths(blocks);
    forall r | 0 <= r < |blocks|
      ensures back[r] == blocks[r]
    {
      assert |back[r]| == Lengths(back)[r] == |blocks[r]|;
      forall i | 0 <= i < |blocks[r]|
        ensures back[r][i] == blocks[r][i]
      {
        InterleaveAt(blocks, r, i);
      }
    }
  }

  /** And every stream of the right length is the interleaving of its de-interleaving. */
  lemma {:induction false} DeinterleaveRoundTrip<T>(lens: seq<nat>, data: seq<T>)
    requires |data| == Total(lens)
    ensures Interleave(Deinterleave(lens, data)) == data
  {
    var blocks := Deinterleave(lens, data);
    InterleaveLength(blocks);
    forall k | 0 <= k < |data|
      ensures Interleave(blocks)[k] == data[k]
    {
      var r, i := PositionSurjective(lens, MaxLength(blocks), k);
      assert |blocks[r]| == Lengths(blocks)[r];
      InterleaveAt(blocks, r, i);
    }
  }
}
