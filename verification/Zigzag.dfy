/** The order of the cells of a symbol (ISO/IEC 18004:2015, section 7.7.3): a zigzag over pairs of
    columns from the right, skipping column 6; as the program walks it, and in coordinates. */
module Zigzag {

  /** `null`, `true` or `false` in the modules matrix. */
  datatype Module = Empty | Color(dark: bool)

  type Grid = seq<seq<Module>>

  ghost predicate Square(g: Grid, n: nat) {
    |g| == n && forall r :: 0 <= r < n ==> |g[r]| == n
  }

  /** The sizes the zigzag is made for; a symbol has 17 + 4 * version modules a side. */
  predicate Size(n: nat) {
    n >= 7 && n % 2 == 1
  }

  // ---- the walk: strips of two columns, numbered from the right ----

  function Strips(n: nat): nat {
    n / 2
  }

  /** The right column of a strip, after `if(col==6)col--`. */
  function StripColumn(n: nat, s: nat): int {
    var col := n - 1 - 2 * s;
    if col <= 6 then col - 1 else col
  }

  /** Step t of strip s: even strips go up, odd strips go down, the right column first. */
  function RowOf(n: nat, s: nat, t: nat): int {
    if s % 2 == 0 then n - 1 - t / 2 else t / 2
  }

  function ColumnOf(n: nat, s: nat, t: nat): int {
    StripColumn(n, s) - t % 2
  }

  predicate OnWalk(n: nat, s: nat, t: nat) {
    s < Strips(n) && t < 2 * n
  }

  /** The strip a column belongs to, and the step at which a cell is visited. */
  function StripOf(n: nat, c: nat): int {
    (n - 1 - (if c < 6 then c + 1 else c)) / 2
  }

  function StepOf(n: nat, r: nat, c: nat): int {
    var side := (if c < 6 then c + 1 else c) % 2;
    2 * (if StripOf(n, c) % 2 == 0 then n - 1 - r else r) + side
  }

  /** Every step of the walk is a cell of its own, outside column 6. */
  lemma {:induction false} WalkInside(n: nat, s: nat, t: nat)
    requires Size(n) && OnWalk(n, s, t)
    ensures 0 <= RowOf(n, s, t) < n && 0 <= ColumnOf(n, s, t) < n && ColumnOf(n, s, t) != 6
    ensures StripOf(n, ColumnOf(n, s, t)) == s
    ensures StepOf(n, RowOf(n, s, t), ColumnOf(n, s, t)) == t
  {
  }

  /** Every cell outside column 6 is visited. */
  lemma {:induction false} WalkCovers(n: nat, r: nat, c: nat)
    requires Size(n) && r < n && c < n && c != 6
    ensures StripOf(n, c) >= 0 && StepOf(n, r, c) >= 0 && OnWalk(n, StripOf(n, c), StepOf(n, r, c))
    ensures RowOf(n, StripOf(n, c), StepOf(n, r, c)) == r
    ensures ColumnOf(n, StripOf(n, c), StepOf(n, r, c)) == c
  {
    var d := if c < 6 then c + 1 else c;
    var s, side := (n - 1 - d) / 2, d % 2;
    assert n - 1 - d == 2 * s + side;
    var row := if s % 2 == 0 then n - 1 - r else r;
    assert StripOf(n, c) == s && StepOf(n, r, c) == 2 * row + side;
    assert (2 * row + side) / 2 == row && (2 * row + side) % 2 == side;
  }

  // ---- counting ----

  /** How many free cells the walk meets before step t of strip s. */
  ghost function Count(g: Grid, s: nat, t: nat): nat
    requires Size(|g|) && Square(g, |g|) && s <= Strips(|g|) && t <= 2 * |g|
    requires s == Strips(|g|) ==> t == 0
    decreases s, t
  {
    if t > 0 then
      WalkInside(|g|, s, t - 1);
      Count(g, s, t - 1) + (if FreeAt(g, s, t - 1) then 1 else 0)
    else if s > 0 then Count(g, s - 1, 2 * |g|)
    else 0
  }

  ghost predicate FreeAt(g: Grid, s: nat, t: nat)
    requires Size(|g|) && Square(g, |g|) && OnWalk(|g|, s, t)
  {
    WalkInside(|g|, s, t);
    g[RowOf(|g|, s, t)][ColumnOf(|g|, s, t)] == Empty
  }

  ghost predicate Earlier(s: int, t: int, s': int, t': int) {
    s < s' || (s == s' && t < t')
  }

  lemma {:induction false} CountStart(g: Grid)
    requires Size(|g|) && Square(g, |g|)
    ensures Count(g, 0, 0) == 0
  {
  }

  lemma {:induction false} CountStep(g: Grid, s: nat, t: nat)
    requires Size(|g|) && Square(g, |g|) && OnWalk(|g|, s, t)
    ensures Count(g, s, t + 1) == Count(g, s, t) + (if FreeAt(g, s, t) then 1 else 0)
  {
  }

  lemma {:induction false} CountTurn(g: Grid, s: nat)
    requires Size(|g|) && Square(g, |g|) && s < Strips(|g|)
    ensures Count(g, s + 1, 0) == Count(g, s, 2 * |g|)
  {
  }

  lemma {:induction false} CountSteps(g: Grid, s: nat, t: nat, t': nat)
    requires Size(|g|) && Square(g, |g|) && s < Strips(|g|) && t <= t' <= 2 * |g|
    ensures Count(g, s, t) <= Count(g, s, t')
    decreases t'
  {
    if t < t' {
      CountSteps(g, s, t, t' - 1);
      CountStep(g, s, t' - 1);
    }
  }

  lemma {:induction false} CountMonotone(g: Grid, s: nat, t: nat, s': nat)
    requires Size(|g|) && Square(g, |g|) && t == 0 && s <= s' <= Strips(|g|)
    ensures Count(g, s, t) <= Count(g, s', 0)
    decreases s'
  {
    hide Count;
    if s < s' {
      CountMonotone(g, s, t, s' - 1);
      CountSteps(g, s' - 1, 0, 2 * |g|);
      CountTurn(g, s' - 1);
    }
  }

  // ---- the order in coordinates ----

  /** The right column of a column's pair: even to the right of column 6, odd to its left. */
  function RightOf(c: nat): nat
    requires c != 6
  {
    if c > 6 then c + c % 2 else c + 1 - c % 2
  }

  /** The first, third, fifth, ... pair from the right starts at the bottom, the others at the top. */
  predicate FromBottom(n: nat, right: nat) {
    (if right > 6 then n - 1 - right else n - 2 - right) / 2 % 2 == 0
  }

  /** Cell (r, c) comes before cell (r', c'): its pair is further right; or they share a pair and its row
      is nearer the end where the pair starts; or they share a pair and a row and it is the right one. */
  ghost predicate Before(n: nat, r: nat, c: nat, r': nat, c': nat)
    requires c != 6 && c' != 6
  {
    || RightOf(c) > RightOf(c')
    || (RightOf(c) == RightOf(c') && (if FromBottom(n, RightOf(c)) then r > r' else r < r'))
    || (RightOf(c) == RightOf(c') && r == r' && c > c')
  }

  ghost predicate Free(g: Grid, r: nat, c: nat)
    requires Square(g, |g|)
  {
    r < |g| && c < |g| && c != 6 && g[r][c] == Empty
  }

  ghost function FreeCells(g: Grid): set<(nat, nat)>
    requires Square(g, |g|)
  {
    set r, c | 0 <= r < |g| && 0 <= c < |g| && Free(g, r, c) :: (r, c)
  }

  /** The free cells that come before (r, c). */
  ghost function Ahead(g: Grid, r: nat, c: nat): set<(nat, nat)>
    requires Square(g, |g|) && c != 6
  {
    set x, y | 0 <= x < |g| && 0 <= y < |g| && Free(g, x, y) && Before(|g|, x, y, r, c) :: (x, y)
  }

  /** The free cells of the walk before step t of strip s. */
  ghost function Passed(g: Grid, s: nat, t: nat): set<(nat, nat)>
    requires Square(g, |g|)
  {
    set x, y | 0 <= x < |g| && 0 <= y < |g| && Free(g, x, y)
      && Earlier(StripOf(|g|, y), StepOf(|g|, x, y), s, t) :: (x, y)
  }

  lemma {:induction false} EarlierIsBefore(n: nat, r: nat, c: nat, r': nat, c': nat)
    requires Size(n) && r < n && c < n && c != 6 && r' < n && c' < n && c' != 6
    ensures Earlier(StripOf(n, c), StepOf(n, r, c), StripOf(n, c'), StepOf(n, r', c')) <==> Before(n, r, c, r', c')
  {
    PairOfStrip(n, c);
    PairOfStrip(n, c');
    hide StripOf, RightOf, FromBottom;
  }

  lemma {:induction false} PairOfStrip(n: nat, c: nat)
    requires Size(n) && c < n && c != 6
    ensures RightOf(c) == StripColumn(n, StripOf(n, c)) && FromBottom(n, RightOf(c)) == (StripOf(n, c) % 2 == 0)
    ensures (if c < 6 then c + 1 else c) % 2 == RightOf(c) - c
  {
    var d := if c < 6 then c + 1 else c;
    var m, side := n / 2, d % 2;
    var e := if side == 0 then d / 2 else d / 2 + 1;
    assert n == 2 * m + 1 && d == 2 * e - side;
    assert StripOf(n, c) == m - e;
    assert StripColumn(n, m - e) == if 2 * e <= 6 then 2 * e - 1 else 2 * e;
    assert RightOf(c) == if c > 6 then 2 * e else 2 * e - 1;
  }

  lemma {:induction false} OneStep(n: nat, s: nat, t: nat, r: nat, c: nat)
    requires Size(n) && OnWalk(n, s, t) && r < n && c < n && c != 6
    ensures Earlier(StripOf(n, c), StepOf(n, r, c), s, t + 1) <==>
            Earlier(StripOf(n, c), StepOf(n, r, c), s, t) || (r == RowOf(n, s, t) && c == ColumnOf(n, s, t))
  {
    WalkInside(n, s, t);
    WalkCovers(n, r, c);
    hide RowOf, ColumnOf, StripOf, StepOf;
  }

  lemma {:induction false} PassedAt(g: Grid, s: nat, t: nat, z: (nat, nat))
    requires Square(g, |g|)
    ensures z in Passed(g, s, t) <==>
            z.0 < |g| && Free(g, z.0, z.1) && Earlier(StripOf(|g|, z.1), StepOf(|g|, z.0, z.1), s, t)
  {
    hide Earlier, StripOf, StepOf;
  }

  lemma {:induction false} OneMore<T>(a: set<T>, b: set<T>, x: T, more: bool)
    requires x !in a && forall z :: z in b <==> z in a || (more && z == x)
    ensures |b| == |a| + (if more then 1 else 0)
  {
    assert b == if more then a + {x} else a;
  }

  lemma {:induction false} CellOfStep(g: Grid, s: nat, t: nat, r: nat, c: nat)
    requires Size(|g|) && Square(g, |g|) && OnWalk(|g|, s, t) && r == RowOf(|g|, s, t) && c == ColumnOf(|g|, s, t)
    ensures r < |g| && c < |g| && c != 6 && (FreeAt(g, s, t) <==> Free(g, r, c))
    ensures !Earlier(StripOf(|g|, c), StepOf(|g|, r, c), s, t)
  {
    WalkInside(|g|, s, t);
    hide RowOf, ColumnOf, StripOf, StepOf;
  }

  lemma {:induction false} FreeInside(g: Grid, r: nat, c: nat)
    requires Square(g, |g|) && Free(g, r, c)
    ensures r < |g| && c < |g| && c != 6
  {
  }

  lemma {:induction false} PassedStep(g: Grid, s: nat, t: nat)
    requires Size(|g|) && Square(g, |g|) && OnWalk(|g|, s, t)
    ensures |Passed(g, s, t + 1)| == |Passed(g, s, t)| + (if FreeAt(g, s, t) then 1 else 0)
  {
    var n, next := |g|, t + 1;
    WalkInside(n, s, t);
    hide *;
    var r: nat, c: nat := RowOf(n, s, t), ColumnOf(n, s, t);
    CellOfStep(g, s, t, r, c);
    var before, after := Passed(g, s, t), Passed(g, s, next);
    forall z: (nat, nat)
      ensures z in after <==> z in before || (FreeAt(g, s, t) && z == (r, c))
    {
      PassedAt(g, s, next, z);
      PassedAt(g, s, t, z);
      if Free(g, z.0, z.1) {
        FreeInside(g, z.0, z.1);
        OneStep(n, s, t, z.0, z.1);
      }
    }
    PassedAt(g, s, t, (r, c));
    OneMore(before, after, (r, c), FreeAt(g, s, t));
  }

  lemma {:induction false} PassedTurn(g: Grid, s: nat)
    requires Size(|g|) && Square(g, |g|) && s < Strips(|g|)
    ensures Passed(g, s + 1, 0) == Passed(g, s, 2 * |g|)
  {
    var n, next, last := |g|, s + 1, 2 * |g|;
    forall x, y | 0 <= x < n && 0 <= y < n && y != 6
      ensures Earlier(StripOf(n, y), StepOf(n, x, y), next, 0) <==> Earlier(StripOf(n, y), StepOf(n, x, y), s, last)
    {
      WalkCovers(n, x, y);
      hide StripOf, StepOf;
    }
    hide StripOf, StepOf;
  }

  lemma {:induction false} CountPassed(g: Grid, s: nat, t: nat)
    requires Size(|g|) && Square(g, |g|) && s <= Strips(|g|) && t <= 2 * |g|
    requires s == Strips(|g|) ==> t == 0
    ensures Count(g, s, t) == |Passed(g, s, t)|
    decreases s, t
  {
    hide Passed;
    if t > 0 {
      CountPassed(g, s, t - 1);
      PassedStep(g, s, t - 1);
    } else if s > 0 {
      CountPassed(g, s - 1, 2 * |g|);
      PassedTurn(g, s - 1);
    } else {
      NothingPassed(g);
    }
  }

  lemma {:induction false} NothingPassed(g: Grid)
    requires Size(|g|) && Square(g, |g|)
    ensures Passed(g, 0, 0) == {}
  {
    forall x, y | 0 <= x < |g| && 0 <= y < |g| && y != 6
      ensures !Earlier(StripOf(|g|, y), StepOf(|g|, x, y), 0, 0)
    {
      WalkCovers(|g|, x, y);
    }
  }

  /** The walk meets the free cells in the order of the coordinates: the number of free cells it met
      before (r, c) is the number of free cells that come before (r, c). */
  lemma {:induction false} CountIsAhead(g: Grid, r: nat, c: nat)
    requires Size(|g|) && Square(g, |g|) && r < |g| && c < |g| && c != 6
    ensures OnWalk(|g|, StripOf(|g|, c), StepOf(|g|, r, c))
    ensures Count(g, StripOf(|g|, c), StepOf(|g|, r, c)) == |Ahead(g, r, c)|
  {
    var n := |g|;
    WalkCovers(n, r, c);
    var s, t := StripOf(n, c), StepOf(n, r, c);
    CountPassed(g, s, t);
    forall x, y | 0 <= x < n && 0 <= y < n && y != 6
      ensures Earlier(StripOf(n, y), StepOf(n, x, y), s, t) <==> Before(n, x, y, r, c)
    {
      EarlierIsBefore(n, x, y, r, c);
    }
    hide Before, Earlier, StripOf, StepOf, Count;
    assert Passed(g, s, t) == Ahead(g, r, c);
  }

  /** All of them in the end. */
  lemma {:induction false} CountAll(g: Grid)
    requires Size(|g|) && Square(g, |g|)
    ensures Count(g, Strips(|g|), 0) == |FreeCells(g)|
  {
    var n, s := |g|, Strips(|g|);
    CountPassed(g, s, 0);
    forall x, y | 0 <= x < n && 0 <= y < n && y != 6
      ensures Earlier(StripOf(n, y), StepOf(n, x, y), s, 0)
    {
      WalkCovers(n, x, y);
    }
    hide Earlier, StripOf, StepOf, Count;
    assert Passed(g, s, 0) == FreeCells(g);
  }

  // ---- one after the other ----

  /** Two free cells with no free cell between them carry neighbouring bits. */
  lemma {:induction false} NextAhead(g: Grid, r: nat, c: nat, r': nat, c': nat)
    requires Square(g, |g|) && Free(g, r, c) && Free(g, r', c') && Before(|g|, r, c, r', c')
    requires forall x, y | Free(g, x, y) :: !(Before(|g|, r, c, x, y) && Before(|g|, x, y, r', c'))
    ensures |Ahead(g, r', c')| == |Ahead(g, r, c)| + 1
  {
    var n := |g|;
    forall x, y | Free(g, x, y)
      ensures Before(n, x, y, r', c') <==> Before(n, x, y, r, c) || (x == r && y == c)
    {
      hide RightOf, FromBottom;
      SamePair(y, c);
    }
    hide Before, Free;
    assert Ahead(g, r', c') == Ahead(g, r, c) + {(r, c)};
    assert (r, c) !in Ahead(g, r, c);
  }

  lemma {:induction false} SamePair(c: nat, c': nat)
    requires c != 6 && c' != 6
    ensures RightOf(c) == RightOf(c') ==> c == c' || c == c' + 1 || c' == c + 1
  {
  }

  lemma {:induction false} FirstAhead(g: Grid, c: nat)
    requires Size(|g|) && Square(g, |g|) && c == if |g| > 7 then |g| - 1 else 5
    ensures Ahead(g, |g| - 1, c) == {}
  {
    var last := |g| - 1;
    forall x, y | 0 <= x < |g| && 0 <= y < |g| && y != 6
      ensures !Before(|g|, x, y, last, c)
    {
    }
    hide Before;
  }

  /** The right column of pair k, counted from the right. */
  lemma {:induction false} PairColumns(n: nat, k: nat, c: nat)
    requires Size(n) && k < n / 2 && c == if n - 1 - 2 * k > 6 then n - 1 - 2 * k else n - 2 - 2 * k
    ensures c >= 1 && c != 6 && c - 1 != 6 && RightOf(c) == RightOf(c - 1) == c
    ensures FromBottom(n, c) <==> k % 2 == 0
  {
  }

  lemma {:induction false} NextPairColumn(n: nat, k: nat, c: nat, d: nat, y: nat)
    requires Size(n) && k + 1 < n / 2 && c == if n - 1 - 2 * k > 6 then n - 1 - 2 * k else n - 2 - 2 * k
    requires d == (if n - 3 - 2 * k > 6 then n - 3 - 2 * k else n - 4 - 2 * k) && y != 6
    ensures c > d && (RightOf(y) >= c || RightOf(y) <= d)
  {
  }

  /** The order cell by cell. The bottom right cell is the first. In each pair of columns a cell on the
      left follows the one on its right; then comes the right one of the next row, upwards in the first,
      third, fifth, ... pair and downwards in the others; and at the edge the next pair. */
  lemma {:induction false} CellByCell(g: Grid, k: nat, r: nat, c: nat, d: int)
    requires Size(|g|) && Square(g, |g|) && k < |g| / 2 && r < |g|
    requires c == if |g| - 1 - 2 * k > 6 then |g| - 1 - 2 * k else |g| - 2 - 2 * k
    requires d == if |g| - 3 - 2 * k > 6 then |g| - 3 - 2 * k else |g| - 4 - 2 * k
    ensures c >= 1 && c != 6 && c != 7 && (k + 1 < |g| / 2 ==> d >= 1 && d != 6)
    ensures k == 0 && r == |g| - 1 ==> |Ahead(g, r, c)| == 0
    ensures Free(g, r, c) && Free(g, r, c - 1) ==> |Ahead(g, r, c - 1)| == |Ahead(g, r, c)| + 1
    ensures k % 2 == 0 && r > 0 && Free(g, r, c - 1) && Free(g, r - 1, c) ==>
              |Ahead(g, r - 1, c)| == |Ahead(g, r, c - 1)| + 1
    ensures k % 2 == 1 && Free(g, r, c - 1) && Free(g, r + 1, c) ==>
              |Ahead(g, r + 1, c)| == |Ahead(g, r, c - 1)| + 1
    ensures k + 1 < |g| / 2 && r == (if k % 2 == 0 then 0 else |g| - 1) && Free(g, r, c - 1) && Free(g, r, d) ==>
              |Ahead(g, r, d)| == |Ahead(g, r, c - 1)| + 1
  {
    if k == 0 && r == |g| - 1 {
      FirstAhead(g, c);
    }
    PairColumns(|g|, k, c);
    SideBySide(g, r, c);
    RowByRow(g, k, r, c);
    if k + 1 < |g| / 2 {
      PairByPair(g, k, r, c, d);
    }
  }

  lemma {:induction false} SideBySide(g: Grid, r: nat, c: nat)
    requires Square(g, |g|) && c >= 1 && c != 6 && c - 1 != 6 && RightOf(c) == RightOf(c - 1) == c
    ensures Free(g, r, c) && Free(g, r, c - 1) ==> |Ahead(g, r, c - 1)| == |Ahead(g, r, c)| + 1
  {
    if Free(g, r, c) && Free(g, r, c - 1) {
      var b := c - 1;
      forall x, y | Free(g, x, y)
        ensures !(Before(|g|, r, c, x, y) && Before(|g|, x, y, r, b))
      {
        SamePair(y, c);
        hide FromBottom, RightOf;
      }
      NextAhead(g, r, c, r, b);
    }
  }

  lemma {:induction false} RowByRow(g: Grid, k: nat, r: nat, c: nat)
    requires Square(g, |g|) && c >= 1 && c != 6 && c - 1 != 6 && RightOf(c) == RightOf(c - 1) == c
    requires FromBottom(|g|, c) <==> k % 2 == 0
    ensures k % 2 == 0 && r > 0 && Free(g, r, c - 1) && Free(g, r - 1, c) ==>
              |Ahead(g, r - 1, c)| == |Ahead(g, r, c - 1)| + 1
    ensures k % 2 == 1 && Free(g, r, c - 1) && Free(g, r + 1, c) ==>
              |Ahead(g, r + 1, c)| == |Ahead(g, r, c - 1)| + 1
  {
    var b, r' := c - 1, if k % 2 == 0 then r - 1 else r + 1;
    if r' >= 0 && Free(g, r, b) && Free(g, r', c) {
      forall x, y | Free(g, x, y)
        ensures !(Before(|g|, r, b, x, y) && Before(|g|, x, y, r', c))
      {
        SamePair(y, c);
        SamePair(y, b);
        hide FromBottom, RightOf;
      }
      NextAhead(g, r, b, r', c);
    }
  }

  lemma {:induction false} PairByPair(g: Grid, k: nat, r: nat, c: nat, d: nat)
    requires Size(|g|) && Square(g, |g|) && k + 1 < |g| / 2
    requires c == if |g| - 1 - 2 * k > 6 then |g| - 1 - 2 * k else |g| - 2 - 2 * k
    requires d == if |g| - 3 - 2 * k > 6 then |g| - 3 - 2 * k else |g| - 4 - 2 * k
    ensures c >= 1
    ensures r == (if k % 2 == 0 then 0 else |g| - 1) && Free(g, r, c - 1) && Free(g, r, d) ==>
              |Ahead(g, r, d)| == |Ahead(g, r, c - 1)| + 1
  {
    var n, b, next := |g|, c - 1, k + 1;
    PairColumns(n, k, c);
    PairColumns(n, next, d);
    NextPairColumn(n, k, c, d, b);
    if r == (if k % 2 == 0 then 0 else n - 1) && Free(g, r, b) && Free(g, r, d) {
      forall x, y | Free(g, x, y)
        ensures !(Before(n, r, b, x, y) && Before(n, x, y, r, d))
      {
        NextPairColumn(n, k, c, d, y);
        SamePair(y, b);
        SamePair(y, d);
        hide FromBottom, RightOf;
      }
      NextAhead(g, r, b, r, d);
    }
  }
}
