/** Placement of the codewords in the symbol (ISO/IEC 18004:2015, sections 7.7 and 7.8): a
    zigzag over pairs of columns from the right, skipping column 6, under a mask. */
module MapData {
  import opened Arithmetic
  import opened BitBuffer
  import opened QrMath
  import opened Wrappers
  import opened Zigzag

  // ---- the mask ----

  function GetMask(maskPattern: nat, i: nat, j: nat): (r: Result<bool>)
    ensures r.Throws? <==> maskPattern > 7
  {
    match maskPattern
    case 0 => Ok((i + j) % 2 == 0)
    case 1 => Ok(i % 2 == 0)
    case 2 => Ok(j % 3 == 0)
    case 3 => Ok((i + j) % 3 == 0)
    case 4 => Ok((i / 2 + j / 3) % 2 == 0)
    case 5 => Ok((i * j) % 2 + (i * j) % 3 == 0)
    case 6 => Ok(((i * j) % 2 + (i * j) % 3) % 2 == 0)
    case 7 => Ok(((i * j) % 3 + (i + j) % 2) % 2 == 0)
    case _ => Throws
  }

  /** The eight patterns in other words: checkerboards, stripes, blocks of two by three, and
      patterns that depend on the product of row and column modulo six. */
  lemma {:induction false} MaskPatterns(i: nat, j: nat)
    ensures GetMask(0, i, j) == Ok(i % 2 == j % 2) && GetMask(1, i, j) == Ok(i % 2 == 0)
    ensures GetMask(2, i, j) == Ok(j % 3 == 0) && GetMask(3, i, j) == Ok((i % 3 + j % 3) % 3 == 0)
    ensures GetMask(4, i, j) == Ok(i / 2 % 2 == j / 3 % 2)
    ensures GetMask(5, i, j) == Ok(i * j % 6 == 0) && GetMask(6, i, j) == Ok(i * j % 6 < 3)
    ensures GetMask(7, i, j) == Ok((i + j + i * j % 3) % 2 == 0)
  {
    var p := i * j;
    MaskBodies(i, j, p);
    hide *;
    ModSix(p);
    ParityOfSum(i + j, p % 3);
    ParityOfSum(i / 2, j / 3);
    ParityOfSum(i, j);
    ThirdsOfSum(i, j);
  }

  lemma {:induction false} MaskBodies(i: nat, j: nat, p: nat)
    requires p == i * j
    ensures GetMask(0, i, j) == Ok((i + j) % 2 == 0) && GetMask(1, i, j) == Ok(i % 2 == 0)
    ensures GetMask(2, i, j) == Ok(j % 3 == 0) && GetMask(3, i, j) == Ok((i + j) % 3 == 0)
    ensures GetMask(4, i, j) == Ok((i / 2 + j / 3) % 2 == 0) && GetMask(5, i, j) == Ok(p % 2 + p % 3 == 0)
    ensures GetMask(6, i, j) == Ok((p % 2 + p % 3) % 2 == 0) && GetMask(7, i, j) == Ok((p % 3 + (i + j) % 2) % 2 == 0)
  {
  }

  lemma {:induction false} ThirdsOfSum(i: nat, j: nat)
    ensures (i + j) % 3 == (i % 3 + j % 3) % 3
  {
    Remainder(i + j, 3, i / 3 + j / 3 + (i % 3 + j % 3) / 3, (i % 3 + j % 3) % 3);
  }

  lemma {:induction false} ModSix(p: nat)
    ensures p % 2 + p % 3 == 0 <==> p % 6 == 0
    ensures (p % 2 + p % 3) % 2 == 0 <==> p % 6 < 3
  {
    var q, r := p / 6, p % 6;
    Remainder(p, 2, 3 * q + r / 2, r % 2);
    Remainder(p, 3, 2 * q + r / 3, r % 3);
  }

  lemma {:induction false} ParityOfSum(x: nat, y: nat)
    ensures (y + x % 2) % 2 == (x + y) % 2
    ensures (x + y) % 2 == 0 <==> x % 2 == y % 2
  {
  }

  /** Every pattern repeats itself every twelve rows and every twelve columns. */
  lemma {:induction false} MaskRepeats(maskPattern: nat, i: nat, j: nat)
    ensures GetMask(maskPattern, i + 12, j) == GetMask(maskPattern, i, j) == GetMask(maskPattern, i, j + 12)
  {
    if maskPattern <= 7 {
      var p := i * j;
      assert (i + 12) * j == p + 12 * j && i * (j + 12) == p + 12 * i;
      TwelveMore(p, i);
      TwelveMore(p, j);
      TwelveMore(i, 1);
      TwelveMore(j, 1);
      TwelveMore(i + j, 1);
      HalvesOfTwelve(i, j);
      assert i + 12 + j == i + j + 12 && i + (j + 12) == i + j + 12;
    }
  }

  lemma {:induction false} TwelveMore(p: nat, k: nat)
    ensures (p + 12 * k) % 2 == p % 2 && (p + 12 * k) % 3 == p % 3
  {
    Remainder(p + 12 * k, 2, p / 2 + 6 * k, p % 2);
    Remainder(p + 12 * k, 3, p / 3 + 4 * k, p % 3);
  }

  lemma {:induction false} HalvesOfTwelve(i: nat, j: nat)
    ensures ((i + 12) / 2 + j / 3) % 2 == (i / 2 + j / 3) % 2 == (i / 2 + (j + 12) / 3) % 2
  {
    assert (i + 12) / 2 == i / 2 + 6 && (j + 12) / 3 == j / 3 + 4;
  }

  // ---- what the walk writes ----

  /** Bit j of the codeword sequence, the top bit of each codeword first; false past the end. */
  function DataBit(data: seq<Slot>, j: nat): bool {
    j / 8 < |data| && TestBit(data[j / 8].Read(), 7 - j % 8)
  }

  /** The colour that belongs in a free cell. */
  ghost function Wanted(g: Grid, data: seq<Slot>, maskPattern: nat, r: nat, c: nat): bool
    requires Size(|g|) && Square(g, |g|) && maskPattern <= 7 && r < |g| && c < |g| && c != 6
  {
    WalkCovers(|g|, r, c);
    DataBit(data, Count(g, StripOf(|g|, c), StepOf(|g|, r, c))) != GetMask(maskPattern, r, c).value
  }

  /** The cell (r, c) of h when the walk over g has come to step t of strip s. */
  ghost predicate CellDone(g: Grid, h: Grid, data: seq<Slot>, maskPattern: nat, s: nat, t: nat, r: nat, c: nat)
    requires Size(|g|) && Square(g, |g|) && Square(h, |g|) && r < |g| && c < |g|
  {
    if c != 6 && g[r][c] == Empty && Earlier(StripOf(|g|, c), StepOf(|g|, r, c), s, t) then
      maskPattern <= 7 && h[r][c] == Color(Wanted(g, data, maskPattern, r, c))
    else h[r][c] == g[r][c]
  }

  ghost predicate Walked(g: Grid, h: Grid, data: seq<Slot>, maskPattern: nat, s: nat, t: nat)
    requires Size(|g|) && Square(g, |g|)
  {
    Square(h, |g|) && forall r, c :: 0 <= r < |g| && 0 <= c < |g| ==> CellDone(g, h, data, maskPattern, s, t, r, c)
  }

  /** The finished symbol h over the reserved modules g, in coordinates: a free cell carries the bit whose
      number is the number of free cells that come before it, false past the end, turned where the mask
      is; everything else stays. */
  ghost predicate Placed(g: Grid, h: Grid, data: seq<Slot>, maskPattern: nat)
    requires Square(g, |g|)
  {
    && Square(h, |g|)
    && forall r, c :: 0 <= r < |g| && 0 <= c < |g| ==> PlacedAt(g, h, data, maskPattern, r, c)
  }

  ghost predicate PlacedAt(g: Grid, h: Grid, data: seq<Slot>, maskPattern: nat, r: nat, c: nat)
    requires Square(g, |g|) && Square(h, |g|) && r < |g| && c < |g|
  {
    if Free(g, r, c) then
      maskPattern <= 7 && h[r][c] == Color(DataBit(data, |Ahead(g, r, c)|) != GetMask(maskPattern, r, c).value)
    else h[r][c] == g[r][c]
  }

  /** The walk, once it is over, has filled the symbol in the order of the coordinates. */
  lemma {:induction false} WalkedPlaces(g: Grid, h: Grid, data: seq<Slot>, maskPattern: nat)
    requires Size(|g|) && Square(g, |g|) && Walked(g, h, data, maskPattern, Strips(|g|), 0)
    ensures Placed(g, h, data, maskPattern)
  {
    forall r, c | 0 <= r < |g| && 0 <= c < |g|
      ensures PlacedAt(g, h, data, maskPattern, r, c)
    {
      assert CellDone(g, h, data, maskPattern, Strips(|g|), 0, r, c);
      if c != 6 {
        WalkCovers(|g|, r, c);
        CountIsAhead(g, r, c);
      }
      hide DataBit, GetMask, Count, Ahead, StripOf, StepOf;
    }
  }

  ghost function GridOf(modules: array2<Module>): (g: Grid)
    requires modules.Length0 == modules.Length1
    reads modules
    ensures Square(g, modules.Length0)
    ensures forall r, c :: 0 <= r < modules.Length0 && 0 <= c < modules.Length0 ==> g[r][c] == modules[r, c]
  {
    seq(modules.Length0, r requires 0 <= r < modules.Length0 reads modules =>
      seq(modules.Length0, c requires 0 <= c < modules.Length0 reads modules => modules[r, c]))
  }

  // ---- one step ----

  /** Colouring, or passing over, the next cell of the walk. */
  lemma {:induction false} WalkStep(g: Grid, h: Grid, h': Grid, data: seq<Slot>, maskPattern: nat, s: nat, t: nat)
    requires Size(|g|) && Square(g, |g|) && OnWalk(|g|, s, t)
    requires Walked(g, h, data, maskPattern, s, t) && Square(h', |g|)
    requires 0 <= RowOf(|g|, s, t) < |g| && 0 <= ColumnOf(|g|, s, t) < |g|
    requires forall r, c :: 0 <= r < |g| && 0 <= c < |g| && !(r == RowOf(|g|, s, t) && c == ColumnOf(|g|, s, t)) ==>
        h'[r][c] == h[r][c]
    requires var r, c := RowOf(|g|, s, t), ColumnOf(|g|, s, t);
        if g[r][c] == Empty
        then maskPattern <= 7 && h'[r][c] == Color(DataBit(data, Count(g, s, t)) != GetMask(maskPattern, r, c).value)
        else h'[r][c] == h[r][c]
    ensures Walked(g, h', data, maskPattern, s, t + 1)
  {
    hide DataBit, GetMask, Count, RowOf, ColumnOf, StripOf, StepOf;
    var next := t + 1;
    WalkInside(|g|, s, t);
    forall r, c | 0 <= r < |g| && 0 <= c < |g|
      ensures CellDone(g, h', data, maskPattern, s, next, r, c)
    {
      assert CellDone(g, h, data, maskPattern, s, t, r, c);
      if c != 6 {
        OneStep(|g|, s, t, r, c);
        WalkCovers(|g|, r, c);
      }
    }
  }

  /** The walk changes strips. */
  lemma {:induction false} WalkTurn(g: Grid, h: Grid, data: seq<Slot>, maskPattern: nat, s: nat)
    requires Size(|g|) && Square(g, |g|) && s < Strips(|g|)
    requires Walked(g, h, data, maskPattern, s, 2 * |g|)
    ensures Walked(g, h, data, maskPattern, s + 1, 0)
  {
    hide DataBit, GetMask, Count;
    var n, next := |g|, s + 1;
    forall r, c | 0 <= r < n && 0 <= c < n
      ensures CellDone(g, h, data, maskPattern, next, 0, r, c)
    {
      assert CellDone(g, h, data, maskPattern, s, 2 * n, r, c);
      if c != 6 {
        WalkCovers(n, r, c);
      }
    }
  }

  lemma {:induction false} WalkStart(g: Grid, data: seq<Slot>, maskPattern: nat)
    requires Size(|g|) && Square(g, |g|)
    ensures Walked(g, g, data, maskPattern, 0, 0)
  {
    hide DataBit, GetMask, Count;
    forall r, c | 0 <= r < |g| && 0 <= c < |g|
      ensures CellDone(g, g, data, maskPattern, 0, 0, r, c)
    {
      if c != 6 {
        WalkCovers(|g|, r, c);
      }
    }
  }

  /** The body of the innermost loop: one cell of the zigzag. */
  method PlaceCell(modules: array2<Module>, data: seq<Slot>, maskPattern: nat, row: nat, col: nat,
                   byteIndex: nat, bitIndex: nat, ghost g: Grid, ghost s: nat, ghost t: nat)
    returns (ok: bool, byteIndex': nat, bitIndex': nat)
    requires modules.Length0 == modules.Length1 == |g| && Size(|g|) && Square(g, |g|)
    requires OnWalk(|g|, s, t) && row == RowOf(|g|, s, t) && col == ColumnOf(|g|, s, t)
    requires row < |g| && col < |g|
    requires Walked(g, GridOf(modules), data, maskPattern, s, t)
    requires bitIndex <= 7 && 8 * byteIndex + 7 - bitIndex == Count(g, s, t)
    modifies modules
    ensures ok <==> maskPattern <= 7 || !FreeAt(g, s, t)
    ensures ok ==> Walked(g, GridOf(modules), data, maskPattern, s, t + 1)
    ensures ok ==> bitIndex' <= 7 && 8 * byteIndex' + 7 - bitIndex' == Count(g, s, t + 1)
  {
    ghost var n, h := |g|, GridOf(modules);
    WalkInside(n, s, t);
    assert CellDone(g, h, data, maskPattern, s, t, row, col);
    hide RowOf, ColumnOf, StripOf, StepOf, StripColumn, TestBit;
    ok, byteIndex', bitIndex' := true, byteIndex, bitIndex;
    if modules[row, col] == Empty {
      var dark := false;
      if byteIndex < |data| {
        dark := TestBit(data[byteIndex].Read(), bitIndex);
      }
      assert dark == DataBit(data, Count(g, s, t));
      var mask := GetMask(maskPattern, row, col);
      if mask.Throws? {
        ok := false;
        return;
      }
      if mask.value {
        dark := !dark;
      }
      modules[row, col] := Color(dark);
      if bitIndex == 0 {
        byteIndex', bitIndex' := byteIndex + 1, 7;
      } else {
        bitIndex' := bitIndex - 1;
      }
    }
    WalkStep(g, h, GridOf(modules), data, maskPattern, s, t);
  }

  /** The value of `col` at the head of the outer loop, once s strips are done. */
  function HeadColumn(n: nat, s: nat): int {
    if n - 1 - 2 * s >= 6 then n - 1 - 2 * s else n - 2 - 2 * s
  }

  method PlaceData(modules: array2<Module>, data: seq<Slot>, maskPattern: nat) returns (ok: bool)
    requires modules.Length0 == modules.Length1 && Size(modules.Length0)
    modifies modules
    ensures ok <==> maskPattern <= 7 || FreeCells(old(GridOf(modules))) == {}
    ensures ok ==> Placed(old(GridOf(modules)), GridOf(modules), data, maskPattern)
    ensures ok ==> Walked(old(GridOf(modules)), GridOf(modules), data, maskPattern, Strips(modules.Length0), 0)
  {
    hide Walked, Placed, Count, StripOf, StepOf, FreeAt, FreeCells;
    var n := modules.Length0;
    ghost var g := GridOf(modules);
    ghost var s := 0;
    var inc := -1;
    var row := n - 1;
    var bitIndex := 7;
    var byteIndex := 0;
    var col := n - 1;
    WalkStart(g, data, maskPattern);
    CountStart(g);
    CountAll(g);
    while col > 0
      invariant s <= Strips(n) && col == HeadColumn(n, s)
      invariant inc == if s % 2 == 0 then -1 else 1
      invariant row == if s % 2 == 0 then n - 1 else 0
      invariant Walked(g, GridOf(modules), data, maskPattern, s, 0)
      invariant 0 <= bitIndex <= 7 && byteIndex >= 0 && 8 * byteIndex + 7 - bitIndex == Count(g, s, 0)
      invariant maskPattern <= 7 || Count(g, s, 0) == 0
      decreases col
    {
      if col == 6 {
        col := col - 1;
      }
      assert col == StripColumn(n, s) && s < Strips(n);
      ok, row, inc, byteIndex, bitIndex :=
        PlaceStrip(modules, data, maskPattern, row, inc, col, byteIndex, bitIndex, g, s);
      if !ok {
        CountMonotone(g, s + 1, 0, Strips(n));
        return;
      }
      WalkTurn(g, GridOf(modules), data, maskPattern, s);
      s := s + 1;
      col := col - 2;
    }
    WalkedPlaces(g, GridOf(modules), data, maskPattern);
    ok := true;
  }

  /** The `while(true)` loop: one strip, in the direction of inc, turning round at the edge. */
  method PlaceStrip(modules: array2<Module>, data: seq<Slot>, maskPattern: nat, row0: int, inc0: int, col: nat,
                    byteIndex0: nat, bitIndex0: nat, ghost g: Grid, ghost s: nat)
    returns (ok: bool, row: int, inc: int, byteIndex: nat, bitIndex: nat)
    requires modules.Length0 == modules.Length1 == |g| && Size(|g|) && Square(g, |g|)
    requires s < Strips(|g|) && col == StripColumn(|g|, s) && col >= 1
    requires inc0 == if s % 2 == 0 then -1 else 1
    requires row0 == if s % 2 == 0 then |g| - 1 else 0
    requires Walked(g, GridOf(modules), data, maskPattern, s, 0)
    requires bitIndex0 <= 7 && 8 * byteIndex0 + 7 - bitIndex0 == Count(g, s, 0)
    requires maskPattern <= 7 || Count(g, s, 0) == 0
    modifies modules
    ensures ok <==> maskPattern <= 7 || Count(g, s + 1, 0) == 0
    ensures ok ==> inc == -inc0 && row == |g| - 1 - row0
    ensures ok ==> Walked(g, GridOf(modules), data, maskPattern, s, 2 * |g|)
    ensures ok ==> bitIndex <= 7 && 8 * byteIndex + 7 - bitIndex == Count(g, s + 1, 0)
  {
    hide Walked, Count, StripOf, StepOf, FreeAt, StripColumn;
    ok, row, inc, byteIndex, bitIndex := true, row0, inc0, byteIndex0, bitIndex0;
    var n := modules.Length0;
    ghost var k := 0;
    while true
      invariant 0 <= k < n && row == RowOf(n, s, 2 * k) && 0 <= row < n && inc == inc0
      invariant Walked(g, GridOf(modules), data, maskPattern, s, 2 * k)
      invariant bitIndex <= 7 && 8 * byteIndex + 7 - bitIndex == Count(g, s, 2 * k)
      invariant maskPattern <= 7 || Count(g, s, 2 * k) == 0
      decreases n - k
    {
      for c := 0 to 2
        invariant Walked(g, GridOf(modules), data, maskPattern, s, 2 * k + c)
        invariant bitIndex <= 7 && 8 * byteIndex + 7 - bitIndex == Count(g, s, 2 * k + c)
        invariant maskPattern <= 7 || Count(g, s, 2 * k + c) == 0
      {
        CountStep(g, s, 2 * k + c);
        WalkInside(n, s, 2 * k + c);
        ok, byteIndex, bitIndex :=
          PlaceCell(modules, data, maskPattern, row, col - c, byteIndex, bitIndex, g, s, 2 * k + c);
        if !ok {
          CountSteps(g, s, 2 * k + c + 1, 2 * n);
          CountTurn(g, s);
          return;
        }
      }
      row := row + inc;
      k := k + 1;
      if row < 0 || n <= row {
        row := row - inc;
        inc := -inc;
        break;
      }
    }
    CountTurn(g, s);
  }

  // ---- what the placed symbol says ----

  /** Nothing is left empty when the reserved modules cover column 6, and reserved modules keep
      their colour. */
  lemma {:induction false} NothingEmpty(g: Grid, h: Grid, data: seq<Slot>, maskPattern: nat, r: nat, c: nat)
    requires Size(|g|) && Square(g, |g|) && r < |g| && c < |g|
    requires Walked(g, h, data, maskPattern, Strips(|g|), 0)
    ensures g[r][c] != Empty ==> h[r][c] == g[r][c]
    ensures c != 6 ==> h[r][c] != Empty
  {
    assert CellDone(g, h, data, maskPattern, Strips(|g|), 0, r, c);
    if c != 6 {
      WalkCovers(|g|, r, c);
    }
  }

  /** What a cell says with the mask taken off again. */
  predicate Unmasked(h: Grid, maskPattern: nat, r: nat, c: nat)
    requires Square(h, |h|) && r < |h| && c < |h| && maskPattern <= 7
  {
    (h[r][c] == Color(true)) != GetMask(maskPattern, r, c).value
  }

  ghost function StepBit(g: Grid, h: Grid, maskPattern: nat, s: nat, t: nat): bool
    requires Size(|g|) && Square(g, |g|) && Square(h, |g|) && maskPattern <= 7 && OnWalk(|g|, s, t)
  {
    WalkInside(|g|, s, t);
    Unmasked(h, maskPattern, RowOf(|g|, s, t), ColumnOf(|g|, s, t))
  }

  /** The reader: the free cells along the walk. */
  ghost function ReadModules(g: Grid, h: Grid, maskPattern: nat, s: nat, t: nat): (bits: seq<bool>)
    requires Size(|g|) && Square(g, |g|) && Square(h, |g|) && maskPattern <= 7
    requires s <= Strips(|g|) && t <= 2 * |g| && (s == Strips(|g|) ==> t == 0)
    decreases s, t
  {
    if t > 0 then
      ReadModules(g, h, maskPattern, s, t - 1) +
      (if FreeAt(g, s, t - 1) then [StepBit(g, h, maskPattern, s, t - 1)] else [])
    else if s > 0 then ReadModules(g, h, maskPattern, s - 1, 2 * |g|)
    else []
  }

  /** The reader takes the free cells in the order of the coordinates, too. */
  lemma {:induction false} ReadModulesAt(g: Grid, h: Grid, maskPattern: nat, r: nat, c: nat)
    requires Size(|g|) && Square(g, |g|) && Square(h, |g|) && maskPattern <= 7 && Free(g, r, c)
    ensures |Ahead(g, r, c)| < |ReadModules(g, h, maskPattern, Strips(|g|), 0)|
    ensures ReadModules(g, h, maskPattern, Strips(|g|), 0)[|Ahead(g, r, c)|] == Unmasked(h, maskPattern, r, c)
  {
    WalkCovers(|g|, r, c);
    CountIsAhead(g, r, c);
    ReadModulesStep(g, h, maskPattern, StripOf(|g|, c), StepOf(|g|, r, c), Strips(|g|), 0);
  }

  lemma {:induction false} ReadModulesStep(
      g: Grid, h: Grid, maskPattern: nat, s: nat, t: nat, s': nat, t': nat)
    requires Size(|g|) && Square(g, |g|) && Square(h, |g|) && maskPattern <= 7
    requires OnWalk(|g|, s, t) && FreeAt(g, s, t) && Earlier(s, t, s', t')
    requires s' <= Strips(|g|) && t' <= 2 * |g| && (s' == Strips(|g|) ==> t' == 0)
    ensures Count(g, s, t) < |ReadModules(g, h, maskPattern, s', t')|
    ensures ReadModules(g, h, maskPattern, s', t')[Count(g, s, t)] == StepBit(g, h, maskPattern, s, t)
    decreases s', t'
  {
    hide StepBit, Count, FreeAt, Square, Size;
    if t' > 0 {
      if s == s' && t == t' - 1 {
        ReadModulesLength(g, h, maskPattern, s, t);
      } else {
        ReadModulesStep(g, h, maskPattern, s, t, s', t' - 1);
      }
    } else {
      ReadModulesStep(g, h, maskPattern, s, t, s' - 1, 2 * |g|);
    }
  }

  lemma {:induction false} ReadModulesLength(g: Grid, h: Grid, maskPattern: nat, s: nat, t: nat)
    requires Size(|g|) && Square(g, |g|) && Square(h, |g|) && maskPattern <= 7
    requires s <= Strips(|g|) && t <= 2 * |g| && (s == Strips(|g|) ==> t == 0)
    ensures |ReadModules(g, h, maskPattern, s, t)| == Count(g, s, t)
    decreases s, t
  {
    hide GetMask;
    if t > 0 {
      ReadModulesLength(g, h, maskPattern, s, t - 1);
    } else if s > 0 {
      ReadModulesLength(g, h, maskPattern, s - 1, 2 * |g|);
    }
  }

  /** The first n bits of the codewords, then false. */
  function Stream(data: seq<Slot>, n: nat): (bits: seq<bool>)
    ensures |bits| == n
  {
    seq(n, j requires 0 <= j < n => DataBit(data, j))
  }

  lemma {:induction false} StreamStep(data: seq<Slot>, k: nat)
    ensures Stream(data, k + 1) == Stream(data, k) + [DataBit(data, k)]
  {
    hide DataBit;
  }

  /** One free cell, with the mask taken off, carries the bit of its place on the walk. */
  lemma {:induction false} ReadOne(g: Grid, h: Grid, data: seq<Slot>, maskPattern: nat, s: nat, t: nat)
    requires Size(|g|) && Square(g, |g|) && OnWalk(|g|, s, t) && maskPattern <= 7
    requires Walked(g, h, data, maskPattern, Strips(|g|), 0)
    ensures FreeAt(g, s, t) ==> (StepBit(g, h, maskPattern, s, t) <==> DataBit(data, Count(g, s, t)))
  {
    hide DataBit, GetMask, Count;
    WalkInside(|g|, s, t);
    var r, c := RowOf(|g|, s, t), ColumnOf(|g|, s, t);
    assert CellDone(g, h, data, maskPattern, Strips(|g|), 0, r, c);
  }

  /** Reading along the same walk returns the codeword bits in order. */
  lemma {:induction false} ReadPlaced(g: Grid, h: Grid, data: seq<Slot>, maskPattern: nat, s: nat, t: nat)
    requires Size(|g|) && Square(g, |g|) && maskPattern <= 7
    requires s <= Strips(|g|) && t <= 2 * |g| && (s == Strips(|g|) ==> t == 0)
    requires Walked(g, h, data, maskPattern, Strips(|g|), 0)
    ensures ReadModules(g, h, maskPattern, s, t) == Stream(data, Count(g, s, t))
    decreases s, t
  {
    if t > 0 {
      ReadPlaced(g, h, data, maskPattern, s, t - 1);
      CountStep(g, s, t - 1);
      ReadOne(g, h, data, maskPattern, s, t - 1);
      StreamStep(data, Count(g, s, t - 1));
      hide StepBit, DataBit, Walked, Count, Stream, FreeAt, Square, Size;
    } else if s > 0 {
      ReadPlaced(g, h, data, maskPattern, s - 1, 2 * |g|);
      CountTurn(g, s - 1);
      hide StepBit, DataBit, Walked, Count, Stream, FreeAt, Square, Size;
    } else {
      CountStart(g);
    }
  }
}
