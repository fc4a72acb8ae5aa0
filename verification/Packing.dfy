/**
 * Placement of voters in ciphertext slots (helpers.go computePackingLayout) and the
 * packed decoders of test.go. Slots are the flat list of the rows of a ciphertext;
 * the tally uses the two rows of a BGV ciphertext.
 */
module Packing {
  import opened Modular
  import opened Matrices

  function CeilDiv(n: nat, d: nat): (r: nat)
    requires d > 0
    ensures n > 0 ==> (r - 1) * d < n <= r * d
    ensures n == 0 ==> r == 0
  {
    if n == 0 then 0
    else
      assert n - 1 == ((n - 1) / d) * d + (n - 1) % d;
      1 + (n - 1) / d
  }

  datatype PackingLayout = PackingLayout(
    rowsPerCiphertext: nat,
    colsPerCiphertext: nat,
    votersPerRow: nat,
    votersPerCiphertext: nat,
    totalRows: nat,
    ciphertextCount: nat)

  function ComputePackingLayout(voterCount: nat, blockSize: nat, rows: nat, cols: nat): PackingLayout
    requires blockSize > 0 && rows > 0
    requires cols / blockSize > 0
  {
    var votersPerRow := cols / blockSize;
    var totalRows := CeilDiv(voterCount, votersPerRow);
    PackingLayout(rows, cols, votersPerRow, rows * votersPerRow, totalRows, CeilDiv(totalRows, rows))
  }

  lemma CeilDivUnique(n: nat, d: nat, r: nat)
    requires d > 0
    requires if n == 0 then r == 0 else (r - 1) * d < n <= r * d
    ensures r == CeilDiv(n, d)
  {
    var c := CeilDiv(n, d);
    if n > 0 {
      if r < c { MulMonotone(r, c - 1, d, d); }
      if c < r { MulMonotone(c, r - 1, d, d); }
    }
  }

  /** Rounding up by rows and then by ciphertexts is rounding up once. */
  lemma NestedCeil(n: nat, a: nat, b: nat)
    requires a > 0 && b > 0
    ensures a * b > 0 && CeilDiv(CeilDiv(n, a), b) == CeilDiv(n, a * b)
  {
    MulMonotone(1, a, 1, b);
    if n > 0 {
      var m := CeilDiv(n, a);
      assert m > 0 by { assert n <= m * a; }
      var r := CeilDiv(m, b);
      assert r > 0 by { assert m <= r * b; }
      MulMonotone(m, r * b, a, a);
      assert (r * b) * a == r * (a * b);
      MulMonotone((r - 1) * b, m - 1, a, a);
      assert ((r - 1) * b) * a == (r - 1) * (a * b);
      CeilDivUnique(n, a * b, r);
    }
  }

  /** analytical_requirements.py: blocks = (n + voters_per_ct - 1) // voters_per_ct. */
  lemma PythonCeil(n: nat, d: nat)
    requires d > 0
    ensures (n + d - 1) / d == CeilDiv(n, d)
  {
    if n == 0 {
      DivModUnique(d - 1, 0, d - 1, d);
    } else {
      DivModUnique(n + d - 1, 1 + (n - 1) / d, (n - 1) % d, d);
    }
  }

  /**
   * The layout holds every voter, its last ciphertext is not empty, and its
   * ciphertext count is the one of the analytical model.
   */
  lemma LayoutCounts(n: nat, blockSize: nat, rows: nat, cols: nat)
    requires blockSize > 0 && rows > 0 && cols / blockSize > 0
    ensures var L := ComputePackingLayout(n, blockSize, rows, cols);
      && L.votersPerCiphertext > 0
      && n <= L.ciphertextCount * L.votersPerCiphertext
      && (n > 0 ==> L.ciphertextCount > 0 && (L.ciphertextCount - 1) * L.votersPerCiphertext < n)
      && L.ciphertextCount == (n + rows * (cols / blockSize) - 1) / (rows * (cols / blockSize))
  {
    var v := cols / blockSize;
    NestedCeil(n, v, rows);
    PythonCeil(n, rows * v);
  }

  // ------------------------------------------------- two-row ciphertexts

  /** Geometry shared by all ciphertexts of one tally. */
  datatype Grid = Grid(cols: nat, blockSize: nat, perRow: nat) {
    ghost predicate Valid() {
      blockSize > 0 && perRow > 0 && perRow * blockSize <= cols
    }

    function Slots(): nat { 2 * cols }

    function PerCiphertext(): nat { 2 * perRow }

    function RowOf(s: nat): nat { if s < cols then 0 else 1 }

    function ColOf(s: nat): nat { if s < cols then s else s - cols }

    /** First slot of the block of a voter, from its position in its ciphertext. */
    function BlockStart(local: nat): nat
      requires perRow > 0
    {
      (local / perRow) * cols + (local % perRow) * blockSize
    }
  }

  ghost function GridOf(L: PackingLayout, blockSize: nat): Grid {
    Grid(L.colsPerCiphertext, blockSize, L.votersPerRow)
  }

  lemma LayoutGrid(n: nat, blockSize: nat, cols: nat)
    requires blockSize > 0 && cols / blockSize > 0
    ensures GridOf(ComputePackingLayout(n, blockSize, 2, cols), blockSize).Valid()
  {
    assert cols == blockSize * (cols / blockSize) + cols % blockSize;
  }

  /** Where the slot s of block offset `off` lies. */
  lemma BlockSlot(g: Grid, local: nat, off: nat)
    requires g.Valid() && local < g.PerCiphertext() && off < g.blockSize
    ensures var s := g.BlockStart(local) + off;
      && s < g.Slots()
      && g.RowOf(s) == local / g.perRow
      && g.ColOf(s) == (local % g.perRow) * g.blockSize + off
      && g.ColOf(s) / g.blockSize == local % g.perRow
      && g.ColOf(s) % g.blockSize == off
      && local == g.RowOf(s) * g.perRow + local % g.perRow
  {
    var row, j := local / g.perRow, local % g.perRow;
    assert local == row * g.perRow + j;
    if row >= 2 { MulMonotone(2, row, g.perRow, g.perRow); assert false; }
    FlatIndex(g.perRow, g.blockSize, j, off);
    assert row == 0 || row == 1;
    assert row * g.cols == (if row == 0 then 0 else g.cols);
  }

  /** The position, in its ciphertext, of the voter whose block contains slot s. */
  function LocalAt(g: Grid, s: nat): nat
    requires g.blockSize > 0
  {
    g.RowOf(s) * g.perRow + g.ColOf(s) / g.blockSize
  }

  /** Every slot of a used block belongs to exactly one voter position. */
  lemma SlotBlock(g: Grid, s: nat)
    requires g.Valid() && s < g.Slots() && g.ColOf(s) / g.blockSize < g.perRow
    ensures var local := LocalAt(g, s);
      local < g.PerCiphertext() && s == g.BlockStart(local) + g.ColOf(s) % g.blockSize
  {
    var j := g.ColOf(s) / g.blockSize;
    var row := g.RowOf(s);
    assert row * g.perRow == (if row == 0 then 0 else g.perRow);
    DivModUnique(row * g.perRow + j, row, j, g.perRow);
    assert g.BlockStart(row * g.perRow + j) == row * g.cols + j * g.blockSize;
    assert g.ColOf(s) == j * g.blockSize + g.ColOf(s) % g.blockSize;
    assert row * g.cols == (if row == 0 then 0 else g.cols);
  }

  /** Distinct voters of a ciphertext have disjoint blocks. */
  lemma BlocksDisjoint(g: Grid, u: nat, v: nat, offU: nat, offV: nat)
    requires g.Valid() && u < g.PerCiphertext() && v < g.PerCiphertext()
    requires offU < g.blockSize && offV < g.blockSize
    requires g.BlockStart(u) + offU == g.BlockStart(v) + offV
    ensures u == v && offU == offV
  {
    BlockSlot(g, u, offU);
    BlockSlot(g, v, offV);
  }

  /** The voter whose block contains slot s of ciphertext i. */
  function VoterAt(g: Grid, i: nat, s: nat): nat
    requires g.blockSize > 0
  {
    i * g.PerCiphertext() + LocalAt(g, s)
  }

  /** Slot s of ciphertext i when an n-by-width matrix is packed one row per block. */
  function PackedAt(g: Grid, m: seq<int>, width: nat, n: nat, i: nat, s: nat): int
    requires g.blockSize > 0
  {
    if g.ColOf(s) / g.blockSize < g.perRow && VoterAt(g, i, s) < n && g.ColOf(s) % g.blockSize < width
    then Entry(m, width, VoterAt(g, i, s), g.ColOf(s) % g.blockSize)
    else 0
  }

  function Packed(g: Grid, m: seq<int>, width: nat, n: nat, i: nat): seq<int>
    requires g.blockSize > 0
  {
    seq(g.Slots(), s requires 0 <= s < g.Slots() => PackedAt(g, m, width, n, i, s))
  }

  /** Reading a packed matrix at a voter's block gives the voter's row back. */
  lemma PackedEntry(g: Grid, m: seq<int>, width: nat, n: nat, i: nat, local: nat, off: nat)
    requires g.Valid() && local < g.PerCiphertext() && off < g.blockSize
    ensures g.BlockStart(local) + off < g.Slots()
    ensures Packed(g, m, width, n, i)[g.BlockStart(local) + off]
         == var voter := i * g.PerCiphertext() + local;
            if voter < n && off < width then Entry(m, width, voter, off) else 0
  {
    BlockSlot(g, local, off);
  }

  function Quotient(a: nat, b: nat): nat
    requires b > 0
  {
    a / b
  }

  function CiphertextOf(g: Grid, voter: nat): nat
    requires g.perRow > 0
  {
    Quotient(voter, g.PerCiphertext())
  }

  function LocalOf(g: Grid, voter: nat): nat
    requires g.perRow > 0
  {
    voter % g.PerCiphertext()
  }

  /** Slot `off` of a voter's block; total, as padding voters have no ciphertext. */
  function ReadSlot(g: Grid, cts: seq<seq<int>>, voter: nat, off: nat): int
    requires g.perRow > 0
  {
    var i, s := CiphertextOf(g, voter), g.BlockStart(LocalOf(g, voter)) + off;
    if i < |cts| && s < |cts[i]| then cts[i][s] else 0
  }

  lemma VoterPosition(g: Grid, i: nat, row: nat, j: nat)
    requires g.Valid() && row < 2 && j < g.perRow
    ensures var voter := i * g.PerCiphertext() + row * g.perRow + j;
      && CiphertextOf(g, voter) == i
      && LocalOf(g, voter) == row * g.perRow + j < g.PerCiphertext()
      && g.BlockStart(LocalOf(g, voter)) == row * g.cols + j * g.blockSize
      && g.BlockStart(LocalOf(g, voter)) + g.blockSize <= g.Slots()
  {
    var local := row * g.perRow + j;
    DivModUnique(i * g.PerCiphertext() + local, i, local, g.PerCiphertext());
    DivModUnique(local, row, j, g.perRow);
    BlockSlot(g, local, g.blockSize - 1);
  }

  lemma SlotOfBlock(g: Grid, local: nat, i: nat, s: nat)
    requires g.Valid() && local < g.PerCiphertext()
    requires g.BlockStart(local) <= s < g.BlockStart(local) + g.blockSize
    ensures s < g.Slots() && g.ColOf(s) / g.blockSize < g.perRow
    ensures VoterAt(g, i, s) == i * g.PerCiphertext() + local
    ensures g.ColOf(s) % g.blockSize == s - g.BlockStart(local)
  {
    BlockSlot(g, local, s - g.BlockStart(local));
  }

  lemma VoterInCiphertext(g: Grid, i: nat, local: nat)
    requires g.Valid() && local < g.PerCiphertext()
    ensures CiphertextOf(g, i * g.PerCiphertext() + local) == i && LocalOf(g, i * g.PerCiphertext() + local) == local
  {
    DivModUnique(i * g.PerCiphertext() + local, i, local, g.PerCiphertext());
  }

  lemma BlockOfSlot(g: Grid, i: nat, s: nat)
    requires g.Valid() && s < g.Slots() && g.ColOf(s) / g.blockSize < g.perRow
    ensures CiphertextOf(g, VoterAt(g, i, s)) == i
    ensures s == g.BlockStart(LocalOf(g, VoterAt(g, i, s))) + g.ColOf(s) % g.blockSize
  {
    SlotBlock(g, s);
    VoterInCiphertext(g, i, LocalAt(g, s));
  }

  /** Slot s of ciphertext i belongs to the voter exactly when it lies in the voter's block. */
  lemma VoterOfSlot(g: Grid, voter: nat, i: nat, s: nat)
    requires g.Valid() && s < g.Slots()
    ensures var start := g.BlockStart(LocalOf(g, voter));
      && ((g.ColOf(s) / g.blockSize < g.perRow && VoterAt(g, i, s) == voter)
            <==> (i == CiphertextOf(g, voter) && start <= s < start + g.blockSize))
      && (start <= s < start + g.blockSize ==> g.ColOf(s) % g.blockSize == s - start)
  {
    var ct, local := CiphertextOf(g, voter), LocalOf(g, voter);
    assert voter == ct * g.PerCiphertext() + local;
    if g.BlockStart(local) <= s < g.BlockStart(local) + g.blockSize {
      SlotOfBlock(g, local, i, s);
      DivModUnique(i * g.PerCiphertext() + local, i, local, g.PerCiphertext());
    } else if g.ColOf(s) / g.blockSize < g.perRow {
      BlockOfSlot(g, i, s);
    }
  }

  /** What the decoders have read after the first `voters` voters. */
  ghost predicate DecodedUpTo(g: Grid, cts: seq<seq<int>>, width: nat, decoded: seq<int>, voters: nat)
    requires g.perRow > 0
  {
    && |decoded| == voters * width
    && forall v: nat, c: nat :: v < voters && c < width ==> Entry(decoded, width, v, c) == ReadSlot(g, cts, v, c)
  }

  lemma AppendRow(g: Grid, cts: seq<seq<int>>, width: nat, decoded: seq<int>, voters: nat, slice: seq<int>)
    requires g.perRow > 0 && DecodedUpTo(g, cts, width, decoded, voters)
    requires |slice| == width && forall c: nat :: c < width ==> slice[c] == ReadSlot(g, cts, voters, c)
    ensures DecodedUpTo(g, cts, width, decoded + slice, voters + 1)
  {
    Distribute(width, voters, 1);
    forall v: nat, c: nat | v < voters + 1 && c < width
      ensures Entry(decoded + slice, width, v, c) == ReadSlot(g, cts, v, c)
    {
      if v < voters {
        FlatIndex(voters, width, v, c);
        assert Entry(decoded + slice, width, v, c) == Entry(decoded, width, v, c);
      }
    }
  }

  /** Fewer than n * width values are there exactly when voters remain. */
  lemma VotersRemain(voters: nat, n: nat, width: nat)
    requires voters <= n && width > 0
    ensures voters * width < n * width <==> voters < n
  {
    if voters < n { MulMonotone(voters + 1, n, width, width); Distribute(width, voters, 1); }
  }

  /** One row of one ciphertext. */
  method DecodeRow(g: Grid, cts: seq<seq<int>>, i: nat, row: nat, width: nat, n: nat, before: seq<int>,
      ghost start: nat)
    returns (decoded: seq<int>, ghost voters: nat)
    requires g.Valid() && 0 < width <= g.blockSize && i < |cts| && row < 2
    requires forall k :: 0 <= k < |cts| ==> |cts[k]| == g.Slots()
    requires start < n && start == i * g.PerCiphertext() + row * g.perRow
    requires DecodedUpTo(g, cts, width, before, start)
    ensures voters <= n && (voters == n || voters == start + g.perRow)
    ensures DecodedUpTo(g, cts, width, decoded, voters)
  {
    decoded, voters := before, start;
    var rowBase := row * g.cols;
    var voter := 0;
    VotersRemain(voters, n, width);
    while voter < g.perRow && |decoded| < n * width
      invariant 0 <= voter <= g.perRow
      invariant voters <= n && voters == start + voter
      invariant |decoded| < n * width <==> voters < n
      invariant DecodedUpTo(g, cts, width, decoded, voters)
    {
      VoterPosition(g, i, row, voter);
      var blockStart := rowBase + voter * g.blockSize;
      var slice := cts[i][blockStart..blockStart + width];
      AppendRow(g, cts, width, decoded, voters, slice);
      decoded := decoded + slice;
      voters := voters + 1;
      VotersRemain(voters, n, width);
      voter := voter + 1;
    }
  }

  /**
   * test.go mp_decodePackedBlocks on decrypted slots; width 1 is
   * mp_decodeBaseSlotVector. It stops as soon as n * width values are read.
   */
  method DecodePackedBlocks(g: Grid, cts: seq<seq<int>>, width: nat, n: nat) returns (decoded: seq<int>)
    requires g.Valid() && 0 < width <= g.blockSize
    requires n <= |cts| * g.PerCiphertext()
    requires forall i :: 0 <= i < |cts| ==> |cts[i]| == g.Slots()
    ensures DecodedUpTo(g, cts, width, decoded, n)
  {
    decoded := [];
    ghost var voters := 0;
    VotersRemain(0, n, width);
    for i := 0 to |cts|
      invariant voters <= n && (voters == n || voters == i * g.PerCiphertext())
      invariant |decoded| < n * width <==> voters < n
      invariant DecodedUpTo(g, cts, width, decoded, voters)
    {
      var row := 0;
      while row < 2 && |decoded| < n * width
        invariant 0 <= row <= 2
        invariant voters <= n && (voters == n || voters == i * g.PerCiphertext() + row * g.perRow)
        invariant |decoded| < n * width <==> voters < n
        invariant DecodedUpTo(g, cts, width, decoded, voters)
      {
        decoded, voters := DecodeRow(g, cts, i, row, width, n, decoded, voters);
        VotersRemain(voters, n, width);
        Distribute(g.perRow, row, 1);
        row := row + 1;
      }
      Distribute(g.PerCiphertext(), i, 1);
    }
  }

  /** Packing and then reading gives back every entry. */
  lemma ReadPacked(g: Grid, m: seq<int>, width: nat, n: nat, cts: seq<seq<int>>, voter: nat, off: nat)
    requires g.Valid() && voter < n <= |cts| * g.PerCiphertext() && off < width <= g.blockSize
    requires forall i :: 0 <= i < |cts| ==> cts[i] == Packed(g, m, width, n, i)
    ensures CiphertextOf(g, voter) < |cts| && g.BlockStart(LocalOf(g, voter)) + off < g.Slots()
    ensures ReadSlot(g, cts, voter, off) == Entry(m, width, voter, off)
  {
    var i, local := CiphertextOf(g, voter), LocalOf(g, voter);
    assert voter == i * g.PerCiphertext() + local;
    if i >= |cts| { MulMonotone(|cts|, i, g.PerCiphertext(), g.PerCiphertext()); assert false; }
    PackedEntry(g, m, width, n, i, local, off);
  }

  /** Decoding packed blocks returns the packed matrix. */
  lemma DecodeOfPacked(g: Grid, m: seq<int>, width: nat, n: nat, cts: seq<seq<int>>, decoded: seq<int>)
    requires g.Valid() && 0 < width <= g.blockSize && |m| == n * width
    requires n <= |cts| * g.PerCiphertext()
    requires forall i :: 0 <= i < |cts| ==> cts[i] == Packed(g, m, width, n, i)
    requires DecodedUpTo(g, cts, width, decoded, n)
    ensures decoded == m
  {
    forall v: nat, c: nat | v < n && c < width ensures Entry(decoded, width, v, c) == Entry(m, width, v, c) {
      ReadPacked(g, m, width, n, cts, v, c);
    }
    EntriesDetermine(decoded, m, n, width);
  }
}
