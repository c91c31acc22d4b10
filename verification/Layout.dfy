/** Where a byte of a striped file lives, how a request is cut into slices, and on which servers
    the two copies of each stripe group are placed. */
module Layout {
  import opened Arith

  const HFS_MIN_STRIPE_CNT := 3
  const HFS_MAX_STRIPE_CNT := 16
  const HFS_MIN_STRIPE_SIZE := 1024
  const HFS_MAX_STRIPE_SIZE := 32768
  const TOTAL_COPIES := 2

  // ---------------------------------------------------------------------------------------------
  // Byte map: stripe `p / ss` of the file is row `(p / ss) / n` of stripe group `(p / ss) % n`.

  /** Logical stripe (LCN) of file byte `p`. */
  function Lcn(p: nat, ss: nat): nat
    requires 0 < ss
  {
    p / ss
  }

  function LcnGroup(lcn: nat, n: nat): (g: nat)
    requires 0 < n
    ensures g < n
  {
    lcn % n
  }

  function LcnRow(lcn: nat, n: nat): nat
    requires 0 < n
  {
    lcn / n
  }

  function Group(p: nat, ss: nat, n: nat): (g: nat)
    requires 0 < ss && 0 < n
    ensures g < n
  {
    LcnGroup(Lcn(p, ss), n)
  }

  /** Position of file byte `p` inside the extent of its group. */
  function Pos(p: nat, ss: nat, n: nat): (q: nat)
    requires 0 < ss && 0 < n
  {
    RowStart(LcnRow(Lcn(p, ss), n), ss) + p % ss
  }

  /** First position of a row of stripes. */
  function RowStart(row: nat, ss: nat): nat {
    row * ss
  }

  /** The file byte stored at position `q` of the extent of group `g`. */
  function FileByte(g: nat, q: nat, ss: nat, n: nat): (p: nat)
    requires 0 < ss && g < n
  {
    RowStart(RowStart(q / ss, n) + g, ss) + q % ss
  }

  lemma LcnParts(lcn: nat, n: nat)
    requires 0 < n
    ensures lcn == RowStart(LcnRow(lcn, n), n) + LcnGroup(lcn, n)
  {
  }

  lemma LcnOf(p: nat, lcn: nat, inStripe: nat, ss: nat)
    requires inStripe < ss && p == RowStart(lcn, ss) + inStripe
    ensures Lcn(p, ss) == lcn && p % ss == inStripe
  {
    DivModUnique(p, ss, lcn, inStripe);
  }

  lemma LcnStart(p: nat, ss: nat)
    requires 0 < ss
    ensures p == RowStart(Lcn(p, ss), ss) + p % ss
    ensures RowStart(Lcn(p, ss), ss) <= p < RowStart(Lcn(p, ss) + 1, ss)
  {
    RowStep(Lcn(p, ss), ss);
  }

  lemma RowStep(row: nat, ss: nat)
    ensures RowStart(row + 1, ss) == RowStart(row, ss) + ss
  {
  }

  lemma RowMono(row: nat, row': nat, ss: nat)
    requires row <= row'
    ensures RowStart(row, ss) <= RowStart(row', ss)
  {
    MulMono(row, row', ss);
  }

  lemma LcnMono(p: nat, p': nat, ss: nat)
    requires 0 < ss && p <= p'
    ensures Lcn(p, ss) <= Lcn(p', ss)
  {
    DivMono(p, p', ss);
  }

  /** The map from file bytes to (group, position) is one to one ... */
  lemma FileByteOfPos(p: nat, ss: nat, n: nat)
    requires 0 < ss && 0 < n
    ensures FileByte(Group(p, ss, n), Pos(p, ss, n), ss, n) == p
  {
    hide RowStart, Lcn, LcnGroup, LcnRow;
    LcnOf(Pos(p, ss, n), LcnRow(Lcn(p, ss), n), p % ss, ss);
    assert Pos(p, ss, n) / ss == LcnRow(Lcn(p, ss), n) by { LcnDef(Pos(p, ss, n), ss); }
    LcnParts(Lcn(p, ss), n);
    LcnStart(p, ss);
  }

  lemma LcnDef(p: nat, ss: nat)
    requires 0 < ss
    ensures Lcn(p, ss) == p / ss
  {
  }

  /** ... and onto: every position of every extent holds a byte of the file. */
  lemma PosOfFileByte(g: nat, q: nat, ss: nat, n: nat)
    requires 0 < ss && g < n
    ensures Group(FileByte(g, q, ss, n), ss, n) == g
    ensures Pos(FileByte(g, q, ss, n), ss, n) == q
  {
    hide RowStart, Lcn, LcnGroup, LcnRow;
    var lcn := RowStart(q / ss, n) + g;
    LcnOf(FileByte(g, q, ss, n), lcn, q % ss, ss);
    LcnOf(lcn, q / ss, g, n);
    LcnSplit(lcn, n);
    LcnStart(q, ss);
    LcnDef(q, ss);
  }

  lemma LcnSplit(lcn: nat, n: nat)
    requires 0 < n
    ensures LcnRow(lcn, n) == Lcn(lcn, n) && LcnGroup(lcn, n) == lcn % n
  {
  }

  /** Within one group, file order is extent order. */
  lemma FileByteMono(g: nat, q: nat, q': nat, ss: nat, n: nat)
    requires 0 < ss && g < n && q <= q'
    ensures FileByte(g, q, ss, n) <= FileByte(g, q', ss, n)
  {
    hide RowStart, Lcn;
    LcnMono(q, q', ss);
    LcnDef(q, ss);
    LcnDef(q', ss);
    LcnStart(q, ss);
    LcnStart(q', ss);
    if q / ss < q' / ss {
      RowMono(q / ss + 1, q' / ss, n);
      RowStep(q / ss, n);
      RowMono(RowStart(q / ss, n) + g + 1, RowStart(q' / ss, n) + g, ss);
      RowStep(RowStart(q / ss, n) + g, ss);
    }
  }

  // ---------------------------------------------------------------------------------------------
  // Slices: the request [off, off + size) is cut at stripe boundaries.

  function StripeCount(off: nat, size: nat, ss: nat): (r: nat)
    requires 0 < ss && 0 < size
    ensures r > 0
  {
    LcnMono(off, off + size - 1, ss);
    Lcn(off + size - 1, ss) - Lcn(off, ss) + 1
  }

  /** `extent_offset_to_copy`, as the head / tail / middle branches compute it. */
  function SliceOffset(i: nat, off: nat, size: nat, ss: nat): int
    requires 0 < ss && 0 < size
  {
    if i == 0 then off % ss else 0
  }

  /** `extent_size_to_copy`, as the head / tail / middle branches compute it. */
  function SliceSize(i: nat, off: nat, size: nat, ss: nat): int
    requires 0 < ss && 0 < size
  {
    if i == 0 then Min(ss - off % ss, size)
    else if i == StripeCount(off, size, ss) - 1 then
      if (off + size) % ss == 0 then ss else (off + size) % ss
    else ss
  }

  /** First and one-past-last file byte that request [off, off + size) has in its `i`-th stripe. */
  function Lo(i: nat, off: nat, ss: nat): nat
    requires 0 < ss
  {
    if i == 0 then off else RowStart(Lcn(off, ss) + i, ss)
  }

  function Hi(i: nat, off: nat, size: nat, ss: nat): nat
    requires 0 < ss
  {
    Min(off + size, RowStart(Lcn(off, ss) + i + 1, ss))
  }

  /** The stripe of slice `i`, its group and its row. */
  function SliceLcn(i: nat, off: nat, ss: nat): nat
    requires 0 < ss
  {
    Lcn(off, ss) + i
  }

  function SliceGroup(i: nat, off: nat, ss: nat, n: nat): (g: nat)
    requires 0 < ss && 0 < n
    ensures g < n
  {
    LcnGroup(SliceLcn(i, off, ss), n)
  }

  function SliceRow(i: nat, off: nat, ss: nat, n: nat): nat
    requires 0 < ss && 0 < n
  {
    LcnRow(SliceLcn(i, off, ss), n)
  }

  /** The slice that serves file byte `p`. */
  function SliceIndex(p: nat, off: nat, ss: nat): int
    requires 0 < ss
  {
    Lcn(p, ss) - Lcn(off, ss)
  }

  /** Start and end of slice `i` inside the extent of its group. */
  function StartOf(i: nat, off: nat, size: nat, ss: nat, n: nat): (r: int)
    requires 0 < ss && 0 < n && 0 < size
    ensures r >= 0
  {
    RowStart(SliceRow(i, off, ss, n), ss) + SliceOffset(i, off, size, ss)
  }

  function EndOf(i: nat, off: nat, size: nat, ss: nat, n: nat): int
    requires 0 < ss && 0 < n && 0 < size
  {
    StartOf(i, off, size, ss, n) + SliceSize(i, off, size, ss)
  }

  lemma TailSize(end: nat, lcn: nat, ss: nat)
    requires 0 < ss && RowStart(lcn, ss) < end <= RowStart(lcn + 1, ss)
    ensures (if end % ss == 0 then ss else end % ss) == end - RowStart(lcn, ss)
  {
    hide RowStart;
    RowStep(lcn, ss);
    if end == RowStart(lcn + 1, ss) {
      LcnOf(end, lcn + 1, 0, ss);
    } else {
      LcnOf(end, lcn, end - RowStart(lcn, ss), ss);
    }
  }

  /** Slice `i` is exactly the part of the request that lies in its stripe; it is not empty, does not
      leave the stripe, and the slices follow one another from `off` to `off + size`. */
  lemma SliceExact(i: nat, off: nat, size: nat, ss: nat)
    requires 0 < ss && 0 < size && i < StripeCount(off, size, ss)
    ensures SliceOffset(i, off, size, ss) == Lo(i, off, ss) - RowStart(SliceLcn(i, off, ss), ss) >= 0
    ensures SliceSize(i, off, size, ss) == Hi(i, off, size, ss) - Lo(i, off, ss) > 0
    ensures SliceOffset(i, off, size, ss) + SliceSize(i, off, size, ss) <= ss
    ensures off <= Lo(i, off, ss) && Hi(i, off, size, ss) <= off + size
    ensures Hi(i, off, size, ss) ==
            if i + 1 < StripeCount(off, size, ss) then Lo(i + 1, off, ss) else off + size
  {
    hide RowStart, Lcn;
    var end := off + size;
    var lcn, last := SliceLcn(i, off, ss), Lcn(end - 1, ss);
    LcnStart(off, ss);
    LcnStart(end - 1, ss);
    RowStep(lcn, ss);
    RowMono(Lcn(off, ss), lcn, ss);
    if i > 0 {
      RowMono(Lcn(off, ss) + 1, lcn, ss);
    }
    if lcn < last {
      RowMono(lcn + 1, last, ss);
    } else {
      TailSize(end, lcn, ss);
    }
  }

  /** The copy cursor before slice `i`: the sum of the sizes of the slices before it. */
  function Cursor(i: nat, off: nat, size: nat, ss: nat): int
    requires 0 < ss && 0 < size
  {
    if i == 0 then 0 else Cursor(i - 1, off, size, ss) + SliceSize(i - 1, off, size, ss)
  }

  /** The slices total exactly the requested size, whatever the offset and alignment. */
  lemma {:induction false} CursorExact(i: nat, off: nat, size: nat, ss: nat)
    requires 0 < ss && 0 < size && i <= StripeCount(off, size, ss)
    ensures Cursor(i, off, size, ss) ==
            if i < StripeCount(off, size, ss) then Lo(i, off, ss) - off else size
  {
    hide RowStart, Lcn, SliceSize, Hi, StripeCount;
    if i > 0 {
      CursorExact(i - 1, off, size, ss);
      SliceExact(i - 1, off, size, ss);
    }
  }

  /** Every byte of the request lies in exactly the slice of its own stripe. */
  lemma SliceOf(p: nat, off: nat, size: nat, ss: nat) returns (i: nat)
    requires 0 < ss && off <= p < off + size
    ensures i == SliceIndex(p, off, ss) && i < StripeCount(off, size, ss)
    ensures Lo(i, off, ss) <= p < Hi(i, off, size, ss)
  {
    hide RowStart, Lcn;
    LcnMono(off, p, ss);
    LcnMono(p, off + size - 1, ss);
    i := SliceIndex(p, off, ss);
    LcnStart(p, ss);
  }

  /** Every byte of slice `i` lies in the slice's stripe, at the slice's start plus its distance. */
  lemma BytesOfSlice(p: nat, i: nat, off: nat, size: nat, ss: nat, n: nat)
    requires 0 < ss && 0 < size && 0 < n && i < StripeCount(off, size, ss)
    requires Lo(i, off, ss) <= p < Hi(i, off, size, ss)
    ensures SliceIndex(p, off, ss) == i && off <= p < off + size
    ensures Lcn(p, ss) == SliceLcn(i, off, ss)
    ensures Group(p, ss, n) == SliceGroup(i, off, ss, n)
    ensures Pos(p, ss, n) == StartOf(i, off, size, ss, n) + (p - Lo(i, off, ss))
  {
    hide RowStart, Lcn, SliceOffset, SliceSize, StripeCount, LcnGroup, LcnRow;
    SliceExact(i, off, size, ss);
    LcnOf(p, SliceLcn(i, off, ss), p - RowStart(SliceLcn(i, off, ss), ss), ss);
  }

  /** In the extent of its own group, slice `i` occupies exactly the positions of its file bytes; in
      any other extent it has no byte. */
  lemma SlicePositions(i: nat, g: nat, q: nat, off: nat, size: nat, ss: nat, n: nat)
    requires 0 < ss && 0 < size && g < n && i < StripeCount(off, size, ss)
    ensures var p := FileByte(g, q, ss, n);
            Lo(i, off, ss) <= p < Hi(i, off, size, ss) <==>
            SliceGroup(i, off, ss, n) == g && StartOf(i, off, size, ss, n) <= q < EndOf(i, off, size, ss, n)
    ensures var p := FileByte(g, q, ss, n);
            Lo(i, off, ss) <= p < Hi(i, off, size, ss) ==>
              p - Lo(i, off, ss) == q - StartOf(i, off, size, ss, n)
    ensures var p := FileByte(g, q, ss, n);
            Lo(i, off, ss) <= p < Hi(i, off, size, ss) <==> off <= p < off + size && SliceIndex(p, off, ss) == i
  {
    hide RowStart, Lcn, SliceOffset, SliceSize, StripeCount, LcnGroup, LcnRow, Lo, Hi, StartOf, Group, Pos, FileByte,
         SliceIndex;
    var p := FileByte(g, q, ss, n);
    PosOfFileByte(g, q, ss, n);
    SliceExact(i, off, size, ss);
    if Lo(i, off, ss) <= p < Hi(i, off, size, ss) {
      BytesOfSlice(p, i, off, size, ss, n);
    }
    if SliceGroup(i, off, ss, n) == g && StartOf(i, off, size, ss, n) <= q < EndOf(i, off, size, ss, n) {
      var p' := Lo(i, off, ss) + (q - StartOf(i, off, size, ss, n));
      BytesOfSlice(p', i, off, size, ss, n);
      FileByteOfPos(p', ss, n);
    }
    if off <= p < off + size && SliceIndex(p, off, ss) == i {
      var j := SliceOf(p, off, size, ss);
    }
  }

  // ---------------------------------------------------------------------------------------------
  // Machine arithmetic. The client computes the stripe in an `int` and takes the group and the row
  // of it unsigned; the data server computes the position in a `__u32` and keeps the result of
  // `lseek` in an `int`, treating a negative value as an error.

  datatype MachineAddress = Rejected | Address(group: nat, pos: nat)

  function StripeNumber(lcn: int, n: nat): (nat, nat)
    requires 0 < n
  {
    (U32(I32(lcn)) % n, U32(I32(lcn)) / n)
  }

  /** The seek position of the data server, or a negative value for an error. */
  function SeekResult(stripeNum: nat, inStripe: nat, ss: nat): int {
    I32(U32(U32(RowStart(stripeNum, ss)) + inStripe))
  }

  /** Where a write that starts at file byte `p` really lands. */
  function MachineMap(p: nat, ss: nat, n: nat): MachineAddress
    requires 0 < ss && 0 < n
  {
    var (g, row) := StripeNumber(Lcn(p, ss), n);
    var pos := SeekResult(row, p % ss, ss);
    if pos < 0 then Rejected else Address(g, pos)
  }

  /** The machine address is the intended one exactly for positions that fit a signed 32-bit seek. */
  lemma MachineMapExact(p: nat, ss: nat, n: nat)
    requires HFS_MIN_STRIPE_SIZE <= ss <= HFS_MAX_STRIPE_SIZE
    requires 0 < n <= HFS_MAX_STRIPE_CNT
    ensures MachineMap(p, ss, n) == Address(Group(p, ss, n), Pos(p, ss, n)) <==> Pos(p, ss, n) < TWO31
  {
    hide Lcn, RowStart, LcnRow, LcnGroup, StripeNumber, SeekResult;
    if Pos(p, ss, n) < TWO31 {
      StripeFits(Lcn(p, ss), ss, n);
      SeekExact(LcnRow(Lcn(p, ss), n), p % ss, ss);
    } else {
      var (g, row) := StripeNumber(Lcn(p, ss), n);
      SeekBounded(row, p % ss, ss);
    }
  }

  lemma SeekBounded(row: nat, inStripe: nat, ss: nat)
    ensures SeekResult(row, inStripe, ss) < TWO31
  {
    hide RowStart, U32;
  }

  lemma SeekExact(row: nat, inStripe: nat, ss: nat)
    requires RowStart(row, ss) + inStripe < TWO31
    ensures SeekResult(row, inStripe, ss) == RowStart(row, ss) + inStripe
  {
    hide RowStart;
  }

  /** A position below 2^31 bounds the stripe number well inside an `int`. */
  lemma StripeFits(lcn: nat, ss: nat, n: nat)
    requires HFS_MIN_STRIPE_SIZE <= ss && 0 < n <= HFS_MAX_STRIPE_CNT
    requires RowStart(LcnRow(lcn, n), ss) < TWO31
    ensures lcn < TWO31 && I32(lcn) == lcn
    ensures StripeNumber(lcn, n) == (LcnGroup(lcn, n), LcnRow(lcn, n))
  {
    var row := LcnRow(lcn, n);
    assert lcn < TWO31 by {
      hide LcnRow, LcnGroup;
      assert row * HFS_MIN_STRIPE_SIZE < TWO31 by { MulMono(HFS_MIN_STRIPE_SIZE, ss, row); }
      assert RowStart(row, n) <= row * HFS_MAX_STRIPE_CNT by { MulMono(n, HFS_MAX_STRIPE_CNT, row); }
      LcnParts(lcn, n);
    }
    assert U32(I32(lcn)) == lcn;
  }

  /** One past the last file byte whose whole stripe row fits: every request below it is exact. */
  function Capacity(ss: nat, n: nat): nat
    requires 0 < ss && 0 < n
  {
    RowStart(RowStart(TWO31 / ss, n), ss)
  }

  lemma BelowCapacity(p: nat, ss: nat, n: nat)
    requires 0 < ss && 0 < n && p < Capacity(ss, n)
    ensures RowStart(LcnRow(Lcn(p, ss), n) + 1, ss) <= TWO31
    ensures Pos(p, ss, n) < TWO31
  {
    hide RowStart, Lcn, LcnRow, LcnGroup;
    var rows := TWO31 / ss;
    var lcn := Lcn(p, ss);
    var row := LcnRow(lcn, n);
    LcnStart(p, ss);
    LcnParts(lcn, n);
    if rows <= row {
      RowMono(rows, row, n);
      RowMono(RowStart(rows, n), lcn, ss);
      assert false;
    }
    RowMono(row + 1, rows, ss);
    RowStep(row, ss);
    assert RowStart(rows, ss) <= TWO31 by { LcnStart(TWO31, ss); LcnDef(TWO31, ss); }
  }

  /** A whole file that its own 32-bit size field can describe is below the capacity; so is every
      offset below `n * (2^31 - ss)`. */
  lemma CapacityCovers(ss: nat, n: nat)
    requires HFS_MIN_STRIPE_SIZE <= ss <= HFS_MAX_STRIPE_SIZE
    requires HFS_MIN_STRIPE_CNT <= n <= HFS_MAX_STRIPE_CNT
    ensures TWO32 <= n * (TWO31 - ss) <= Capacity(ss, n)
  {
    var rows := TWO31 / ss;
    assert TWO31 - ss < rows * ss;
    assert n * (TWO31 - ss) <= n * (rows * ss) by { MulMono(TWO31 - ss, rows * ss, n); }
    assert n * (rows * ss) == rows * n * ss;
    MulMono(HFS_MIN_STRIPE_CNT, n, TWO31 - ss);
  }

  /** The bound is needed: just past 2^31 positions the seek is refused, and past 2^32 positions a
      write would land on an earlier row. */
  lemma MachineMapWraps()
    ensures MachineMap(3 * 0x8000_0000, 1024, 3) == Rejected
    ensures MachineMap(3 * 0x1_0000_0000, 1024, 3) == Address(0, 0) == MachineMap(0, 1024, 3)
  {
    assert Lcn(3 * 0x8000_0000, 1024) == 3 * 0x20_0000;
    assert Lcn(3 * 0x1_0000_0000, 1024) == 3 * 0x40_0000;
    assert StripeNumber(3 * 0x20_0000, 3) == (0, 0x20_0000);
    assert StripeNumber(3 * 0x40_0000, 3) == (0, 0x40_0000);
  }

  // ---------------------------------------------------------------------------------------------
  // Placement of the 2n extents of a new file on `ds` data servers.

  /** Rotate inside the group of `n`, then roll the group over all `ds` servers. */
  function Roll(a: nat, f: nat, n: nat, ds: nat): (server: nat)
    requires 0 < n <= ds
    ensures server < ds
  {
    (a % n + f) % ds
  }

  /** Server of extent `i`: extents 0..n-1 are the primaries, n..2n-1 the backups. */
  function Placed(i: nat, f: nat, n: nat, ds: nat): (server: nat)
    requires 0 < n <= ds
    ensures server < ds
  {
    var first := if i >= n then f + 1 else f;
    Roll(first + i, f, n, ds)
  }

  /** Same-copy extents never share a server. */
  lemma PlacedDistinct(j: nat, k: nat, f: nat, n: nat, ds: nat)
    requires 0 < n <= ds && j < k < n
    ensures Placed(j, f, n, ds) != Placed(k, f, n, ds)
    ensures Placed(j + n, f, n, ds) != Placed(k + n, f, n, ds)
  {
    hide Roll;
    RollDistinct(f + j, f + k, f, n, ds);
    RollDistinct(f + 1 + (j + n), f + 1 + (k + n), f, n, ds);
  }

  lemma RollDistinct(a: nat, b: nat, f: nat, n: nat, ds: nat)
    requires 0 < n <= ds && a < b < a + n
    ensures Roll(a, f, n, ds) != Roll(b, f, n, ds)
  {
    ModDistinct(a, b, n);
    if a % n < b % n {
      ModDistinct(a % n + f, b % n + f, ds);
    } else {
      ModDistinct(b % n + f, a % n + f, ds);
    }
  }

  /** The backup of group `j` sits on the primary server of the next group. */
  lemma BackupIsNextPrimary(j: nat, f: nat, n: nat, ds: nat)
    requires 0 < n <= ds && j < n
    ensures Placed(j + n, f, n, ds) == Placed(if j + 1 == n then 0 else j + 1, f, n, ds)
  {
    hide Roll;
    RollShift(f + 1 + j, f, n, ds);
    RollShift(f, f, n, ds);
  }

  lemma RollShift(a: nat, f: nat, n: nat, ds: nat)
    requires 0 < n <= ds
    ensures Roll(a + n, f, n, ds) == Roll(a, f, n, ds)
  {
    ModShift(a, n);
  }

  /** No single server holds both copies of a group. */
  lemma CopiesApart(j: nat, f: nat, n: nat, ds: nat)
    requires 2 <= n <= ds && j < n
    ensures Placed(j, f, n, ds) != Placed(j + n, f, n, ds)
  {
    hide Placed;
    BackupIsNextPrimary(j, f, n, ds);
    if j + 1 == n {
      PlacedDistinct(0, j, f, n, ds);
    } else {
      PlacedDistinct(j, j + 1, f, n, ds);
    }
  }
}
