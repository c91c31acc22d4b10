/** The client's data path: striped, mirrored writes and reads, the size of a file, and the
    allocation of the extents of a new file (hercules_client_lib.c). */
module StripedClient {
  import opened Arith
  import opened Bytes
  import opened Layout
  import opened DataServers
  import opened Stripes

  /** A queued protocol item: the index saved in the cookie, its server, its request and its reply. */
  datatype Item = Item(dataServerIdx: nat, srv: nat, req: Request, reply: Reply)

  const NO_REPLY := Reply(TransmissionFailed, [], 0)

  // ---------------------------------------------------------------------------------------------
  // Writing: item 2i is the primary copy of slice i, item 2i + 1 its backup

  function ExtentOfItem(k: nat, off: nat, ss: nat, n: nat): (e: nat)
    requires 0 < ss && 0 < n
    ensures e < 2 * n
  {
    SliceGroup(k / 2, off, ss, n) + if k % 2 == 0 then 0 else n
  }

  function CopyOf(e: nat, n: nat): nat {
    if e < n then 0 else 1
  }

  /** The slices whose copy `c` has been sent. */
  function Done(pending: set<nat>, c: nat, off: nat, size: nat, ss: nat): set<nat>
    requires 0 < ss && 0 < size
  {
    set i | i in AllSlices(off, size, ss) && 2 * i + c !in pending
  }

  /** What the copy loop leaves in the extent buffers. The guard of the copy compares the address of
      the extent buffer, not the source cursor, with the end of the user's buffer; where it fails
      nothing is copied and the slice goes out as the zeros of the fresh protocol buffer. */
  predicate CopyGuard(i: nat, off: nat, size: nat, ss: nat, bufferAddr: int, extentAddrs: seq<int>)
    requires 0 < ss && 0 < size && i < |extentAddrs|
  {
    extentAddrs[i] + SliceSize(i, off, size, ss) <= bufferAddr + size
  }

  /** Distinct live buffers do not overlap. */
  predicate Disjoint(size: nat, ss: nat, bufferAddr: int, extentAddrs: seq<int>) {
    forall i :: 0 <= i < |extentAddrs| ==>
      extentAddrs[i] + ss <= bufferAddr || bufferAddr + size <= extentAddrs[i]
  }

  /** The bytes a write really sends for the user's `data`. */
  function Effective(data: seq<byte>, off: nat, ss: nat, bufferAddr: int, extentAddrs: seq<int>): (r: seq<byte>)
    requires 0 < ss && 0 < |data| && |extentAddrs| == StripeCount(off, |data|, ss)
    ensures |r| == |data|
  {
    seq<byte>(|data|, j requires 0 <= j < |data| =>
      var i := SliceIndex(off + j, off, ss);
      if 0 <= i < |extentAddrs| && CopyGuard(i, off, |data|, ss, bufferAddr, extentAddrs) then data[j] else 0)
  }

  /** Every slice that the guard drops consists of zeros. */
  ghost predicate DroppedAreZero(data: seq<byte>, off: nat, ss: nat, bufferAddr: int, extentAddrs: seq<int>)
    requires 0 < ss && 0 < |data| && |extentAddrs| == StripeCount(off, |data|, ss)
  {
    forall i: nat :: i < |extentAddrs| && !CopyGuard(i, off, |data|, ss, bufferAddr, extentAddrs) ==>
                       ZeroSlice(SliceData(i, off, data, ss))
  }

  ghost predicate ZeroSlice(s: seq<byte>) {
    forall x :: 0 <= x < |s| ==> s[x] == 0
  }

  /** The user's bytes are the bytes sent exactly when every slice that the guard drops was zero. */
  lemma EffectiveExact(data: seq<byte>, off: nat, ss: nat, bufferAddr: int, extentAddrs: seq<int>)
    requires 0 < ss && 0 < |data| && |extentAddrs| == StripeCount(off, |data|, ss)
    ensures Effective(data, off, ss, bufferAddr, extentAddrs) == data <==>
            DroppedAreZero(data, off, ss, bufferAddr, extentAddrs)
  {
    hide SliceIndex, StripeCount, CopyGuard, ZeroSlice, SliceData;
    var eff := Effective(data, off, ss, bufferAddr, extentAddrs);
    if eff == data {
      forall i: nat | i < |extentAddrs| && !CopyGuard(i, off, |data|, ss, bufferAddr, extentAddrs)
        ensures ZeroSlice(SliceData(i, off, data, ss))
      {
        DroppedSlice(data, off, ss, bufferAddr, extentAddrs, i);
      }
    }
    if DroppedAreZero(data, off, ss, bufferAddr, extentAddrs) {
      forall j | 0 <= j < |data|
        ensures eff[j] == data[j]
      {
        EffectiveByte(data, off, ss, bufferAddr, extentAddrs, j);
      }
    }
  }

  lemma DroppedSlice(data: seq<byte>, off: nat, ss: nat, bufferAddr: int, extentAddrs: seq<int>, i: nat)
    requires 0 < ss && 0 < |data| && |extentAddrs| == StripeCount(off, |data|, ss)
    requires i < |extentAddrs| && !CopyGuard(i, off, |data|, ss, bufferAddr, extentAddrs)
    requires Effective(data, off, ss, bufferAddr, extentAddrs) == data
    ensures ZeroSlice(SliceData(i, off, data, ss))
  {
    hide SliceIndex, StripeCount, SliceSize, CopyGuard, Lo, Hi;
    SliceExact(i, off, |data|, ss);
    forall x | 0 <= x < |SliceData(i, off, data, ss)|
      ensures SliceData(i, off, data, ss)[x] == 0
    {
      BytesOfSlice(Lo(i, off, ss) + x, i, off, |data|, ss, 1);
      assert Effective(data, off, ss, bufferAddr, extentAddrs)[Lo(i, off, ss) - off + x] == 0;
    }
  }

  lemma EffectiveByte(data: seq<byte>, off: nat, ss: nat, bufferAddr: int, extentAddrs: seq<int>, j: nat)
    requires 0 < ss && j < |data| && |extentAddrs| == StripeCount(off, |data|, ss)
    requires DroppedAreZero(data, off, ss, bufferAddr, extentAddrs)
    ensures Effective(data, off, ss, bufferAddr, extentAddrs)[j] == data[j]
  {
    hide SliceIndex, StripeCount, SliceSize, CopyGuard, Lo, Hi;
    var i := SliceOf(off + j, off, |data|, ss);
    SliceExact(i, off, |data|, ss);
    if !CopyGuard(i, off, |data|, ss, bufferAddr, extentAddrs) {
      assert ZeroSlice(SliceData(i, off, data, ss));
      assert SliceData(i, off, data, ss)[off + j - Lo(i, off, ss)] == data[j];
    }
  }

  /** In particular a user buffer that lies above every extent buffer is always written faithfully. */
  lemma EffectiveAbove(data: seq<byte>, off: nat, ss: nat, bufferAddr: int, extentAddrs: seq<int>)
    requires 0 < ss && 0 < |data| && |extentAddrs| == StripeCount(off, |data|, ss)
    requires forall i :: 0 <= i < |extentAddrs| ==> extentAddrs[i] + ss <= bufferAddr
    ensures Effective(data, off, ss, bufferAddr, extentAddrs) == data
  {
    hide SliceSize, StripeCount, Effective, Lo, Hi, SliceOffset;
    forall i: nat | i < |extentAddrs|
      ensures CopyGuard(i, off, |data|, ss, bufferAddr, extentAddrs)
    {
      SliceExact(i, off, |data|, ss);
    }
    EffectiveExact(data, off, ss, bufferAddr, extentAddrs);
  }

  /** For buffers that do not overlap, the guard copies exactly the slices whose extent buffers lie below the
      user's buffer. */
  lemma GuardIsOrder(i: nat, off: nat, size: nat, ss: nat, bufferAddr: int, extentAddrs: seq<int>)
    requires 0 < ss && 0 < size && i < |extentAddrs| == StripeCount(off, size, ss)
    requires Disjoint(size, ss, bufferAddr, extentAddrs)
    ensures CopyGuard(i, off, size, ss, bufferAddr, extentAddrs) <==> extentAddrs[i] + ss <= bufferAddr
  {
    SliceExact(i, off, size, ss);
    SliceWithin(i, off, size, ss);
    hide SliceSize, StripeCount, Lo, Hi;
  }

  lemma SliceWithin(i: nat, off: nat, size: nat, ss: nat)
    requires 0 < ss && 0 < size && i < StripeCount(off, size, ss)
    ensures 0 < SliceSize(i, off, size, ss) <= size
  {
    hide StripeCount, SliceSize, SliceOffset, RowStart;
    SliceExact(i, off, size, ss);
  }

  /** A user buffer below its extent buffer loses its bytes. */
  lemma GuardLosesData()
    ensures Effective([7], 0, 1024, 4096, [8192]) == [0]
  {
    assert SliceSize(0, 0, 1, 1024) == 1;
    LostByte([7], 0, 1024, 4096, [8192], 0);
    hide Effective, StripeCount, CopyGuard;
  }

  lemma LostByte(data: seq<byte>, off: nat, ss: nat, bufferAddr: int, extentAddrs: seq<int>, j: nat)
    requires 0 < ss && j < |data| && |extentAddrs| == StripeCount(off, |data|, ss)
    requires 0 <= SliceIndex(off + j, off, ss) < |extentAddrs|
    requires !CopyGuard(SliceIndex(off + j, off, ss), off, |data|, ss, bufferAddr, extentAddrs)
    ensures Effective(data, off, ss, bufferAddr, extentAddrs)[j] == 0
  {
  }

  /** The group and the row of a stripe are determined by its number. */
  lemma MappingUnique(lcn: int, n: nat, g: nat, row: nat)
    requires g < n && RowStart(row, n) + g == U32(lcn)
    ensures (g, row) == StripeNumber(lcn, n)
  {
    assert U32(I32(lcn)) == U32(lcn);
    DivModUnique(U32(lcn), n, row, g);
  }

  function WriteRequest(k: nat, f: IAttr, off: nat, eff: seq<byte>, ss: u32): Request
    requires 0 < ss && 0 < |eff| && 0 < f.stripeCnt && |f.handles| == 2 * f.stripeCnt
    requires k / 2 < StripeCount(off, |eff|, ss)
    requires off + |eff| <= Capacity(ss, f.stripeCnt)
  {
    var i := k / 2;
    assert SliceRow(i, off, ss, f.stripeCnt) < TWO32 && 0 <= SliceOffset(i, off, |eff|, ss) < TWO32 by {
      RowFits(i, off, |eff|, ss, f.stripeCnt);
    }
    WriteStripe(f.handles[ExtentOfItem(k, off, ss, f.stripeCnt)], SliceRow(i, off, ss, f.stripeCnt),
                SliceOffset(i, off, |eff|, ss), SliceData(i, off, eff, ss))
  }

  ghost predicate WriteItem(item: Item, k: nat, f: IAttr, off: nat, eff: seq<byte>, ss: u32)
    requires 0 < ss && 0 < |eff| && 0 < f.stripeCnt && |f.handles| == |f.srvs| == 2 * f.stripeCnt
    requires off + |eff| <= Capacity(ss, f.stripeCnt)
  {
    && k / 2 < StripeCount(off, |eff|, ss)
    && item.srv == f.srvs[ExtentOfItem(k, off, ss, f.stripeCnt)]
    && item.req == WriteRequest(k, f, off, eff, ss)
  }

  /** Within the capacity, the position of every slice fits a 32-bit seek. */
  lemma RowFits(i: nat, off: nat, size: nat, ss: nat, n: nat)
    requires 0 < ss && 0 < size && 0 < n && i < StripeCount(off, size, ss)
    requires off + size <= Capacity(ss, n)
    ensures RowStart(SliceRow(i, off, ss, n) + 1, ss) <= TWO31
    ensures SliceRow(i, off, ss, n) < TWO32
    ensures 0 <= SliceOffset(i, off, size, ss) < ss
    ensures StartOf(i, off, size, ss, n) < TWO31
  {
    hide Lcn, StripeCount, SliceSize, Lo, Hi, SliceOffset, LcnRow, Capacity, RowStart;
    SliceExact(i, off, size, ss);
    var p := Lo(i, off, ss);
    BytesOfSlice(p, i, off, size, ss, n);
    BelowCapacity(p, ss, n);
    RowAtLeast(SliceRow(i, off, ss, n), ss);
  }

  lemma RowAtLeast(row: nat, ss: nat)
    requires 0 < ss
    ensures row < RowStart(row + 1, ss)
  {
    MulMono(1, ss, row + 1);
  }

  ghost predicate Untouched(st0: State, st: State, f: IAttr)
    requires |f.srvs| == |f.handles| && |st.disks| == |st0.disks|
  {
    forall s: nat, h: u32 :: s < |st.disks| && !Owns(f, s, h) ==>
      Extent(st.disks[s], h) == Extent(st0.disks[s], h) && (HasExtent(st.disks[s], h) <==> HasExtent(st0.disks[s], h))
  }

  /** No extent ever goes away. */
  ghost predicate NoneLost(st0: State, st: State)
    requires |st.disks| == |st0.disks|
  {
    forall s: nat, h: u32 :: s < |st.disks| && HasExtent(st0.disks[s], h) ==> HasExtent(st.disks[s], h)
  }

  /** What sending requests of a write to the extents of `f` leaves alone, whatever its handles are. */
  ghost predicate OnlyWrites(st0: State, st: State, f: IAttr)
    requires |f.srvs| == |f.handles|
  {
    Shape(st0, |st0.disks|) && Shape(st, |st0.disks|) && OnlyStops(st0.up, st.up) && Untouched(st0, st, f) &&
    NoneLost(st0, st)
  }

  lemma NothingWritten(st: State, f: IAttr)
    requires Shape(st, |st.disks|) && |f.srvs| == |f.handles|
    ensures OnlyWrites(st, st, f)
  {
  }

  lemma OnlyWritesStep(st0: State, st: State, st': State, f: IAttr, e: nat, ss: u32, req: Request, r: Reply)
    requires |f.srvs| == |f.handles| && e < |f.srvs| && f.srvs[e] < |st.disks| && OnlyWrites(st0, st, f)
    requires req.WriteStripe? && req.hdl == f.handles[e] && Sent(st, st', f.srvs[e], ss, req, r)
    ensures OnlyWrites(st0, st', f)
  {
    hide Extent, HasExtent, HdlToFileName, SeekResult;
    var s := f.srvs[e];
    assert Owns(f, s, req.hdl);
    if st'.up[s] {
      WriteFrame(st.disks[s], ss, req);
    }
  }

  /** The servers while the items in `pending` of a write are still to be sent. */
  ghost predicate Writing(st0: State, st: State, f: IAttr, off: nat, eff: seq<byte>, ss: u32, pending: set<nat>)
    requires Shape(st0, |st0.disks|) && WellFormed(f, |st0.disks|) && 0 < ss && 0 < |eff|
  {
    var n := f.stripeCnt;
    && Shape(st, |st0.disks|)
    && OnlyStops(st0.up, st.up)
    && Untouched(st0, st, f)
    && (forall e: nat :: e < 2 * n ==>
          && (HasExtent(st0.disks[f.srvs[e]], f.handles[e]) ==> HasExtent(st.disks[f.srvs[e]], f.handles[e]))
          && (HasExtent(st0.disks[f.srvs[e]], f.handles[e]) && st.up[f.srvs[e]] ==>
                Advanced(ExtentOf(st0, f, e), ExtentOf(st, f, e), GroupOf(e, n), off, eff, ss, n,
                         Done(pending, CopyOf(e, n), off, |eff|, ss))))
  }

  /** The effect of sending item `k`: only the extent it names can change, and only if its server is up. */
  lemma ItemEffect(st: State, st': State, f: IAttr, off: nat, eff: seq<byte>, ss: u32, k: nat, r: Reply)
    requires Shape(st, |st.disks|) && WellFormed(f, |st.disks|) && 0 < ss && 0 < |eff|
    requires off + |eff| <= Capacity(ss, f.stripeCnt) && k / 2 < StripeCount(off, |eff|, ss)
    requires Sent(st, st', f.srvs[ExtentOfItem(k, off, ss, f.stripeCnt)], ss, WriteRequest(k, f, off, eff, ss), r)
    ensures Untouched(st, st', f)
    ensures forall e: nat :: e < 2 * f.stripeCnt ==>
              (HasExtent(st'.disks[f.srvs[e]], f.handles[e]) <==> HasExtent(st.disks[f.srvs[e]], f.handles[e]))
    ensures forall e: nat :: e < 2 * f.stripeCnt && e != ExtentOfItem(k, off, ss, f.stripeCnt) ==>
              ExtentOf(st', f, e) == ExtentOf(st, f, e)
    ensures var e := ExtentOfItem(k, off, ss, f.stripeCnt);
            var start := StartOf(k / 2, off, |eff|, ss, f.stripeCnt);
            HasExtent(st.disks[f.srvs[e]], f.handles[e]) && st'.up[f.srvs[e]] ==>
              start >= 0 && ExtentOf(st', f, e) == PWrite(ExtentOf(st, f, e), start, SliceData(k / 2, off, eff, ss))
  {
    hide StripeCount, Capacity, ExtentOfItem, SliceRow, SliceOffset, SliceData, HasExtent, Extent, RowStart;
    var own := ExtentOfItem(k, off, ss, f.stripeCnt);
    var s := f.srvs[own];
    var req := WriteRequest(k, f, off, eff, ss);
    assert Owns(f, s, req.hdl);
    if st'.up[s] && HasExtent(st.disks[s], req.hdl) {
      RowFits(k / 2, off, |eff|, ss, f.stripeCnt);
      WriteEffect(st.disks[s], ss, req);
    }
  }

  lemma WritingStep(st0: State, st: State, st': State, f: IAttr, off: nat, eff: seq<byte>, ss: u32,
                    pending: set<nat>, k: nat, r: Reply)
    requires Shape(st0, |st0.disks|) && WellFormed(f, |st0.disks|) && 0 < ss && 0 < |eff|
    requires off + |eff| <= Capacity(ss, f.stripeCnt)
    requires Writing(st0, st, f, off, eff, ss, pending)
    requires k in pending && k / 2 < StripeCount(off, |eff|, ss)
    requires Sent(st, st', f.srvs[ExtentOfItem(k, off, ss, f.stripeCnt)], ss, WriteRequest(k, f, off, eff, ss), r)
    ensures Writing(st0, st', f, off, eff, ss, pending - {k})
  {
    hide StripeCount, Capacity, ExtentOfItem, WriteRequest, StartOf, SliceData, Advanced, HasExtent, ExtentOf, Done,
         Exec;
    var n := f.stripeCnt;
    ItemEffect(st, st', f, off, eff, ss, k, r);
    forall e: nat | e < 2 * n && HasExtent(st0.disks[f.srvs[e]], f.handles[e]) && st'.up[f.srvs[e]]
      ensures Advanced(ExtentOf(st0, f, e), ExtentOf(st', f, e), GroupOf(e, n), off, eff, ss, n,
                       Done(pending - {k}, CopyOf(e, n), off, |eff|, ss))
    {
      WritingExtent(ExtentOf(st0, f, e), ExtentOf(st, f, e), ExtentOf(st', f, e), e, off, eff, ss, n, pending, k);
    }
  }

  lemma WritingExtent(ext0: seq<byte>, ext: seq<byte>, ext': seq<byte>, e: nat, off: nat, eff: seq<byte>, ss: u32,
                      n: nat,
                      pending: set<nat>, k: nat)
    requires 0 < ss && 0 < |eff| && e < 2 * n && k in pending && k / 2 < StripeCount(off, |eff|, ss)
    requires Advanced(ext0, ext, GroupOf(e, n), off, eff, ss, n, Done(pending, CopyOf(e, n), off, |eff|, ss))
    requires var start := StartOf(k / 2, off, |eff|, ss, n);
             if e == ExtentOfItem(k, off, ss, n) then
                start >= 0 && ext' == PWrite(ext, start, SliceData(k / 2, off, eff, ss))
             else ext' == ext
    ensures Advanced(ext0, ext', GroupOf(e, n), off, eff, ss, n, Done(pending - {k}, CopyOf(e, n), off, |eff|, ss))
  {
    hide StripeCount, ExtentOfItem, StartOf, SliceData, Advanced, Done, SliceGroup, Capacity;
    var done := Done(pending, CopyOf(e, n), off, |eff|, ss);
    DoneStep(pending, k, CopyOf(e, n), off, |eff|, ss);
    OwnExtent(e, k, off, ss, n);
    if e == ExtentOfItem(k, off, ss, n) {
      AdvanceOwn(ext0, ext, StartOf(k / 2, off, |eff|, ss, n), GroupOf(e, n), off, eff, ss, n, done, k / 2);
    } else if CopyOf(e, n) == k % 2 {
      AdvanceOther(ext0, ext, GroupOf(e, n), off, eff, ss, n, done, k / 2);
    }
  }

  lemma OwnExtent(e: nat, k: nat, off: nat, ss: nat, n: nat)
    requires 0 < ss && e < 2 * n
    ensures e == ExtentOfItem(k, off, ss, n) <==>
            GroupOf(e, n) == SliceGroup(k / 2, off, ss, n) && CopyOf(e, n) == k % 2
  {
    hide SliceGroup;
  }

  lemma DoneStep(pending: set<nat>, k: nat, c: nat, off: nat, size: nat, ss: nat)
    requires 0 < ss && 0 < size && k in pending && c < 2 && k / 2 < StripeCount(off, size, ss)
    ensures Done(pending - {k}, c, off, size, ss) ==
            if c == k % 2 then Done(pending, c, off, size, ss) + {k / 2} else Done(pending, c, off, size, ss)
  {
    hide StripeCount;
    assert k == 2 * (k / 2) + k % 2;
  }

  /** All items sent: every live copy holds the written file, and has grown as far as the write reaches. */
  lemma WritingDone(st0: State, st: State, f: IAttr, off: nat, eff: seq<byte>, ss: u32, flat: seq<byte>, lens: seq<nat>)
    requires Shape(st0, |st0.disks|) && WellFormed(f, |st0.disks|) && 0 < ss && 0 < |eff|
    requires Writing(st0, st, f, off, eff, ss, {})
    ensures OnlyStops(st0.up, st.up) && Untouched(st0, st, f)
    ensures Mirrors(st0, f, flat, ss) ==> Mirrors(st, f, PWrite(flat, off, eff), ss)
    ensures Mirrors(st0, f, flat, ss) && Lengths(st0, f, lens) ==> Lengths(st, f, WrittenLens(lens, off, |eff|, ss))
  {
    hide Advanced, HoldsGroup, HasExtent, Extent, StripeCount, WrittenLen, PWrite, UpTo;
    var n := f.stripeCnt;
    if Mirrors(st0, f, flat, ss) {
      forall e: nat | e < 2 * n && st.up[f.srvs[e]]
        ensures HoldsGroup(ExtentOf(st, f, e), GroupOf(e, n), PWrite(flat, off, eff), ss, n)
        ensures Lengths(st0, f, lens) ==> |ExtentOf(st, f, e)| == WrittenLens(lens, off, |eff|, ss)[GroupOf(e, n)]
      {
        var ext0, ext, g := ExtentOf(st0, f, e), ExtentOf(st, f, e), GroupOf(e, n);
        assert Done({}, CopyOf(e, n), off, |eff|, ss) == AllSlices(off, |eff|, ss);
        AdvancedHolds(ext0, ext, g, off, eff, flat, ss, n);
        AdvancedReached(ext0, ext, g, off, eff, ss, n);
        ReachedUnique(|ext0|, |ext|, g, off, |eff|, ss, n);
      }
    }
  }

  lemma AdvancedReached(ext0: seq<byte>, ext: seq<byte>, g: nat, off: nat, data: seq<byte>, ss: nat, n: nat)
    requires 0 < ss && g < n && 0 < |data|
    requires Advanced(ext0, ext, g, off, data, ss, n, AllSlices(off, |data|, ss))
    ensures Reached(|ext0|, |ext|, g, off, |data|, ss, n, AllSlices(off, |data|, ss))
  {
    hide Expected, Reached, AllSlices;
  }

  // ---------------------------------------------------------------------------------------------
  // Reading: each item asks a primary copy, and its backup if the send to the primary fails

  /** The same request for another copy: only the handle differs. */
  function Retarget(req: Request, hdl: u32): Request {
    match req
    case ReadStripe(_, stripeNum, stripeCnt) => ReadStripe(hdl, stripeNum, stripeCnt)
    case WriteStripe(_, stripeNum, inStripe, data) => WriteStripe(hdl, stripeNum, inStripe, data)
    case GetLength(_) => GetLength(hdl)
    case AllocHandle => AllocHandle
  }

  /** A request that changes nothing and that a server holding the extent answers with success. */
  predicate Query(req: Request, ss: u32) {
    || (req.ReadStripe? && req.stripeCnt == 1 && RowStart(req.stripeNum, ss) < TWO31)
    || req.GetLength?
  }

  /** `r` is the answer of extent `e`, from a server that was up at `st`. */
  ghost predicate AnsweredBy(st: State, f: IAttr, ss: u32, e: nat, req: Request, r: Reply)
    requires WellFormed(f, |st.disks|) && Shape(st, |st.disks|) && e < 2 * f.stripeCnt
  {
    && st.up[f.srvs[e]]
    && r == Exec(st.disks[f.srvs[e]], ss, Retarget(req, f.handles[e])).1
    && r.status == Success
  }

  ghost predicate Answered(st: State, f: IAttr, ss: u32, g: nat, req: Request, r: Reply)
    requires WellFormed(f, |st.disks|) && Shape(st, |st.disks|) && g < f.stripeCnt
  {
    AnsweredBy(st, f, ss, g, req, r) || AnsweredBy(st, f, ss, g + f.stripeCnt, req, r)
  }

  ghost predicate AllExist(st: State, f: IAttr)
    requires WellFormed(f, |st.disks|)
  {
    forall e: nat :: e < 2 * f.stripeCnt ==> HasExtent(st.disks[f.srvs[e]], f.handles[e])
  }

  /** A queued question to the primary copy of its group. */
  predicate Asks(item: Item, f: IAttr, ss: u32)
    requires |f.srvs| == |f.handles| == 2 * f.stripeCnt
  {
    && item.dataServerIdx < f.stripeCnt && Query(item.req, ss)
    && item.srv == f.srvs[item.dataServerIdx] && item.req == Retarget(item.req, f.handles[item.dataServerIdx])
  }

  lemma AskedInRange(item: Item, f: IAttr, ss: u32)
    requires |f.srvs| == |f.handles| == 2 * f.stripeCnt && Asks(item, f, ss)
    ensures item.dataServerIdx < f.stripeCnt && Query(item.req, ss)
  {
  }

  lemma RetargetedQuery(req: Request, hdl: u32, ss: u32)
    requires Query(req, ss)
    ensures Query(Retarget(req, hdl), ss)
  {
  }

  /** All files are as they were; servers may have stopped. */
  ghost predicate SameFiles(st0: State, st: State) {
    st.disks == st0.disks && Shape(st, |st0.disks|) && OnlyStops(st0.up, st.up)
  }

  lemma NothingAsked(st: State)
    requires Shape(st, |st.disks|)
    ensures SameFiles(st, st)
  {
  }

  /** A question changes no file, whatever it is put to. */
  lemma QueryFrame(st0: State, st: State, st': State, s: nat, ss: u32, req: Request, r: Reply)
    requires SameFiles(st0, st) && s < |st.disks| && Query(req, ss) && Sent(st, st', s, ss, req, r)
    ensures SameFiles(st0, st')
  {
    hide HdlToFileName, SeekResult, RowStart;
  }

  /** A file with usable handles whose extents are all there. */
  ghost predicate Readable(st: State, f: IAttr) {
    WellFormed(f, |st.disks|) && AllExist(st, f)
  }

  lemma ReadableIs(st: State, f: IAttr)
    requires Readable(st, f)
    ensures WellFormed(f, |st.disks|) && AllExist(st, f)
  {
  }

  /** Sending a query changes no file; a live server answers, a stopped one makes the send fail. */
  lemma QuerySent(st0: State, st: State, st': State, f: IAttr, ss: u32, e: nat, req: Request, r: Reply)
    requires Shape(st0, |st0.disks|) && WellFormed(f, |st0.disks|) && AllExist(st0, f)
    requires st.disks == st0.disks && Shape(st, |st0.disks|) && OnlyStops(st0.up, st.up)
    requires e < 2 * f.stripeCnt && Query(req, ss)
    requires Sent(st, st', f.srvs[e], ss, Retarget(req, f.handles[e]), r)
    ensures st'.disks == st0.disks && OnlyStops(st0.up, st'.up)
    ensures if st'.up[f.srvs[e]] then AnsweredBy(st0, f, ss, e, req, r) else r.status == TransmissionFailed
  {
    hide RowStart, HdlToFileName, SeekResult;
    if req.ReadStripe? {
      SeekExact(req.stripeNum, 0, ss);
    }
  }

  /** What reading a stripe must deliver: the stripe of the flat file, the rest of the fresh reply
      buffer being zeros. */
  ghost predicate StripeOf(payload: seq<byte>, lcn: nat, flat: seq<byte>, ss: nat) {
    |payload| <= ss && forall x: nat :: x < ss ==> At(payload, x) == At(flat, RowStart(lcn, ss) + x)
  }

  lemma ReadAnswer(st: State, f: IAttr, flat: seq<byte>, ss: u32, lcn: nat, hdl: u32, r: Reply)
    requires Shape(st, |st.disks|) && WellFormed(f, |st.disks|) && 0 < ss && Mirrors(st, f, flat, ss)
    requires LcnRow(lcn, f.stripeCnt) < TWO32 && RowStart(LcnRow(lcn, f.stripeCnt), ss) < TWO31
    requires Answered(st, f, ss, LcnGroup(lcn, f.stripeCnt), ReadStripe(hdl, LcnRow(lcn, f.stripeCnt), 1), r)
    ensures StripeOf(r.payload, lcn, flat, ss)
  {
    hide RowStart, LcnGroup, LcnRow, HasExtent, HdlToFileName, Exec, FileByte;
    var n := f.stripeCnt;
    var g, row := LcnGroup(lcn, n), LcnRow(lcn, n);
    var e := if AnsweredBy(st, f, ss, g, ReadStripe(hdl, row, 1), r) then g else g + n;
    ReadEffect(st.disks[f.srvs[e]], ss, ReadStripe(f.handles[e], row, 1));
    forall x: nat | x < ss
      ensures At(r.payload, x) == At(flat, RowStart(lcn, ss) + x)
    {
      StripeByte(lcn, x, ss, n);
      assert At(ExtentOf(st, f, e), RowStart(row, ss) + x) == At(flat, FileByte(g, RowStart(row, ss) + x, ss, n));
    }
  }

  lemma StripeByte(lcn: nat, x: nat, ss: nat, n: nat)
    requires x < ss && 0 < n
    ensures FileByte(LcnGroup(lcn, n), RowStart(LcnRow(lcn, n), ss) + x, ss, n) == RowStart(lcn, ss) + x
  {
    hide RowStart, LcnGroup, LcnRow, Lcn;
    var q := RowStart(LcnRow(lcn, n), ss) + x;
    LcnOf(q, LcnRow(lcn, n), x, ss);
    LcnDef(q, ss);
    LcnParts(lcn, n);
  }

  lemma SizeAnswer(st: State, f: IAttr, lens: seq<nat>, ss: u32, g: nat, hdl: u32, r: Reply)
    requires Shape(st, |st.disks|) && WellFormed(f, |st.disks|) && AllExist(st, f) && Lengths(st, f, lens)
    requires g < f.stripeCnt && Answered(st, f, ss, g, GetLength(hdl), r)
    ensures r.value == U32(lens[g])
  {
    hide HdlToFileName;
    var e := if AnsweredBy(st, f, ss, g, GetLength(hdl), r) then g else g + f.stripeCnt;
    assert |ExtentOf(st, f, e)| == lens[GroupOf(e, f.stripeCnt)];
  }

  // ---------------------------------------------------------------------------------------------
  // The client

  class Client {
    const servers: seq<DataServer>
    const ss: u32

    ghost predicate Valid() {
      && HFS_MIN_STRIPE_SIZE <= ss <= HFS_MAX_STRIPE_SIZE
      && (forall i, j :: 0 <= i < j < |servers| ==> servers[i] != servers[j])
    }

    ghost function St(): (st: State)
      reads servers
      ensures Shape(st, |servers|) && Shape(st, |st.disks|)
    {
      State(seq(|servers|, i requires 0 <= i < |servers| reads servers => servers[i].up),
            seq(|servers|, i requires 0 <= i < |servers| reads servers => servers[i].files))
    }

    constructor (servers: seq<DataServer>, ss: u32)
      requires 1024 <= ss <= 32768
      requires forall i, j :: 0 <= i < j < |servers| ==> servers[i] != servers[j]
      ensures Valid() && this.servers == servers && this.ss == ss
    {
      this.servers, this.ss := servers, ss;
    }

    /** At any moment a data server may stop for good, as long as no other has. */
    method MayStop()
      requires Valid()
      modifies servers
      ensures St().disks == old(St()).disks && OnlyStops(old(St()).up, St().up)
    {
      var stops: bool := *;
      var victim: nat := *;
      if stops && 0 <= victim < |servers| && (forall i :: 0 <= i < |servers| ==> servers[i].up) {
        servers[victim].up := false;
      }
    }

    /** Queue a request on the connection of `srv` and wait for the completion of its item. */
    method Send(srv: nat, req: Request) returns (r: Reply)
      requires Valid() && srv < |servers|
      modifies servers
      ensures Sent(old(St()), St(), srv, ss, req, r)
    {
      MayStop();
      if !servers[srv].up {
        return NO_REPLY;
      }
      ghost var st := St();
      r := servers[srv].ProcessDSCMD(ss, req);
      assert St().up == st.up;
      assert St().disks == st.disks[srv := Exec(st.disks[srv], ss, req).0];
    }

    /** The group and the row of a logical stripe: counting the stripes row by row leads back to it. */
    method Raid5GetBlockMapping(lcn: int, f: IAttr) returns (dataServerIdx: nat, dataStripeOffset: nat)
      requires 0 < f.stripeCnt
      ensures dataServerIdx < f.stripeCnt
      ensures RowStart(dataStripeOffset, f.stripeCnt) + dataServerIdx == U32(lcn)
      ensures 0 <= lcn < TWO32 ==> RowStart(dataStripeOffset, f.stripeCnt) + dataServerIdx == lcn
    {
      LcnParts(U32(I32(lcn)), f.stripeCnt);
      hide RowStart;
      return U32(I32(lcn)) % f.stripeCnt, U32(I32(lcn)) / f.stripeCnt;
    }

    /** Offset and length of slice `i` inside its stripe: head, tail and middle slices. */
    method SliceBounds(i: nat, stripesNR: nat, offset: nat, size: nat) returns (inStripe: nat, len: nat)
      requires Valid() && 0 < size && i < stripesNR == StripeCount(offset, size, ss)
      ensures inStripe == SliceOffset(i, offset, size, ss)
      ensures len == SliceSize(i, offset, size, ss)
    {
      if i == 0 {
        inStripe, len := offset % ss, Min(ss - offset % ss, size);
      } else if i == stripesNR - 1 {
        inStripe, len := 0, (offset + size) % ss;
        if (offset + size) % ss == 0 {
          len := ss;
        }
      } else {
        inStripe, len := 0, ss;
      }
    }

    /** Fill the extent buffer of one slice, a fresh zeroed buffer at `extentAddr`, from its source bytes. */
    method FillExtent(source: seq<byte>, len: nat, extentAddr: int, bufferEnd: int) returns (payload: seq<byte>)
      requires |source| == len <= ss
      requires extentAddr + ss <= bufferEnd || bufferEnd <= extentAddr
      ensures payload == if extentAddr + len <= bufferEnd then source else Zeros(len)
    {
      payload := Zeros(len);
      if extentAddr + len <= bufferEnd {
        payload := source;
      } else if extentAddr < bufferEnd {
        assert false; // two live buffers would overlap
      }
    }

    /** The items of one slice, for its primary and its backup. */
    method BuildPair(i: nat, lcn: int, stripesNR: nat, cursor: nat, f: IAttr, buffer: seq<byte>, bufferAddr: int,
                     extentAddrs: seq<int>, offset: nat)
      returns (primary: Item, backup: Item, len: nat)
      requires Valid() && 0 < f.stripeCnt <= HFS_MAX_STRIPE_CNT && |f.srvs| == |f.handles| == 2 * f.stripeCnt
      requires buffer != [] && offset + |buffer| <= Capacity(ss, f.stripeCnt)
      requires i < |extentAddrs| == stripesNR == StripeCount(offset, |buffer|, ss)
      requires lcn == Lcn(offset, ss) + i && cursor == Cursor(i, offset, |buffer|, ss)
      requires Disjoint(|buffer|, ss, bufferAddr, extentAddrs)
      ensures len == SliceSize(i, offset, |buffer|, ss)
      ensures var eff := Effective(buffer, offset, ss, bufferAddr, extentAddrs);
              WriteItem(primary, 2 * i, f, offset, eff, ss) && WriteItem(backup, 2 * i + 1, f, offset, eff, ss)
    {
      hide Lcn, StripeCount, SliceSize, SliceOffset, Capacity, SliceGroup, SliceRow, SliceData, Effective, StripeNumber,
           Zeros, WriteItem, Cursor;
      var size, n := |buffer|, f.stripeCnt;
      var g, row := Raid5GetBlockMapping(lcn, f);
      MappingUnique(lcn, f.stripeCnt, g, row);
      StripeAddress(i, offset, size, ss, n);
      var inStripe, l := SliceBounds(i, stripesNR, offset, size);
      len := l;
      CursorInside(i, offset, size, ss);
      var payload := FillExtent(buffer[cursor..cursor + len], len, extentAddrs[i], bufferAddr + size);
      SliceCopied(i, buffer, offset, ss, bufferAddr, extentAddrs);
      SliceItems(i, f, offset, Effective(buffer, offset, ss, bufferAddr, extentAddrs), ss);
      primary := Item(g, f.srvs[g], WriteStripe(f.handles[g], row, inStripe, payload), NO_REPLY);
      backup := Item(g, f.srvs[g + n], WriteStripe(f.handles[g + n], row, inStripe, payload), NO_REPLY);
    }

    /** The pair of items, primary and backup, of every slice. */
    method BuildWrites(f: IAttr, buffer: seq<byte>, bufferAddr: int, extentAddrs: seq<int>, offset: nat)
      returns (items: array<Item>, bytesServiced: nat)
      requires Valid() && Addressed(f, |servers|)
      requires buffer != [] && offset + |buffer| <= Capacity(ss, f.stripeCnt)
      requires |extentAddrs| == StripeCount(offset, |buffer|, ss)
      requires Disjoint(|buffer|, ss, bufferAddr, extentAddrs)
      ensures fresh(items) && items.Length == StripeCount(offset, |buffer|, ss) * TOTAL_COPIES
      ensures bytesServiced == |buffer|
      ensures var eff := Effective(buffer, offset, ss, bufferAddr, extentAddrs);
              forall k: nat :: k < items.Length ==> WriteItem(items[k], k, f, offset, eff, ss)
    {
      hide Lcn, StripeCount, SliceSize, Lo, Capacity, Effective, WriteItem, Disjoint;
      var size, n := |buffer|, f.stripeCnt;
      ghost var eff := Effective(buffer, offset, ss, bufferAddr, extentAddrs);
      StripesInRange(offset, size, ss, n);
      var firstLogicalStripe := I32(Lcn(offset, ss));
      var lastLogicalStripe := I32(Lcn(offset + size - 1, ss));
      var stripesNR := lastLogicalStripe - firstLogicalStripe + 1;
      items := new Item[stripesNR * TOTAL_COPIES](_ => Item(0, 0, AllocHandle, NO_REPLY));
      var cursor := 0;
      for i := 0 to stripesNR
        invariant cursor == Cursor(i, offset, size, ss) >= 0
        invariant forall k: nat :: k < 2 * i ==> WriteItem(items[k], k, f, offset, eff, ss)
      {
        var primary, backup, len := BuildPair(i, firstLogicalStripe + i, stripesNR, cursor, f, buffer, bufferAddr,
                                              extentAddrs, offset);
        items[2 * i], items[2 * i + 1] := primary, backup;
        cursor := cursor + len;
      }
      CursorExact(stripesNR, offset, size, ss);
      bytesServiced := cursor;
    }

    /** The outbound workers send the items in any order; what becomes of a reply is not looked at. */
    method SendWrites(items: array<Item>, f: IAttr, offset: nat, ghost eff: seq<byte>)
      requires Valid() && Addressed(f, |servers|)
      requires eff != [] && offset + |eff| <= Capacity(ss, f.stripeCnt)
      requires items.Length == StripeCount(offset, |eff|, ss) * TOTAL_COPIES
      requires forall k: nat :: k < items.Length ==> WriteItem(items[k], k, f, offset, eff, ss)
      modifies servers
      ensures OnlyWrites(old(St()), St(), f)
      ensures WellFormed(f, |servers|) ==> Writing(old(St()), St(), f, offset, eff, ss, {})
    {
      hide StripeCount, Capacity, ExtentOfItem, Writing, Sent, WellFormed, OnlyWrites;
      ghost var st0 := St();
      var pending: set<nat> := UpTo(items.Length);
      NothingWritten(st0, f);
      if WellFormed(f, |servers|) {
        WritingStart(st0, f, offset, eff, ss, pending);
      }
      while pending != {}
        invariant pending <= UpTo(items.Length)
        invariant OnlyWrites(st0, St(), f)
        invariant WellFormed(f, |servers|) ==> Writing(st0, St(), f, offset, eff, ss, pending)
        decreases |pending|
      {
        var k :| k in pending;
        ghost var st := St();
        assert WriteItem(items[k], k, f, offset, eff, ss);
        var r := Send(items[k].srv, items[k].req);
        OnlyWritesStep(st0, st, St(), f, ExtentOfItem(k, offset, ss, f.stripeCnt), ss, items[k].req, r);
        if WellFormed(f, |servers|) {
          WritingStep(st0, st, St(), f, offset, eff, ss, pending, k, r);
        }
        pending := pending - {k};
      }
    }

    /** Both copies of every slice are sent, in any order; failures are not reported. */
    method Write(f: IAttr, buffer: seq<byte>, bufferAddr: int, extentAddrs: seq<int>, offset: nat,
                 ghost flat: seq<byte>, ghost lens: seq<nat>)
      returns (bytesServiced: nat)
      requires Valid() && Addressed(f, |servers|)
      requires offset + |buffer| <= Capacity(ss, f.stripeCnt)
      requires buffer != [] ==> |extentAddrs| == StripeCount(offset, |buffer|, ss)
      requires Disjoint(|buffer|, ss, bufferAddr, extentAddrs)
      modifies servers
      ensures bytesServiced == |buffer|
      ensures OnlyWrites(old(St()), St(), f)
      ensures buffer == [] ==> St() == old(St())
      ensures buffer != [] && WellFormed(f, |servers|) && Mirrors(old(St()), f, flat, ss) ==>
                Mirrors(St(), f, PWrite(flat, offset, Effective(buffer, offset, ss, bufferAddr, extentAddrs)), ss)
      ensures buffer != [] && WellFormed(f, |servers|) && Mirrors(old(St()), f, flat, ss) &&
              Lengths(old(St()), f, lens) ==>
                Lengths(St(), f, WrittenLens(lens, offset, |buffer|, ss))
    {
      ghost var st0 := St();
      NothingWritten(st0, f);
      if |buffer| == 0 {
        return 0;
      }
      hide Effective, StripeCount, Capacity, WriteRequest, ExtentOfItem, Writing, Mirrors, Lengths, WrittenLens,
           CopyGuard, PWrite, UpTo,
           OnlyStops, Untouched, Sent, WellFormed, OnlyWrites;
      ghost var eff := Effective(buffer, offset, ss, bufferAddr, extentAddrs);
      var items: array<Item>;
      items, bytesServiced := BuildWrites(f, buffer, bufferAddr, extentAddrs, offset);

      SendWrites(items, f, offset, eff);
      if WellFormed(f, |servers|) {
        WritingDone(st0, St(), f, offset, eff, ss, flat, lens);
      }
    }

    /** Repeat a failed request on the backup: extent `stripe_cnt` further on in the inode. Only the
        server and the handle of the request change. */
    method DegradedDSRequest(item: Item, f: IAttr) returns (retried: Item)
      requires Valid() && Addressed(f, |servers|) && item.dataServerIdx < f.stripeCnt
      modifies servers
      ensures var backupIdx := item.dataServerIdx + f.stripeCnt;
              && retried == Item(item.dataServerIdx, f.srvs[backupIdx], Retarget(item.req, f.handles[backupIdx]),
                                 retried.reply)
              && Sent(old(St()), St(), retried.srv, ss, retried.req, retried.reply)
    {
      var backupIdx := item.dataServerIdx + f.stripeCnt;
      retried := item.(srv := f.srvs[backupIdx], req := Retarget(item.req, f.handles[backupIdx]));
      var r := Send(retried.srv, retried.req);
      retried := retried.(reply := r);
    }

    /** Queue every item, in any order, wait for all of them, then repeat the failed ones on their
        backups. If at most one server is ever down, every item ends with an answer of a live copy. */
    method QueryAll(items: array<Item>, f: IAttr)
      requires Valid() && Addressed(f, |servers|)
      requires forall k :: 0 <= k < items.Length ==> Asks(items[k], f, ss)
      modifies items, servers
      ensures forall k :: 0 <= k < items.Length ==> items[k].dataServerIdx == old(items[k]).dataServerIdx < f.stripeCnt
      ensures SameFiles(old(St()), St())
      ensures Readable(old(St()), f) && AtMostOneDown(old(St()).up) ==>
                forall k :: 0 <= k < items.Length ==>
                  items[k].reply.status == Success &&
                  Answered(old(St()), f, ss, items[k].dataServerIdx, old(items[k]).req, items[k].reply)
    {
      hide HdlToFileName, Exec, RowStart, AnsweredBy, Answered, Sent, Readable, Retrying, FirstReply, SameFiles,
           AtMostOneDown, WellFormed;
      ghost var st0 := St();
      ghost var asked := items[..];
      SendQueries(items, f);
      if Readable(st0, f) {
        ReadableIs(st0, f);
        RetryStart(st0, St(), f, ss, items[..], asked);
      }
      for i := 0 to items.Length
        invariant forall k :: 0 <= k < items.Length ==> items[k].dataServerIdx == asked[k].dataServerIdx < f.stripeCnt
        invariant forall k :: i <= k < items.Length ==> items[k].req == asked[k].req
        invariant SameFiles(st0, St())
        invariant Readable(st0, f) ==> WellFormed(f, |servers|) && Retrying(st0, St(), f, ss, items[..], asked, i)
      {
        hide Query, Retarget, Asks, Retried, Addressed;
        ghost var st, before := St(), items[..];
        assert Asks(asked[i], f, ss);
        AddressedIs(f, |servers|);
        AskedInRange(asked[i], f, ss);
        items[i] := RetryItem(items[i], f, st0);
        if Readable(st0, f) {
          ReadableIs(st0, f);
          RetryStep(st0, st, St(), f, ss, before, items[..], asked, i);
        }
      }
      if Readable(st0, f) {
        ReadableIs(st0, f);
        RetryDone(st0, St(), f, ss, items[..], asked);
      }
    }

    /** The repetition, if the first answer was not a success. */
    method RetryItem(item: Item, f: IAttr, ghost st0: State) returns (item': Item)
      requires Valid() && Addressed(f, |servers|) && item.dataServerIdx < f.stripeCnt && Query(item.req, ss)
      requires SameFiles(st0, St())
      modifies servers
      ensures SameFiles(st0, St()) && item'.dataServerIdx == item.dataServerIdx
      ensures Retried(old(St()), St(), f, ss, item, item')
    {
      hide HdlToFileName, Exec, RowStart, Query, Retarget, Sent, SameFiles;
      item' := item;
      if item.reply.status != Success {
        ghost var st := St();
        item' := DegradedDSRequest(item, f);
        RetargetedQuery(item.req, f.handles[item.dataServerIdx + f.stripeCnt], ss);
        QueryFrame(st0, st, St(), item'.srv, ss, item'.req, item'.reply);
      }
    }

    /** First round of the queries. */
    method SendQueries(items: array<Item>, f: IAttr)
      requires Valid() && Addressed(f, |servers|)
      requires forall k :: 0 <= k < items.Length ==> Asks(items[k], f, ss)
      modifies items, servers
      ensures forall k :: 0 <= k < items.Length ==>
                items[k].dataServerIdx == old(items[k]).dataServerIdx < f.stripeCnt && items[k].req == old(items[k]).req
      ensures SameFiles(old(St()), St())
      ensures Readable(old(St()), f) ==>
                forall k :: 0 <= k < items.Length ==> FirstReply(old(St()), St(), f, ss, items[k], items[k].req)
    {
      hide HdlToFileName, Exec, RowStart, Query, Readable, SameFiles, WellFormed;
      ghost var st0 := St();
      ghost var asked := items[..];
      var pending: set<nat> := UpTo(items.Length);
      NothingAsked(st0);
      if Readable(st0, f) {
        ReadableIs(st0, f);
      }
      while pending != {}
        invariant pending <= UpTo(items.Length)
        invariant forall k :: 0 <= k < items.Length ==>
                    items[k] == asked[k].(reply := items[k].reply) && items[k].dataServerIdx < f.stripeCnt
        invariant SameFiles(st0, St())
        invariant Readable(st0, f) ==>
                    WellFormed(f, |servers|) &&
                    forall k: nat :: k < items.Length && k !in pending ==>
                    FirstReply(st0, St(), f, ss, items[k], items[k].req)
        decreases |pending|
      {
        var k :| k in pending;
        ghost var st, before := St(), items[..];
        assert Asks(asked[k], f, ss);
        var r := Send(items[k].srv, items[k].req);
        QueryFrame(st0, st, St(), items[k].srv, ss, items[k].req, r);
        items[k] := items[k].(reply := r);
        if Readable(st0, f) {
          ReadableIs(st0, f);
          FirstRound(st0, st, St(), f, ss, asked[k], r);
          forall j: nat | j < items.Length && j !in pending - {k}
            ensures FirstReply(st0, St(), f, ss, items[j], items[j].req)
          {
            if j != k {
              StaysAnswered(st0, st, St(), f, ss, items[j]);
            }
          }
        }
        pending := pending - {k};
      }
    }

    /** One read item, of one whole stripe, for every stripe that the request touches. */
    method BuildReads(f: IAttr, offset: nat, size: nat) returns (items: array<Item>)
      requires Valid() && Addressed(f, |servers|)
      requires 0 < size && offset + size <= Capacity(ss, f.stripeCnt)
      ensures fresh(items) && items.Length == StripeCount(offset, size, ss)
      ensures forall i: nat :: i < items.Length ==> ReadItem(items[i], i, f, offset, size, ss)
    {
      hide Lcn, StripeCount, Capacity, SliceGroup, SliceRow, SliceOffset, StartOf, StripeNumber, RowStart;
      var n := f.stripeCnt;
      StripesInRange(offset, size, ss, n);
      var firstLogicalStripe := I32(Lcn(offset, ss));
      var lastLogicalStripe := I32(Lcn(offset + size - 1, ss));
      var stripesNR := lastLogicalStripe - firstLogicalStripe + 1;
      items := new Item[stripesNR](_ => Item(0, 0, AllocHandle, NO_REPLY));
      for i := 0 to stripesNR
        invariant forall k: nat :: k < i ==> ReadItem(items[k], k, f, offset, size, ss)
      {
        var g, row := Raid5GetBlockMapping(firstLogicalStripe + i, f);
        MappingUnique(firstLogicalStripe + i, f.stripeCnt, g, row);
        StripeAddress(i, offset, size, ss, n);
        RowFits(i, offset, size, ss, n);
        RowStep(row, ss);
        items[i] := Item(g, f.srvs[g], ReadStripe(f.handles[g], row, 1), NO_REPLY);
      }
    }

    /** `memcpy` of `len` bytes from position `from` of a zero-filled reply buffer. */
    method CopyOut(buffer: array<byte>, at: nat, payload: seq<byte>, from: nat, len: nat)
      requires at + len <= buffer.Length
      modifies buffer
      ensures forall j :: 0 <= j < buffer.Length ==>
                buffer[j] == if at <= j < at + len then At(payload, from + (j - at)) else old(buffer[j])
    {
      for x := 0 to len
        invariant forall j :: 0 <= j < buffer.Length ==>
                    buffer[j] == if at <= j < at + x then At(payload, from + (j - at)) else old(buffer[j])
      {
        buffer[at + x] := At(payload, from + x);
      }
    }

    /** Read `size` bytes of the file at `offset` into the front of `buffer`. */
    method Read(f: IAttr, buffer: array<byte>, offset: nat, size: nat, ghost flat: seq<byte>)
      returns (bytesServiced: nat)
      requires Valid() && Addressed(f, |servers|)
      requires size <= buffer.Length && offset + size <= Capacity(ss, f.stripeCnt)
      modifies buffer, servers
      ensures bytesServiced == size
      ensures buffer[size..] == old(buffer[size..])
      ensures SameFiles(old(St()), St())
      ensures WellFormed(f, |servers|) && Mirrors(old(St()), f, flat, ss) && AtMostOneDown(old(St()).up) ==>
                buffer[..size] == Window(flat, offset, size)
    {
      hide Lcn, StripeCount, Capacity, SliceSize, SliceOffset, Lo, Hi, Mirrors, AtMostOneDown, Answered, AllExist,
           SameFiles,
           WellFormed, Asks;
      ghost var st0 := St();
      NothingAsked(st0);
      if size == 0 {
        return 0;
      }
      ghost var good := WellFormed(f, |servers|) && Mirrors(st0, f, flat, ss) && AtMostOneDown(st0.up);
      var items := BuildReads(f, offset, size);
      ghost var asked := items[..];
      ItemsAreQueries(asked, f, offset, size, ss);
      QueryAll(items, f);
      if good {
        MirrorsExist(st0, f, flat, ss);
        ReadReplies(st0, f, flat, ss, offset, size, asked, items[..]);
      }

      bytesServiced := CopySlices(items, buffer, offset, size, flat, good);
    }

    /** Copy the slice of every item that was answered into the user's buffer. */
    method CopySlices(items: array<Item>, buffer: array<byte>, offset: nat, size: nat, ghost flat: seq<byte>,
                      ghost good: bool)
      returns (bytesServiced: nat)
      requires Valid() && 0 < size <= buffer.Length && items.Length == StripeCount(offset, size, ss)
      requires good ==> forall i: nat :: i < items.Length ==>
                 items[i].reply.status == Success && StripeOf(items[i].reply.payload, SliceLcn(i, offset, ss), flat, ss)
      modifies buffer
      ensures bytesServiced == size
      ensures forall j :: size <= j < buffer.Length ==> buffer[j] == old(buffer[j])
      ensures good ==> forall j :: 0 <= j < size ==> buffer[j] == At(flat, offset + j)
    {
      hide Lcn, StripeCount, SliceSize, SliceOffset, Lo, Hi, SliceLcn, StripeOf, Zeros;
      var stripesNR := items.Length;
      var cursor := 0;
      for i := 0 to stripesNR
        invariant cursor == Cursor(i, offset, size, ss) <= size
        invariant forall j :: size <= j < buffer.Length ==> buffer[j] == old(buffer[j])
        invariant good ==> forall j :: 0 <= j < cursor ==> buffer[j] == At(flat, offset + j)
      {
        var inStripe, len := SliceBounds(i, stripesNR, offset, size);
        CursorInside(i, offset, size, ss);
        if items[i].reply.status == Success {
          if cursor + len <= size {
            var payload := items[i].reply.payload;
            CopyOut(buffer, cursor, payload, inStripe, len);
            if good {
              forall j | cursor <= j < cursor + len
                ensures buffer[j] == At(flat, offset + j)
              {
                ReadByte(payload, i, offset, size, ss, flat, j);
              }
            }
          } else {
            assert false; // "Read logic bug"
          }
        }
        cursor := cursor + len;
      }
      CursorExact(stripesNR, offset, size, ss);
      bytesServiced := cursor;
    }

    /** The size of a file: the extent lengths of its groups, added up in 32 bits. */
    method GetISize(f: IAttr, ghost lens: seq<nat>) returns (size: u32)
      requires Valid() && Addressed(f, |servers|)
      modifies servers
      ensures SameFiles(old(St()), St())
      ensures Readable(old(St()), f) && AtMostOneDown(old(St()).up) && Lengths(old(St()), f, lens) ==>
                size == U32(Sum(lens))
    {
      hide AllExist, AtMostOneDown, Lengths, SameFiles, Answered, WellFormed;
      ghost var good := Readable(St(), f) && AtMostOneDown(St().up) && Lengths(St(), f, lens);
      ghost var st0 := St();
      var n := f.stripeCnt;
      var items := new Item[n](_ => Item(0, 0, AllocHandle, NO_REPLY));
      for i := 0 to n
        modifies items
        invariant forall k: nat :: k < i ==> items[k] == Item(k, f.srvs[k], GetLength(f.handles[k]), NO_REPLY)
      {
        items[i] := Item(i, f.srvs[i], GetLength(f.handles[i]), NO_REPLY);
      }
      ghost var asked := items[..];
      QueryAll(items, f);
      if good {
        SizeReplies(st0, f, lens, ss, asked, items[..]);
      }
      size := AddUp(items[..], lens, good);
    }

    /** Sum of the extent sizes of the items that succeeded. */
    method AddUp(items: seq<Item>, ghost lens: seq<nat>, ghost good: bool) returns (size: u32)
      requires good ==> |lens| == |items| && forall k :: 0 <= k < |items| ==>
                 items[k].reply.status == Success && items[k].reply.value == U32(lens[k])
      ensures good ==> size == U32(Sum(lens))
    {
      hide U32;
      size := 0;
      assert Sum(lens[..0]) == 0;
      U32Small(0);
      for i := 0 to |items|
        invariant good ==> size == U32(Sum(lens[..i]))
      {
        if good {
          assert lens[..i + 1][..i] == lens[..i];
          U32Add(Sum(lens[..i]), lens[i]);
        }
        if items[i].reply.status == Success {
          size := U32(size + items[i].reply.value);
        }
      }
      if good {
        assert lens[..|items|] == lens;
      }
    }

    /** Allocate the two copies of every stripe group of a new file; `r` is the random number that
        picks the first server. */
    method CreateAllocDataHandle(r: nat) returns (status: Status, attr: IAttr)
      requires Valid()
      modifies servers
      ensures OnlyStops(old(St()).up, St().up) && Kept(old(St()), St())
      ensures |servers| < 3 ==> status == ConfigError && St() == old(St())
      ensures status == Success ==>
                3 <= attr.stripeCnt == Min(|servers|, 16) &&
                |attr.handles| == 2 * attr.stripeCnt && SpreadOver(attr.srvs, attr.stripeCnt, |servers|)
      ensures status == Success ==> Addressed(attr, |servers|) && FreshCopies(old(St()), St(), attr)
      ensures status == Success && HFS_INVALID_HANDLE !in attr.handles ==>
                WellFormed(attr, |servers|) && FreshFile(old(St()), St(), attr)
      ensures |servers| >= 3 && status != Success ==>
                status == TransmissionFailed && exists s :: 0 <= s < |servers| && !St().up[s]
      ensures status == Success ==>
                (HFS_INVALID_HANDLE in attr.handles <==>
                   exists j :: 0 <= j < attr.stripeCnt && !FreeNext(old(St()).disks[attr.srvs[j]], 2))
      ensures Drawn(old(St()), St(), 2)
      ensures status == Success ==> RolledOver(attr.srvs, attr.stripeCnt, |servers|, r % |servers|)
      ensures status == Success ==>
                forall k :: 0 <= k < |attr.srvs| ==> attr.srvs[k] == Placed(k, r % |servers|, attr.stripeCnt, |servers|)
    {
      hide SpreadOver, RolledOver, AllSupplied, Placed, Kept, OnlyStops, Allocating, WellFormed, FreshFile, Addressed,
           FreshCopies;
      attr := IAttr(0, [], []);
      ghost var st0 := St();
      NothingHappened(st0);
      var ds := |servers|;
      if ds < HFS_MIN_STRIPE_CNT {
        NothingDrawn(st0, st0, TOTAL_COPIES);
        return ConfigError, attr;
      }
      var n := ds;
      if n > HFS_MAX_STRIPE_CNT {
        n := HFS_MAX_STRIPE_CNT;
      }
      var srvs := PlaceExtents(r % ds, n);
      SpreadServers(srvs, n, ds);
      var replies := SendAllocs(srvs);
      AllocatingKeeps(st0, St(), srvs, replies);
      SuppliedDone(st0, St(), srvs, replies, n);
      hide Supplied, Drawn, Allocated, Decided, FreeNext;
      var handles: seq<u32> := [];
      for i := 0 to n * TOTAL_COPIES
        modifies {}
        invariant |handles| == i
        invariant forall k :: 0 <= k < i ==> replies[k].status == Success && replies[k].value == handles[k]
      {
        if replies[i].status != Success {
          status := replies[i].status;
          return;
        }
        handles := handles + [replies[i].value];
      }
      status, attr := Success, IAttr(n, srvs, handles);
      AllocVerdict(st0, St(), srvs, replies, n);
      ZeroHandle(replies, handles);
      AllocatedCopies(st0, St(), attr, replies);
      if HFS_INVALID_HANDLE !in handles {
        AllocatedFile(st0, St(), attr, replies, ds);
      }
    }

    /** Groups like [0 1 2] [1 2 0], rolled over all the data servers. */
    method PlaceExtents(firstDataServerFixed: nat, n: nat) returns (srvs: seq<nat>)
      requires Valid() && HFS_MIN_STRIPE_CNT <= n <= |servers|
      ensures SpreadOver(srvs, n, |servers|) && RolledOver(srvs, n, |servers|, firstDataServerFixed)
      ensures forall k :: 0 <= k < |srvs| ==> srvs[k] == Placed(k, firstDataServerFixed, n, |servers|)
    {
      hide SpreadOver, RolledOver;
      var ds := |servers|;
      var firstDataServer := firstDataServerFixed;
      srvs := [];
      for i := 0 to n * TOTAL_COPIES
        invariant firstDataServer == firstDataServerFixed + if i > n then 1 else 0
        invariant |srvs| == i && forall k :: 0 <= k < i ==> srvs[k] == Placed(k, firstDataServerFixed, n, ds)
      {
        if i == n {
          firstDataServer := firstDataServer + 1;
        }
        var serverId := (firstDataServer + i) % n;
        serverId := serverId + firstDataServerFixed;
        serverId := serverId % ds;
        srvs := srvs + [serverId];
      }
      PlacedSpread(srvs, firstDataServerFixed, n, ds);
      PlacedRolls(srvs, firstDataServerFixed, n, ds);
    }

    /** The allocation requests reach their servers in any order. */
    method SendAllocs(srvs: seq<nat>) returns (replies: seq<Reply>)
      requires Valid() && forall k :: 0 <= k < |srvs| ==> srvs[k] < |servers|
      modifies servers
      ensures |replies| == |srvs| && Allocating(old(St()), St(), srvs, replies, {})
      ensures Supplied(old(St()), St(), srvs, replies, {})
      ensures forall s: nat :: s < |servers| ==> Decided(old(St()), St(), srvs, replies, {}, s)
    {
      hide Sent, HdlToFileName, Exec, OnlyStops;
      replies := seq(|srvs|, _ => NO_REPLY);
      ghost var st0 := St();
      var pending: set<nat> := UpTo(|srvs|);
      NothingAllocated(st0, srvs, replies, pending);
      assert |pending| == |srvs| by { UpToSize(|srvs|); }
      forall s: nat | s < |servers|
        ensures Decided(st0, st0, srvs, replies, pending, s)
      {
        assert Answers(srvs, replies, pending, s, true);
      }
      while pending != {}
        invariant pending <= UpTo(|srvs|) && |replies| == |srvs|
        invariant Allocating(st0, St(), srvs, replies, pending)
        invariant Supplied(st0, St(), srvs, replies, pending)
        invariant forall s: nat :: s < |servers| ==> Decided(st0, St(), srvs, replies, pending, s)
        decreases |pending|
      {
        hide Allocating, Supplied, Decided;
        var k :| k in pending;
        ghost var st, before := St(), replies;
        var r := Send(srvs[k], AllocHandle);
        replies := replies[k := r];
        AllocStep(st0, st, St(), srvs, before, pending, k, r);
        SupplyStep(st0, st, St(), srvs, before, pending, k, r);
        forall s: nat | s < |servers|
          ensures Decided(st0, St(), srvs, replies, pending - {k}, s)
        {
          DecidedStep(st0, st, St(), srvs, before, pending, k, r, s);
        }
        pending := pending - {k};
      }
    }
  }

  /** Extents that existed are still there, with the same bytes. */
  ghost predicate Kept(st0: State, st: State)
    requires Shape(st0, |st0.disks|)
  {
    && Shape(st, |st0.disks|)
    && forall s: nat, h: u32 :: s < |st0.disks| && h != HFS_INVALID_HANDLE && HasExtent(st0.disks[s], h) ==>
         HasExtent(st.disks[s], h) && Extent(st.disks[s], h) == Extent(st0.disks[s], h)
  }

  /** The extents of `f` did not exist at `st0`; they exist and are empty at `st`. */
  ghost predicate FreshFile(st0: State, st: State, f: IAttr)
    requires Shape(st0, |st0.disks|) && WellFormed(f, |st0.disks|) && Shape(st, |st0.disks|)
  {
    forall e: nat :: e < 2 * f.stripeCnt ==>
      && !HasExtent(st0.disks[f.srvs[e]], f.handles[e])
      && HasExtent(st.disks[f.srvs[e]], f.handles[e])
      && ExtentOf(st, f, e) == []
  }

  /** The same of those copies that have got a handle of their own. */
  ghost predicate FreshCopies(st0: State, st: State, f: IAttr)
    requires Shape(st0, |st0.disks|) && Addressed(f, |st0.disks|) && Shape(st, |st0.disks|)
  {
    forall e: nat :: e < 2 * f.stripeCnt && f.handles[e] != HFS_INVALID_HANDLE ==>
      !HasExtent(st0.disks[f.srvs[e]], f.handles[e]) && HasExtent(st.disks[f.srvs[e]], f.handles[e])
  }

  function Primary(srvs: seq<nat>, n: nat, j: nat): nat
    requires j < n && |srvs| == 2 * n
  {
    srvs[j]
  }

  function Backup(srvs: seq<nat>, n: nat, j: nat): nat
    requires j < n && |srvs| == 2 * n
  {
    srvs[n + j]
  }

  /** The primaries of all groups are on different servers, so are the backups, and the backup of a
      group is on the primary server of the next group: losing one server loses no group. */
  ghost predicate SpreadOver(srvs: seq<nat>, n: nat, ds: nat) {
    && |srvs| == 2 * n
    && (forall k :: 0 <= k < 2 * n ==> srvs[k] < ds)
    && (forall j: nat, k: nat :: j < k < n ==> Primary(srvs, n, j) != Primary(srvs, n, k))
    && (forall j: nat, k: nat :: j < k < n ==> Backup(srvs, n, j) != Backup(srvs, n, k))
    && (forall j: nat :: j < n ==> Backup(srvs, n, j) == Primary(srvs, n, if j + 1 == n then 0 else j + 1))
    && (forall j: nat :: j < n ==> Backup(srvs, n, j) != Primary(srvs, n, j))
  }

  /** The servers of the primaries are the `n` servers from `f` on, cyclically over all of them. Group 0 is on
      the one at distance `f % n` from `f`, and each next group on the next of these servers, cyclically. */
  ghost predicate RolledOver(srvs: seq<nat>, n: nat, ds: nat, f: nat) {
    && 0 < n <= ds && |srvs| == 2 * n
    && (forall x :: x in srvs[..n] <==> exists k: nat :: k < n && x == ServerFrom(f, k, ds))
    && srvs[0] == ServerFrom(f, f % n, ds)
    && (forall g: nat, k: nat :: g + 1 < n && k < n && srvs[g] == ServerFrom(f, k, ds) ==>
          srvs[g + 1] == ServerFrom(f, if k + 1 == n then 0 else k + 1, ds))
  }

  /** The server at this distance from `f`. */
  function ServerFrom(f: nat, k: nat, ds: nat): nat
    requires 0 < ds
  {
    (f + k) % ds
  }

  /** Where each group has its primary. */
  predicate OnTheRing(srvs: seq<nat>, n: nat, ds: nat, f: nat)
    requires 0 < n <= |srvs| && 0 < ds
  {
    forall g: nat :: g < n ==> srvs[g] == ServerFrom(f, (f + g) % n, ds)
  }

  lemma PlacedRolls(srvs: seq<nat>, f: nat, n: nat, ds: nat)
    requires 0 < n <= ds && |srvs| == 2 * n
    requires forall k :: 0 <= k < 2 * n ==> srvs[k] == Placed(k, f, n, ds)
    ensures RolledOver(srvs, n, ds, f)
  {
    hide Placed, ServerFrom;
    forall g: nat | g < n
      ensures srvs[g] == ServerFrom(f, (f + g) % n, ds)
    {
      PlacedAt(g, f, n, ds);
    }
    assert srvs[0] == ServerFrom(f, f % n, ds);
    RingMembers(srvs, f, n, ds);
    hide OnTheRing;
    forall g: nat, k: nat | g + 1 < n && k < n && srvs[g] == ServerFrom(f, k, ds)
      ensures srvs[g + 1] == ServerFrom(f, if k + 1 == n then 0 else k + 1, ds)
    {
      NextOnRing(srvs, f, n, ds, g, k);
    }
  }

  lemma RingMembers(srvs: seq<nat>, f: nat, n: nat, ds: nat)
    requires 0 < n <= ds && |srvs| == 2 * n && OnTheRing(srvs, n, ds, f)
    ensures forall x :: x in srvs[..n] <==> exists k: nat :: k < n && x == ServerFrom(f, k, ds)
  {
    hide ServerFrom;
    var primaries := srvs[..n];
    forall x | x in primaries
      ensures exists k: nat :: k < n && x == ServerFrom(f, k, ds)
    {
      var g: nat :| g < n && x == primaries[g];
      assert srvs[g] == ServerFrom(f, (f + g) % n, ds);
    }
    forall k: nat | k < n
      ensures ServerFrom(f, k, ds) in primaries
    {
      var g := GroupAt(f, k, n);
      assert primaries[g] == ServerFrom(f, k, ds);
    }
  }

  lemma NextOnRing(srvs: seq<nat>, f: nat, n: nat, ds: nat, g: nat, k: nat)
    requires 0 < n <= ds && |srvs| == 2 * n && OnTheRing(srvs, n, ds, f)
    requires g + 1 < n && k < n && srvs[g] == ServerFrom(f, k, ds)
    ensures srvs[g + 1] == ServerFrom(f, if k + 1 == n then 0 else k + 1, ds)
  {
    OneDistance(f, (f + g) % n, k, n, ds);
    NextRemainder(f + g, n);
    hide ServerFrom;
    assert srvs[g + 1] == ServerFrom(f, (f + (g + 1)) % n, ds);
  }

  lemma PlacedAt(g: nat, f: nat, n: nat, ds: nat)
    requires g < n <= ds
    ensures Placed(g, f, n, ds) == ServerFrom(f, (f + g) % n, ds)
  {
  }

  /** The group whose primary is at this distance. */
  lemma GroupAt(f: nat, k: nat, n: nat) returns (g: nat)
    requires k < n
    ensures g < n && (f + g) % n == k
  {
    var m := f % n;
    g := if m <= k then k - m else k + n - m;
    assert f == f / n * n + m;
    if m <= k {
      DivModUnique(f + g, n, f / n, k);
    } else {
      assert f + g == (f / n + 1) * n + k;
      DivModUnique(f + g, n, f / n + 1, k);
    }
  }

  lemma OneDistance(f: nat, j: nat, k: nat, n: nat, ds: nat)
    requires j < n && k < n <= ds && ServerFrom(f, j, ds) == ServerFrom(f, k, ds)
    ensures j == k
  {
    if j < k {
      ModDistinct(f + j, f + k, ds);
    } else if k < j {
      ModDistinct(f + k, f + j, ds);
    }
  }

  lemma NextRemainder(a: nat, n: nat)
    requires 0 < n
    ensures (a + 1) % n == if a % n + 1 == n then 0 else a % n + 1
  {
    var (q, r) := (a / n, a % n);
    assert a == q * n + r;
    if r + 1 == n {
      assert a + 1 == (q + 1) * n;
      DivModUnique(a + 1, n, q + 1, 0);
    } else {
      DivModUnique(a + 1, n, q, r + 1);
    }
  }

  lemma PlacedSpread(srvs: seq<nat>, first: nat, n: nat, ds: nat)
    requires HFS_MIN_STRIPE_CNT <= n <= ds && |srvs| == 2 * n
    requires forall k :: 0 <= k < 2 * n ==> srvs[k] == Placed(k, first, n, ds)
    ensures SpreadOver(srvs, n, ds)
  {
    hide Placed;
    forall k | 0 <= k < 2 * n
      ensures srvs[k] < ds
    {
      PlacedInRange(k, first, n, ds);
    }
    forall j: nat, k: nat | j < k < n
      ensures Primary(srvs, n, j) != Primary(srvs, n, k) && Backup(srvs, n, j) != Backup(srvs, n, k)
    {
      PlacedDistinct(j, k, first, n, ds);
    }
    forall j: nat | j < n
      ensures Backup(srvs, n, j) == Primary(srvs, n, if j + 1 == n then 0 else j + 1)
      ensures Backup(srvs, n, j) != Primary(srvs, n, j)
    {
      BackupIsNextPrimary(j, first, n, ds);
      CopiesApart(j, first, n, ds);
    }
  }

  lemma SpreadServers(srvs: seq<nat>, n: nat, ds: nat)
    requires SpreadOver(srvs, n, ds)
    ensures |srvs| == 2 * n && forall k :: 0 <= k < |srvs| ==> srvs[k] < ds
    ensures forall g :: 0 <= g < n ==> srvs[g] != srvs[g + n]
  {
    forall g | 0 <= g < n
      ensures srvs[g] != srvs[g + n]
    {
      assert Backup(srvs, n, g) != Primary(srvs, n, g);
    }
  }

  lemma NothingHappened(st: State)
    requires Shape(st, |st.disks|)
    ensures OnlyStops(st.up, st.up) && Kept(st, st)
  {
  }

  lemma PlacedInRange(k: nat, first: nat, n: nat, ds: nat)
    requires 0 < n <= ds
    ensures Placed(k, first, n, ds) < ds
  {
  }

  /** The servers while the allocations in `pending` are still to be sent. */
  ghost predicate Allocating(st0: State, st: State, srvs: seq<nat>, replies: seq<Reply>, pending: set<nat>)
    requires Shape(st0, |st0.disks|) && |replies| == |srvs|
    requires forall k :: 0 <= k < |srvs| ==> srvs[k] < |st0.disks|
  {
    && Shape(st, |st0.disks|) && OnlyStops(st0.up, st.up) && Kept(st0, st)
    && (forall k: nat :: k < |srvs| && k !in pending && Allocated(replies[k]) ==>
          && !HasExtent(st0.disks[srvs[k]], replies[k].value)
          && HasExtent(st.disks[srvs[k]], replies[k].value)
          && Extent(st.disks[srvs[k]], replies[k].value) == [])
    && (forall j: nat, k: nat ::
          j < k < |srvs| && j !in pending && k !in pending && Allocated(replies[j]) && Allocated(replies[k]) ==>
            srvs[j] != srvs[k] || replies[j].value != replies[k].value)
  }

  lemma AllocatingKeeps(st0: State, st: State, srvs: seq<nat>, replies: seq<Reply>)
    requires Shape(st0, |st0.disks|) && |replies| == |srvs|
    requires forall k :: 0 <= k < |srvs| ==> srvs[k] < |st0.disks|
    requires Allocating(st0, st, srvs, replies, {})
    ensures OnlyStops(st0.up, st.up) && Kept(st0, st)
  {
  }

  predicate Allocated(r: Reply) {
    r.status == Success && r.value != HFS_INVALID_HANDLE
  }

  lemma NothingAllocated(st0: State, srvs: seq<nat>, replies: seq<Reply>, pending: set<nat>)
    requires Shape(st0, |st0.disks|) && |replies| == |srvs| && pending == UpTo(|srvs|)
    requires forall k :: 0 <= k < |srvs| ==> srvs[k] < |st0.disks|
    ensures Allocating(st0, st0, srvs, replies, pending)
  {
  }

  lemma AllocStep(st0: State, st: State, st': State, srvs: seq<nat>, replies: seq<Reply>, pending: set<nat>, k: nat,
                  r: Reply)
    requires Shape(st0, |st0.disks|) && |replies| == |srvs|
    requires forall k :: 0 <= k < |srvs| ==> srvs[k] < |st0.disks|
    requires Allocating(st0, st, srvs, replies, pending) && k in pending && k < |srvs|
    requires exists ss :: Sent(st, st', srvs[k], ss, AllocHandle, r)
    ensures Allocating(st0, st', srvs, replies[k := r], pending - {k})
  {
    hide AfterAlloc, HasExtent, Extent;
    var s := srvs[k];
    AllocEffect(st.disks[s]);
    assert Kept(st0, st');
  }

  lemma {:induction false} UpToSize(k: nat)
    ensures |UpTo(k)| == k
  {
    if k > 0 {
      UpToSize(k - 1);
      assert k - 1 !in UpTo(k - 1);
    }
  }

  /** An allocation fails only on a server that has stopped, and runs dry only without supply. */
  ghost predicate Supplied(st0: State, st: State, srvs: seq<nat>, replies: seq<Reply>, pending: set<nat>)
    requires |replies| == |srvs| && Shape(st0, |st0.disks|) && Shape(st, |st0.disks|)
    requires forall k :: 0 <= k < |srvs| ==> srvs[k] < |st0.disks|
  {
    && (forall k: nat :: k < |srvs| && k !in pending ==>
          if replies[k].status == Success then true else replies[k].status == TransmissionFailed && !st.up[srvs[k]])
    && (forall s: nat :: s < |st0.disks| ==> DrawnAt(st0.disks[s], st.disks[s], Asked(pending, srvs, s)))
  }

  /** How many of the allocations have been sent to server `s`. */
  function Asked(pending: set<nat>, srvs: seq<nat>, s: nat): nat {
    Load(UpTo(|srvs|) - pending, srvs, s)
  }

  /** At most `used` handles of a server are gone. */
  ghost predicate DrawnAt(d0: Disk, d: Disk, used: nat) {
    forall m: nat :: Supply(d0, m + used) ==> Supply(d, m)
  }

  /** At most `used` handles of each server are gone. */
  ghost predicate Drawn(st0: State, st: State, used: nat) {
    |st.disks| == |st0.disks| && forall s :: 0 <= s < |st0.disks| ==> DrawnAt(st0.disks[s], st.disks[s], used)
  }

  lemma NothingDrawn(st0: State, st: State, used: nat)
    requires st.disks == st0.disks
    ensures Drawn(st0, st, used)
  {
    forall s | 0 <= s < |st0.disks|
      ensures DrawnAt(st0.disks[s], st.disks[s], used)
    {
      DrawnLess(st0.disks[s], st.disks[s], 0, used);
    }
  }

  lemma DrawnLess(d0: Disk, d: Disk, used: nat, used': nat)
    requires DrawnAt(d0, d, used) && used <= used'
    ensures DrawnAt(d0, d, used')
  {
    forall m: nat | Supply(d0, m + used')
      ensures Supply(d, m)
    {
      LessSupply(d0, m + used', m + used);
    }
  }

  lemma DrawnSupplies(st0: State, st: State, used: nat, m: nat)
    requires Drawn(st0, st, used) && AllSupplied(st0, m + used)
    ensures AllSupplied(st, m)
  {
  }

  ghost predicate AllSupplied(st: State, m: nat) {
    forall s :: 0 <= s < |st.disks| ==> Supply(st.disks[s], m)
  }

  lemma SuppliedDone(st0: State, st: State, srvs: seq<nat>, replies: seq<Reply>, n: nat)
    requires |replies| == |srvs| && Shape(st0, |st0.disks|) && Shape(st, |st0.disks|)
    requires SpreadOver(srvs, n, |st0.disks|) && forall k :: 0 <= k < |srvs| ==> srvs[k] < |st0.disks|
    requires Supplied(st0, st, srvs, replies, {})
    ensures Drawn(st0, st, TOTAL_COPIES)
    ensures forall k :: 0 <= k < |srvs| && replies[k].status != Success ==>
              replies[k].status == TransmissionFailed && !st.up[srvs[k]]
  {
    hide DrawnAt, SpreadOver, Load;
    forall s: nat | s < |st0.disks|
      ensures DrawnAt(st0.disks[s], st.disks[s], TOTAL_COPIES)
    {
      assert UpTo(|srvs|) - {} == UpTo(|srvs|);
      LoadAtMostTwo(srvs, n, |st0.disks|, s);
      DrawnLess(st0.disks[s], st.disks[s], Asked({}, srvs, s), TOTAL_COPIES);
    }
  }

  lemma SupplyStep(st0: State, st: State, st': State, srvs: seq<nat>, replies: seq<Reply>, pending: set<nat>, k: nat,
                   r: Reply)
    requires Shape(st0, |st0.disks|) && |replies| == |srvs| && Shape(st, |st0.disks|) && Shape(st', |st0.disks|)
    requires forall k :: 0 <= k < |srvs| ==> srvs[k] < |st0.disks|
    requires Supplied(st0, st, srvs, replies, pending) && k in pending && k < |srvs|
    requires exists ss :: Sent(st, st', srvs[k], ss, AllocHandle, r)
    ensures Supplied(st0, st', srvs, replies[k := r], pending - {k})
  {
    hide AfterAlloc, Supply, DrawnAt, Load;
    forall s: nat | s < |st0.disks|
      ensures DrawnAt(st0.disks[s], st'.disks[s], Asked(pending - {k}, srvs, s))
    {
      AskedMore(pending, srvs, k, s);
      if srvs[k] == s {
        AllocDraws(st0.disks[s], st.disks[s], Asked(pending, srvs, s));
        DrawnLess(st0.disks[s], st.disks[s], Asked(pending, srvs, s), Asked(pending - {k}, srvs, s));
      }
    }
  }

  lemma AskedMore(pending: set<nat>, srvs: seq<nat>, k: nat, s: nat)
    requires k in pending && k < |srvs|
    ensures Asked(pending - {k}, srvs, s) == Asked(pending, srvs, s) + if srvs[k] == s then 1 else 0
  {
    hide Load;
    var sent := UpTo(|srvs|) - (pending - {k});
    assert sent - {k} == UpTo(|srvs|) - pending;
    LoadLess(sent, srvs, k, s);
  }

  /** One allocation takes at most one handle. */
  lemma AllocDraws(d0: Disk, d: Disk, used: nat)
    requires DrawnAt(d0, d, used)
    ensures DrawnAt(d0, AfterAlloc(d).0, used + 1)
  {
    hide AfterAlloc, Supply;
    forall m: nat | Supply(d0, m + (used + 1))
      ensures Supply(AfterAlloc(d).0, m)
    {
      assert m + (used + 1) == (m + 1) + used;
      AllocSupplied(d, m);
    }
  }

  lemma LessSupply(d: Disk, m: nat, m': nat)
    requires Supply(d, m) && m' <= m
    ensures Supply(d, m')
  {
  }

  lemma AllLess(st: State, m: nat, m': nat)
    requires AllSupplied(st, m) && m' <= m
    ensures AllSupplied(st, m')
  {
    hide Supply;
    forall s | 0 <= s < |st.disks|
      ensures Supply(st.disks[s], m')
    {
      LessSupply(st.disks[s], m, m');
    }
  }

  lemma ZeroHandle(replies: seq<Reply>, handles: seq<u32>)
    requires |replies| == |handles| && forall k :: 0 <= k < |handles| ==> replies[k].value == handles[k]
    ensures HFS_INVALID_HANDLE in handles <==> exists k :: 0 <= k < |replies| && replies[k].value == HFS_INVALID_HANDLE
  {
  }

  /** How many of these requests go to server `s`. */
  function Load(pending: set<nat>, srvs: seq<nat>, s: nat): nat {
    |set k | k in pending && k < |srvs| && srvs[k] == s|
  }

  /** Every request to server `s` that has been sent was answered, and, if `lucky`, with a usable handle. */
  predicate Answers(srvs: seq<nat>, replies: seq<Reply>, pending: set<nat>, s: nat, lucky: bool)
    requires |replies| == |srvs|
  {
    forall k: nat :: k < |srvs| && k !in pending && srvs[k] == s ==>
      replies[k].status == Success && (lucky ==> replies[k].value != HFS_INVALID_HANDLE)
  }

  /** Whether a server serves all its requests with usable handles was decided by its files at the start. */
  ghost predicate Decided(st0: State, st: State, srvs: seq<nat>, replies: seq<Reply>, pending: set<nat>, s: nat)
    requires |replies| == |srvs| && s < |st0.disks| && Shape(st, |st0.disks|)
  {
    Answers(srvs, replies, pending, s, false) ==>
      (FreeNext(st0.disks[s], Load(UpTo(|srvs|), srvs, s)) <==>
         Answers(srvs, replies, pending, s, true) && FreeNext(st.disks[s], Load(pending, srvs, s)))
  }

  lemma DecidedStep(st0: State, st: State, st': State, srvs: seq<nat>, replies: seq<Reply>, pending: set<nat>, k: nat,
                    r: Reply, s: nat)
    requires |replies| == |srvs| && s < |st0.disks| && Shape(st, |st0.disks|) && Shape(st', |st0.disks|)
    requires k in pending && k < |srvs| && srvs[k] < |st0.disks|
    requires exists ss :: Sent(st, st', srvs[k], ss, AllocHandle, r)
    requires Decided(st0, st, srvs, replies, pending, s)
    ensures Decided(st0, st', srvs, replies[k := r], pending - {k}, s)
  {
    hide AfterAlloc, FreeNext, Load;
    LoadLess(pending, srvs, k, s);
    var replies' := replies[k := r];
    if Answers(srvs, replies', pending - {k}, s, false) {
      assert Answers(srvs, replies, pending, s, false) by {
        AnswersBefore(srvs, replies, pending, k, r, s, false);
      }
      if srvs[k] == s {
        FreeStep(st.disks[s], Load(pending - {k}, srvs, s));
      }
      AnswersBefore(srvs, replies, pending, k, r, s, true);
    }
  }

  lemma AnswersBefore(srvs: seq<nat>, replies: seq<Reply>, pending: set<nat>, k: nat, r: Reply, s: nat, lucky: bool)
    requires |replies| == |srvs| && k in pending && k < |srvs|
    ensures Answers(srvs, replies[k := r], pending - {k}, s, lucky) <==>
            Answers(srvs, replies, pending, s, lucky) &&
            (srvs[k] == s ==> r.status == Success && (lucky ==> r.value != HFS_INVALID_HANDLE))
  {
    if Answers(srvs, replies[k := r], pending - {k}, s, lucky) {
      assert forall j: nat :: j < |srvs| && j !in pending ==> replies[k := r][j] == replies[j];
      assert k !in pending - {k} && replies[k := r][k] == r;
    }
  }

  lemma LoadLess(pending: set<nat>, srvs: seq<nat>, k: nat, s: nat)
    requires k in pending && k < |srvs|
    ensures Load(pending, srvs, s) == Load(pending - {k}, srvs, s) + if srvs[k] == s then 1 else 0
  {
    var all := set j | j in pending && j < |srvs| && srvs[j] == s;
    var rest := set j | j in pending - {k} && j < |srvs| && srvs[j] == s;
    assert all == if srvs[k] == s then rest + {k} else rest;
  }

  /** The group before a group, cyclically. */
  function GroupBefore(j: nat, n: nat): nat
    requires j < n
  {
    if j == 0 then n - 1 else j - 1
  }

  lemma PrimariesDiffer(srvs: seq<nat>, n: nat, ds: nat, j: nat, k: nat)
    requires SpreadOver(srvs, n, ds) && j < n && k < n
    ensures srvs[j] == srvs[k] <==> j == k
  {
    assert j < k ==> Primary(srvs, n, j) != Primary(srvs, n, k);
    assert k < j ==> Primary(srvs, n, k) != Primary(srvs, n, j);
  }

  lemma BackupAt(srvs: seq<nat>, n: nat, ds: nat, j: nat)
    requires SpreadOver(srvs, n, ds) && j < n
    ensures srvs[n + j] == srvs[if j + 1 == n then 0 else j + 1]
  {
    assert Backup(srvs, n, j) == Primary(srvs, n, if j + 1 == n then 0 else j + 1);
  }

  lemma SameServer(srvs: seq<nat>, n: nat, ds: nat, j: nat, k: nat)
    requires SpreadOver(srvs, n, ds) && |srvs| == 2 * n && j < n && k < 2 * n
    ensures srvs[k] == srvs[j] <==> k == j || k == n + GroupBefore(j, n)
  {
    hide SpreadOver;
    if k < n {
      PrimariesDiffer(srvs, n, ds, j, k);
    } else {
      BackupAt(srvs, n, ds, k - n);
      PrimariesDiffer(srvs, n, ds, j, if k - n + 1 == n then 0 else k - n + 1);
    }
  }

  /** The placement asks each of its servers for two handles ... */
  lemma LoadTwo(srvs: seq<nat>, n: nat, ds: nat, j: nat)
    requires SpreadOver(srvs, n, ds) && |srvs| == 2 * n && j < n
    ensures Load(UpTo(|srvs|), srvs, srvs[j]) == 2
  {
    hide SpreadOver;
    forall k: nat | k < 2 * n
      ensures srvs[k] == srvs[j] <==> k == j || k == n + GroupBefore(j, n)
    {
      SameServer(srvs, n, ds, j, k);
    }
    var asked := set k | k in UpTo(|srvs|) && k < |srvs| && srvs[k] == srvs[j];
    assert asked == {j, n + GroupBefore(j, n)};
  }

  /** ... and no server for more. */
  lemma LoadAtMostTwo(srvs: seq<nat>, n: nat, ds: nat, s: nat)
    requires SpreadOver(srvs, n, ds) && s < ds
    ensures Load(UpTo(|srvs|), srvs, s) <= 2
  {
    SpreadServers(srvs, n, ds);
    if k: nat :| k < |srvs| && srvs[k] == s {
      var j := GroupOnServer(srvs, n, ds, k);
      hide SpreadOver, Load;
      LoadTwo(srvs, n, ds, j);
    } else {
      var none := set k | k in UpTo(|srvs|) && k < |srvs| && srvs[k] == s;
      assert none == {};
    }
  }

  lemma ServerVerdict(st0: State, st: State, srvs: seq<nat>, replies: seq<Reply>, s: nat)
    requires |replies| == |srvs| && s < |st0.disks| && Shape(st, |st0.disks|)
    requires forall k :: 0 <= k < |replies| ==> replies[k].status == Success
    requires Decided(st0, st, srvs, replies, {}, s) && Load(UpTo(|srvs|), srvs, s) == 2
    ensures !FreeNext(st0.disks[s], 2) <==>
            exists k :: 0 <= k < |replies| && srvs[k] == s && replies[k].value == HFS_INVALID_HANDLE
  {
    assert Load({}, srvs, s) == 0;
    assert Answers(srvs, replies, {}, s, false);
    assert FreeNext(st.disks[s], 0);
    hide FreeNext, Load;
  }

  /** The group whose primary is on the server of copy `k`. */
  lemma GroupOnServer(srvs: seq<nat>, n: nat, ds: nat, k: nat) returns (j: nat)
    requires SpreadOver(srvs, n, ds) && |srvs| == 2 * n && k < 2 * n
    ensures j < n && srvs[j] == srvs[k]
  {
    hide SpreadOver;
    if k < n {
      j := k;
    } else {
      BackupAt(srvs, n, ds, k - n);
      j := if k - n + 1 == n then 0 else k - n + 1;
    }
  }

  /** ... so the files of those servers decide whether some copy gets handle 0. */
  lemma AllocVerdict(st0: State, st: State, srvs: seq<nat>, replies: seq<Reply>, n: nat)
    requires |replies| == |srvs| && Shape(st, |st0.disks|) && SpreadOver(srvs, n, |st0.disks|)
    requires forall k :: 0 <= k < |replies| ==> replies[k].status == Success
    requires forall s: nat :: s < |st0.disks| ==> Decided(st0, st, srvs, replies, {}, s)
    ensures |srvs| == 2 * n && forall k :: 0 <= k < |srvs| ==> srvs[k] < |st0.disks|
    ensures (exists k :: 0 <= k < |replies| && replies[k].value == HFS_INVALID_HANDLE) <==>
            exists j :: 0 <= j < n && !FreeNext(st0.disks[srvs[j]], 2)
  {
    SpreadServers(srvs, n, |st0.disks|);
    hide SpreadOver, FreeNext, Decided;
    if k :| 0 <= k < |replies| && replies[k].value == HFS_INVALID_HANDLE {
      var j := GroupOnServer(srvs, n, |st0.disks|, k);
      LoadTwo(srvs, n, |st0.disks|, j);
      ServerVerdict(st0, st, srvs, replies, srvs[j]);
    }
    if j :| 0 <= j < n && !FreeNext(st0.disks[srvs[j]], 2) {
      LoadTwo(srvs, n, |st0.disks|, j);
      ServerVerdict(st0, st, srvs, replies, srvs[j]);
    }
  }

  lemma AllocatedCopies(st0: State, st: State, f: IAttr, replies: seq<Reply>)
    requires Shape(st0, |st0.disks|) && 0 < f.stripeCnt <= HFS_MAX_STRIPE_CNT
    requires |f.srvs| == |f.handles| == |replies| == 2 * f.stripeCnt
    requires forall k :: 0 <= k < |f.srvs| ==> f.srvs[k] < |st0.disks|
    requires Allocating(st0, st, f.srvs, replies, {})
    requires forall k :: 0 <= k < |replies| ==> replies[k].status == Success && replies[k].value == f.handles[k]
    ensures Addressed(f, |st0.disks|) && Shape(st, |st0.disks|) && FreshCopies(st0, st, f)
  {
    hide HasExtent, Extent, Kept, OnlyStops;
    forall e: nat | e < 2 * f.stripeCnt && f.handles[e] != HFS_INVALID_HANDLE
      ensures !HasExtent(st0.disks[f.srvs[e]], f.handles[e]) && HasExtent(st.disks[f.srvs[e]], f.handles[e])
    {
      assert Allocated(replies[e]);
    }
  }

  lemma AllocatedFile(st0: State, st: State, f: IAttr, replies: seq<Reply>, ds: nat)
    requires Shape(st0, ds) && |st0.disks| == ds && 0 < f.stripeCnt <= HFS_MAX_STRIPE_CNT
    requires |f.srvs| == |f.handles| == |replies| == 2 * f.stripeCnt
    requires forall k :: 0 <= k < |f.srvs| ==> f.srvs[k] < ds
    requires forall g :: 0 <= g < f.stripeCnt ==> f.srvs[g] != f.srvs[g + f.stripeCnt]
    requires Allocating(st0, st, f.srvs, replies, {}) && HFS_INVALID_HANDLE !in f.handles
    requires forall k :: 0 <= k < |replies| ==> replies[k].status == Success && replies[k].value == f.handles[k]
    ensures WellFormed(f, ds) && FreshFile(st0, st, f)
  {
    hide HasExtent, Extent, Kept, OnlyStops;
    forall d, e | 0 <= d < e < 2 * f.stripeCnt
      ensures f.srvs[d] != f.srvs[e] || f.handles[d] != f.handles[e]
    {
      assert Allocated(replies[d]) && Allocated(replies[e]);
    }
    assert WellFormed(f, ds);
    forall e: nat | e < 2 * f.stripeCnt
      ensures !HasExtent(st0.disks[f.srvs[e]], f.handles[e]) && HasExtent(st.disks[f.srvs[e]], f.handles[e])
      ensures ExtentOf(st, f, e) == []
    {
      assert Allocated(replies[e]);
    }
  }

  predicate ReadItem(item: Item, i: nat, f: IAttr, off: nat, size: nat, ss: u32)
    requires 0 < ss && 0 < f.stripeCnt && |f.srvs| == |f.handles| == 2 * f.stripeCnt
  {
    var g, row := SliceGroup(i, off, ss, f.stripeCnt), SliceRow(i, off, ss, f.stripeCnt);
    row < TWO32 && RowStart(row, ss) < TWO31 && item == Item(g, f.srvs[g], ReadStripe(f.handles[g], row, 1), item.reply)
  }

  lemma ItemsAreQueries(items: seq<Item>, f: IAttr, off: nat, size: nat, ss: u32)
    requires 0 < ss && 0 < f.stripeCnt && |f.srvs| == |f.handles| == 2 * f.stripeCnt
    requires forall i: nat :: i < |items| ==> ReadItem(items[i], i, f, off, size, ss)
    ensures forall k :: 0 <= k < |items| ==> Asks(items[k], f, ss)
  {
    hide RowStart, SliceGroup, SliceRow;
  }

  lemma MirrorsExist(st: State, f: IAttr, flat: seq<byte>, ss: nat)
    requires 0 < ss && WellFormed(f, |st.disks|) && Shape(st, |st.disks|)
    ensures Mirrors(st, f, flat, ss) ==> AllExist(st, f)
  {
  }

  lemma SizeReplies(st: State, f: IAttr, lens: seq<nat>, ss: u32, asked: seq<Item>, items: seq<Item>)
    requires Shape(st, |st.disks|) && WellFormed(f, |st.disks|) && AllExist(st, f) && Lengths(st, f, lens)
    requires |items| == |asked| == f.stripeCnt
    requires forall k :: 0 <= k < |asked| ==> asked[k].dataServerIdx == k && asked[k].req == GetLength(f.handles[k])
    requires forall k :: 0 <= k < |items| ==>
               items[k].dataServerIdx == asked[k].dataServerIdx < f.stripeCnt && items[k].reply.status == Success &&
               Answered(st, f, ss, items[k].dataServerIdx, asked[k].req, items[k].reply)
    ensures |lens| == |items| && forall k :: 0 <= k < |items| ==> items[k].reply.value == U32(lens[k])
  {
    hide Answered, AllExist;
    forall k | 0 <= k < |items|
      ensures items[k].reply.value == U32(lens[k])
    {
      SizeAnswer(st, f, lens, ss, k, f.handles[k], items[k].reply);
    }
  }

  lemma ReadReplies(st: State, f: IAttr, flat: seq<byte>, ss: u32, off: nat, size: nat, asked: seq<Item>,
                    items: seq<Item>)
    requires Shape(st, |st.disks|) && WellFormed(f, |st.disks|) && 0 < ss && 0 < size && Mirrors(st, f, flat, ss)
    requires |items| == |asked| && forall i: nat :: i < |asked| ==> ReadItem(asked[i], i, f, off, size, ss)
    requires forall k :: 0 <= k < |items| ==>
               items[k].dataServerIdx == asked[k].dataServerIdx < f.stripeCnt && items[k].reply.status == Success &&
               Answered(st, f, ss, items[k].dataServerIdx, asked[k].req, items[k].reply)
    ensures forall i: nat :: i < |items| ==> StripeOf(items[i].reply.payload, SliceLcn(i, off, ss), flat, ss)
  {
    hide RowStart, Lcn, LcnGroup, LcnRow, Answered, Mirrors, StripeOf;
    forall i: nat | i < |items|
      ensures StripeOf(items[i].reply.payload, SliceLcn(i, off, ss), flat, ss)
    {
      assert ReadItem(asked[i], i, f, off, size, ss);
      ReadAnswer(st, f, flat, ss, SliceLcn(i, off, ss), asked[i].req.hdl, items[i].reply);
    }
  }

  /** The byte that the copy loop puts at position `j` of the user's buffer. */
  lemma ReadByte(payload: seq<byte>, i: nat, off: nat, size: nat, ss: nat, flat: seq<byte>, j: nat)
    requires 0 < ss && 0 < size && i < StripeCount(off, size, ss)
    requires StripeOf(payload, SliceLcn(i, off, ss), flat, ss)
    requires Cursor(i, off, size, ss) <= j < Cursor(i, off, size, ss) + SliceSize(i, off, size, ss)
    ensures SliceOffset(i, off, size, ss) >= 0
    ensures At(payload, SliceOffset(i, off, size, ss) + (j - Cursor(i, off, size, ss))) == At(flat, off + j)
  {
    hide Lcn, StripeCount, SliceSize, SliceOffset, Lo, Hi, Cursor, RowStart, SliceLcn;
    CursorInside(i, off, size, ss);
    SliceExact(i, off, size, ss);
    var x: nat := SliceOffset(i, off, size, ss) + (j - Cursor(i, off, size, ss));
    assert At(payload, x) == At(flat, RowStart(SliceLcn(i, off, ss), ss) + x);
  }

  /** The first `i` items have their final reply, the others that of the first round. */
  ghost predicate Retrying(st0: State, st: State, f: IAttr, ss: u32, items: seq<Item>, asked: seq<Item>, i: nat)
    requires Shape(st0, |st0.disks|) && WellFormed(f, |st0.disks|)
    requires |items| == |asked|
  {
    && st.disks == st0.disks && Shape(st, |st0.disks|) && OnlyStops(st0.up, st.up)
    && (forall k :: 0 <= k < |items| ==> items[k].dataServerIdx == asked[k].dataServerIdx < f.stripeCnt)
    && (forall k :: i <= k < |items| ==> FirstReply(st0, st, f, ss, items[k], asked[k].req))
    && (AtMostOneDown(st0.up) ==>
          forall k :: 0 <= k < i && k < |items| ==>
            items[k].reply.status == Success &&
            Answered(st0, f, ss, items[k].dataServerIdx, asked[k].req, items[k].reply))
  }

  lemma RetryStart(st0: State, st: State, f: IAttr, ss: u32, items: seq<Item>, asked: seq<Item>)
    requires Shape(st0, |st0.disks|) && WellFormed(f, |st0.disks|) && |items| == |asked|
    requires SameFiles(st0, st)
    requires forall k :: 0 <= k < |items| ==>
               items[k].dataServerIdx == asked[k].dataServerIdx < f.stripeCnt && items[k].req == asked[k].req &&
               FirstReply(st0, st, f, ss, items[k], items[k].req)
    ensures Retrying(st0, st, f, ss, items, asked, 0)
  {
    hide FirstReply, WellFormed, OnlyStops;
  }

  lemma RetryDone(st0: State, st: State, f: IAttr, ss: u32, items: seq<Item>, asked: seq<Item>)
    requires Shape(st0, |st0.disks|) && WellFormed(f, |st0.disks|) && |items| == |asked|
    requires Retrying(st0, st, f, ss, items, asked, |items|)
    ensures st.disks == st0.disks && OnlyStops(st0.up, st.up)
    ensures forall k :: 0 <= k < |items| ==> items[k].dataServerIdx == asked[k].dataServerIdx < f.stripeCnt
    ensures AtMostOneDown(st0.up) ==>
              forall k :: 0 <= k < |items| ==>
                items[k].reply.status == Success &&
                Answered(st0, f, ss, items[k].dataServerIdx, asked[k].req, items[k].reply)
  {
    hide FirstReply, WellFormed, OnlyStops, Answered, AtMostOneDown;
  }

  /** An item before and after the second round: unless it has been answered, it has gone to the backup. */
  ghost predicate Retried(st: State, st': State, f: IAttr, ss: u32, item: Item, item': Item)
    requires |f.srvs| == |f.handles| == 2 * f.stripeCnt && item.dataServerIdx < f.stripeCnt
  {
    if item.reply.status == Success then st' == st && item' == item
    else
      var b := item.dataServerIdx + f.stripeCnt;
      && item' == Item(item.dataServerIdx, f.srvs[b], Retarget(item.req, f.handles[b]), item'.reply)
      && Shape(st, |st.disks|) && item'.srv < |st.disks| && Sent(st, st', item'.srv, ss, item'.req, item'.reply)
  }

  lemma AddressedIs(f: IAttr, ds: nat)
    requires Addressed(f, ds)
    ensures |f.srvs| == |f.handles| == 2 * f.stripeCnt
  {
  }

  lemma RetryStep(st0: State, st: State, st': State, f: IAttr, ss: u32, items: seq<Item>, items': seq<Item>,
                  asked: seq<Item>, i: nat)
    requires Shape(st0, |st0.disks|) && WellFormed(f, |st0.disks|) && AllExist(st0, f)
    requires |items| == |asked| && i < |items|
    requires Retrying(st0, st, f, ss, items, asked, i) && Query(asked[i].req, ss)
    requires |items'| == |items| && items' == items[i := items'[i]] && items[i].req == asked[i].req
    requires Retried(st, st', f, ss, items[i], items'[i])
    ensures Retrying(st0, st', f, ss, items', asked, i + 1)
  {
    hide HdlToFileName, Exec, RowStart, AllExist, Query, Retarget;
    var g := items[i].dataServerIdx;
    if items[i].reply.status != Success {
      QuerySent(st0, st, st', f, ss, g + f.stripeCnt, asked[i].req, items'[i].reply);
      hide Sent;
      assert !st'.up[f.srvs[g]];
      if AtMostOneDown(st0.up) {
        assert st'.up[f.srvs[g + f.stripeCnt]];
      }
    }
  }

  /** After the first round an item is answered, or its primary server is down. */
  ghost predicate FirstReply(st0: State, st: State, f: IAttr, ss: u32, item: Item, req: Request)
    requires Shape(st0, |st0.disks|) && WellFormed(f, |st0.disks|) && Shape(st, |st0.disks|)
    requires item.dataServerIdx < f.stripeCnt
  {
    if item.reply.status == Success then AnsweredBy(st0, f, ss, item.dataServerIdx, req, item.reply)
    else !st.up[f.srvs[item.dataServerIdx]]
  }

  lemma FirstRound(st0: State, st: State, st': State, f: IAttr, ss: u32, asked: Item, r: Reply)
    requires Shape(st0, |st0.disks|) && WellFormed(f, |st0.disks|) && AllExist(st0, f)
    requires SameFiles(st0, st) && Asks(asked, f, ss) && Sent(st, st', asked.srv, ss, asked.req, r)
    ensures Shape(st', |st0.disks|) && FirstReply(st0, st', f, ss, asked.(reply := r), asked.req)
  {
    hide HdlToFileName, Exec, RowStart, Query, AllExist;
    QuerySent(st0, st, st', f, ss, asked.dataServerIdx, asked.req, r);
  }

  lemma StaysAnswered(st0: State, st: State, st': State, f: IAttr, ss: u32, item: Item)
    requires Shape(st0, |st0.disks|) && WellFormed(f, |st0.disks|) && Shape(st, |st0.disks|) && Shape(st', |st0.disks|)
    requires OnlyStops(st.up, st'.up) && item.dataServerIdx < f.stripeCnt && FirstReply(st0, st, f, ss, item, item.req)
    ensures FirstReply(st0, st', f, ss, item, item.req)
  {
    hide AnsweredBy;
  }

  /** The stripes of a request within the capacity fit an `int`. */
  lemma StripesInRange(off: nat, size: nat, ss: nat, n: nat)
    requires HFS_MIN_STRIPE_SIZE <= ss <= HFS_MAX_STRIPE_SIZE && 0 < n <= HFS_MAX_STRIPE_CNT
    requires 0 < size && off + size <= Capacity(ss, n)
    ensures I32(Lcn(off, ss)) == Lcn(off, ss) && I32(Lcn(off + size - 1, ss)) == Lcn(off + size - 1, ss)
    ensures StripeCount(off, size, ss) == Lcn(off + size - 1, ss) - Lcn(off, ss) + 1
  {
    hide Lcn, Capacity, RowStart, LcnRow;
    BelowCapacity(off, ss, n);
    BelowCapacity(off + size - 1, ss, n);
    RowStep(LcnRow(Lcn(off, ss), n), ss);
    RowStep(LcnRow(Lcn(off + size - 1, ss), n), ss);
    StripeFits(Lcn(off, ss), ss, n);
    StripeFits(Lcn(off + size - 1, ss), ss, n);
  }

  /** The block mapping of the `i`-th stripe of a request within the capacity is the intended one. */
  lemma StripeAddress(i: nat, off: nat, size: nat, ss: nat, n: nat)
    requires HFS_MIN_STRIPE_SIZE <= ss <= HFS_MAX_STRIPE_SIZE && 0 < n <= HFS_MAX_STRIPE_CNT
    requires 0 < size && off + size <= Capacity(ss, n) && i < StripeCount(off, size, ss)
    ensures StripeNumber(Lcn(off, ss) + i, n) == (SliceGroup(i, off, ss, n), SliceRow(i, off, ss, n))
  {
    hide Lcn, Capacity, RowStart, LcnRow, LcnGroup, StripeCount, SliceOffset, StripeNumber, StartOf;
    RowFits(i, off, size, ss, n);
    RowStep(SliceRow(i, off, ss, n), ss);
    StripeFits(SliceLcn(i, off, ss), ss, n);
  }

  lemma CursorInside(i: nat, off: nat, size: nat, ss: nat)
    requires 0 < ss && 0 < size && i < StripeCount(off, size, ss)
    ensures Cursor(i, off, size, ss) == Lo(i, off, ss) - off >= 0
    ensures Cursor(i, off, size, ss) + SliceSize(i, off, size, ss) == Hi(i, off, size, ss) - off <= size
    ensures 0 < SliceSize(i, off, size, ss) <= ss
  {
    hide Lcn, StripeCount, SliceSize, SliceOffset, Lo, Hi, Cursor, RowStart;
    CursorExact(i, off, size, ss);
    SliceExact(i, off, size, ss);
  }

  /** The two items of slice `i`. */
  lemma SliceItems(i: nat, f: IAttr, off: nat, eff: seq<byte>, ss: u32)
    requires HFS_MIN_STRIPE_SIZE <= ss <= HFS_MAX_STRIPE_SIZE
    requires 0 < |eff| && 0 < f.stripeCnt && |f.srvs| == |f.handles| == 2 * f.stripeCnt
    requires i < StripeCount(off, |eff|, ss) && off + |eff| <= Capacity(ss, f.stripeCnt)
    ensures var n := f.stripeCnt;
            var g, row, inStripe := SliceGroup(i, off, ss, n), SliceRow(i, off, ss, n), SliceOffset(i, off, |eff|, ss);
            var payload := SliceData(i, off, eff, ss);
            row < TWO32 && 0 <= inStripe < TWO32 &&
            WriteItem(Item(g, f.srvs[g], WriteStripe(f.handles[g], row, inStripe, payload), NO_REPLY), 2 * i, f, off,
                      eff, ss) &&
            WriteItem(Item(g, f.srvs[g + n], WriteStripe(f.handles[g + n], row, inStripe, payload), NO_REPLY),
                      2 * i + 1, f, off, eff, ss)
  {
    hide StripeCount, SliceOffset, SliceGroup, SliceRow, SliceData, Capacity;
    assert 2 * i / 2 == i && (2 * i + 1) / 2 == i && 2 * i % 2 == 0 && (2 * i + 1) % 2 == 1;
    assert SliceRow(i, off, ss, f.stripeCnt) < TWO32 && 0 <= SliceOffset(i, off, |eff|, ss) < TWO32 by {
      RowFits(i, off, |eff|, ss, f.stripeCnt);
    }
  }

  /** One slice of the bytes sent: the user's bytes if the guard lets them through, zeros if not. */
  lemma EffectiveSlice(i: nat, data: seq<byte>, off: nat, ss: nat, bufferAddr: int, extentAddrs: seq<int>)
    requires 0 < ss && 0 < |data| && |extentAddrs| == StripeCount(off, |data|, ss) && i < |extentAddrs|
    ensures SliceData(i, off, Effective(data, off, ss, bufferAddr, extentAddrs), ss) ==
            if CopyGuard(i, off, |data|, ss, bufferAddr, extentAddrs) then SliceData(i, off, data, ss)
            else Zeros(SliceSize(i, off, |data|, ss))
  {
    SliceExact(i, off, |data|, ss);
    hide StripeCount, SliceSize, SliceIndex, Lo, Hi, CopyGuard;
    var eff := Effective(data, off, ss, bufferAddr, extentAddrs);
    forall x | 0 <= x < |SliceData(i, off, data, ss)|
      ensures SliceData(i, off, eff, ss)[x] ==
              if CopyGuard(i, off, |data|, ss, bufferAddr, extentAddrs) then SliceData(i, off, data, ss)[x] else 0
    {
      BytesOfSlice(Lo(i, off, ss) + x, i, off, |data|, ss, 1);
    }
  }

  lemma SliceCopied(i: nat, data: seq<byte>, off: nat, ss: nat, bufferAddr: int, extentAddrs: seq<int>)
    requires 0 < ss && 0 < |data| && |extentAddrs| == StripeCount(off, |data|, ss) && i < |extentAddrs|
    ensures 0 <= Cursor(i, off, |data|, ss) <= Cursor(i, off, |data|, ss) + SliceSize(i, off, |data|, ss) <= |data|
    ensures var source := data[Cursor(i, off, |data|, ss)..Cursor(i, off, |data|, ss) + SliceSize(i, off, |data|, ss)];
            SliceData(i, off, Effective(data, off, ss, bufferAddr, extentAddrs), ss) ==
            if extentAddrs[i] + SliceSize(i, off, |data|, ss) <= bufferAddr + |data| then source
            else Zeros(SliceSize(i, off, |data|, ss))
  {
    hide StripeCount, SliceSize, Lo, Hi, Cursor, Effective;
    CursorInside(i, off, |data|, ss);
    EffectiveSlice(i, data, off, ss, bufferAddr, extentAddrs);
  }

  lemma WritingStart(st0: State, f: IAttr, off: nat, eff: seq<byte>, ss: u32, pending: set<nat>)
    requires Shape(st0, |st0.disks|) && WellFormed(f, |st0.disks|) && 0 < ss && 0 < |eff|
    requires pending == UpTo(StripeCount(off, |eff|, ss) * 2)
    ensures Writing(st0, st0, f, off, eff, ss, pending)
  {
    hide StripeCount, SliceGroup, EndOf, FileByte;
    assert Done(pending, 0, off, |eff|, ss) == {};
    assert Done(pending, 1, off, |eff|, ss) == {};
  }
}
