/** Whole runs of a client: creating, writing, reading and sizing any number of files while at most
    one data server, at any moment, stops for good. */
module Runs {
  import opened Arith
  import opened Bytes
  import opened Layout
  import opened DataServers
  import opened Stripes
  import opened StripedClient

  datatype Op =
    | Create(r: nat)
    | WriteAt(file: nat, data: seq<byte>, bufferAddr: int, extentAddrs: seq<int>, offset: nat)
    | ReadAt(file: nat, offset: nat, size: nat)
    | SizeOf(file: nat)

  /** `CreatedOverMeta` is a success like `Created` to the caller; the new inode carries handle 0. */
  datatype Outcome =
    | Created(file: nat)
    | CreatedOverMeta(file: nat)
    | CreateFailed
    | Written(size: nat)
    | Content(data: seq<byte>)
    | Sized(total: u32)
    | NoSuchFile

  /** What the user should see of a file: one flat, zero-filled byte array, and the lengths that the
      extents of its groups have reached. Of a file that lies over a meta file nothing can be said. */
  datatype FlatFile = FlatFile(bytes: seq<byte>, lens: seq<nat>) | OverMeta

  function Groups(ds: nat): nat {
    Min(ds, HFS_MAX_STRIPE_CNT)
  }

  /** Requests stay below the capacity of a file, and a write's buffers are distinct allocations. */
  predicate Legal(op: Op, ds: nat, ss: nat)
    requires 0 < ss && 0 < ds
  {
    match op
    case Create(_) => true
    case WriteAt(_, data, bufferAddr, extentAddrs, offset) =>
      && offset + |data| <= Capacity(ss, Groups(ds))
      && (data != [] ==> |extentAddrs| == StripeCount(offset, |data|, ss))
      && Disjoint(|data|, ss, bufferAddr, extentAddrs)
    case ReadAt(_, offset, size) => offset + size <= Capacity(ss, Groups(ds))
    case SizeOf(_) => true
  }

  /** A flat file after `data` has been written to it. */
  function Put(file: FlatFile, offset: nat, data: seq<byte>, ss: nat): FlatFile
    requires 0 < ss && 0 < |data|
  {
    match file
    case OverMeta => OverMeta
    case FlatFile(bytes, lens) => FlatFile(PWrite(bytes, offset, data), WrittenLens(lens, offset, |data|, ss))
  }

  /** The flat files after an operation. */
  function Apply(files: seq<FlatFile>, op: Op, out: Outcome, ds: nat, ss: nat): seq<FlatFile>
    requires 0 < ss && 0 < ds && Legal(op, ds, ss)
  {
    match op
    case Create(_) =>
      if out.Created? then files + [FlatFile([], GroupLens(0, ss, Groups(ds)))]
      else if out.CreatedOverMeta? then files + [OverMeta]
      else files
    case WriteAt(k, data, bufferAddr, extentAddrs, offset) =>
      if k < |files| && data != [] then
        files[k := Put(files[k], offset, Effective(data, offset, ss, bufferAddr, extentAddrs), ss)]
      else files
    case ReadAt(_, _, _) => files
    case SizeOf(_) => files
  }

  /** The outcome an operation must have, given the flat files before it. */
  predicate Expected(files: seq<FlatFile>, op: Op, out: Outcome) {
    match op
    case Create(_) => out == Created(|files|) || out == CreatedOverMeta(|files|) || out == CreateFailed
    case WriteAt(k, data, _, _, _) => out == if k < |files| then Written(|data|) else NoSuchFile
    case ReadAt(k, offset, size) =>
      if k >= |files| then out == NoSuchFile
      else if files[k].OverMeta? then out.Content? && |out.data| == size
      else out == Content(Window(files[k].bytes, offset, size))
    case SizeOf(k) =>
      if k >= |files| then out == NoSuchFile
      else if files[k].OverMeta? then out.Sized?
      else out == Sized(U32(Sum(files[k].lens)))
  }

  predicate AllLegal(ops: seq<Op>, ds: nat, ss: nat)
    requires 0 < ss && 0 < ds
  {
    forall k :: 0 <= k < |ops| ==> Legal(ops[k], ds, ss)
  }

  /** The flat files after a whole run. */
  function Replay(ops: seq<Op>, outs: seq<Outcome>, ds: nat, ss: nat): seq<FlatFile>
    requires 0 < ss && 0 < ds && AllLegal(ops, ds, ss) && |outs| == |ops|
  {
    if ops == [] then []
    else
      var m := |ops| - 1;
      Apply(Replay(ops[..m], outs[..m], ds, ss), ops[m], outs[m], ds, ss)
  }

  // ---------------------------------------------------------------------------------------------
  // The invariant of a run

  /** The copies of a file over a meta file that have a handle of their own exist. */
  ghost predicate OwnCopiesExist(st: State, f: IAttr)
    requires Addressed(f, |st.disks|)
  {
    forall e: nat :: e < 2 * f.stripeCnt && f.handles[e] != HFS_INVALID_HANDLE ==>
      HasExtent(st.disks[f.srvs[e]], f.handles[e])
  }

  ghost predicate FileOk(st: State, f: IAttr, flat: FlatFile, ds: nat, ss: nat)
    requires 0 < ss && Shape(st, ds) && |st.disks| == ds
  {
    && Addressed(f, ds) && f.stripeCnt == Groups(ds)
    && OwnCopiesExist(st, f)
    && (flat.FlatFile? ==> WellFormed(f, ds) && Mirrors(st, f, flat.bytes, ss) && Lengths(st, f, flat.lens))
  }

  /** No extent belongs to two files. */
  ghost predicate Apart(f: IAttr, f': IAttr)
    requires |f.srvs| == |f.handles| && |f'.srvs| == |f'.handles|
  {
    forall s: nat, h: u32 :: !(Owns(f, s, h) && Owns(f', s, h))
  }

  /** Files share no extent, unless both lie over a meta file. */
  ghost predicate FilesApart(table: seq<IAttr>, files: seq<FlatFile>, ds: nat, j: nat, k: nat)
    requires |table| == |files| && j < |table| && k < |table| && Addressed(table[j], ds) && Addressed(table[k], ds)
  {
    j != k ==> (files[j].OverMeta? && files[k].OverMeta?) || Apart(table[j], table[k])
  }

  ghost predicate RunInv(st: State, table: seq<IAttr>, files: seq<FlatFile>, ds: nat, ss: nat)
    requires 0 < ss && Shape(st, ds) && |st.disks| == ds
  {
    && AtMostOneDown(st.up)
    && |table| == |files|
    && (forall k :: 0 <= k < |table| ==> FileOk(st, table[k], files[k], ds, ss))
    && (forall j: nat, k: nat :: j < |table| && k < |table| ==> FilesApart(table, files, ds, j, k))
  }

  /** Stopping servers and changing only extents of other files leaves a file as it was. */
  lemma FileKept(st0: State, st: State, f: IAttr, flat: FlatFile, ds: nat, ss: nat)
    requires 0 < ss && Shape(st0, ds) && |st0.disks| == ds && Shape(st, ds) && |st.disks| == ds
    requires FileOk(st0, f, flat, ds, ss) && OnlyStops(st0.up, st.up) && OwnCopiesExist(st, f)
    requires flat.FlatFile? ==> forall e: nat :: e < 2 * f.stripeCnt ==>
               HasExtent(st.disks[f.srvs[e]], f.handles[e]) && ExtentOf(st, f, e) == ExtentOf(st0, f, e)
    ensures FileOk(st, f, flat, ds, ss)
  {
    hide HasExtent, ExtentOf, HoldsGroup;
  }

  lemma ReadKeeps(st0: State, st: State, table: seq<IAttr>, files: seq<FlatFile>, ds: nat, ss: nat)
    requires 0 < ss && Shape(st0, ds) && |st0.disks| == ds && RunInv(st0, table, files, ds, ss)
    requires SameFiles(st0, st)
    ensures RunInv(st, table, files, ds, ss)
  {
    hide Apart, FilesApart, HasExtent, Extent, HoldsGroup, Lengths;
    forall k | 0 <= k < |table|
      ensures FileOk(st, table[k], files[k], ds, ss)
    {
      FileKept(st0, st, table[k], files[k], ds, ss);
    }
  }

  lemma WriteKeeps(st0: State, st: State, table: seq<IAttr>, files: seq<FlatFile>, k: nat, flat: FlatFile, ds: nat,
                   ss: nat)
    requires 0 < ss && Shape(st0, ds) && |st0.disks| == ds && RunInv(st0, table, files, ds, ss) && k < |table|
    requires |st.disks| == ds && Addressed(table[k], ds) && OnlyWrites(st0, st, table[k])
    requires FileOk(st, table[k], flat, ds, ss) && (flat.OverMeta? <==> files[k].OverMeta?)
    ensures RunInv(st, table, files[k := flat], ds, ss)
  {
    hide HasExtent, Extent, Mirrors, Lengths, Untouched, NoneLost, Apart;
    forall j | 0 <= j < |table|
      ensures FileOk(st, table[j], files[k := flat][j], ds, ss)
    {
      if j != k {
        assert FilesApart(table, files, ds, j, k);
        OthersKept(st0, st, table[k], files[k], table[j], files[j], ds, ss);
      }
    }
    var after := files[k := flat];
    forall i: nat, j: nat | i < |table| && j < |table|
      ensures FilesApart(table, after, ds, i, j)
    {
      assert FilesApart(table, files, ds, i, j);
    }
  }

  lemma OthersKept(st0: State, st: State, f: IAttr, written: FlatFile, other: IAttr, flat: FlatFile, ds: nat, ss: nat)
    requires 0 < ss && Shape(st0, ds) && |st0.disks| == ds && Shape(st, ds) && |st.disks| == ds
    requires Addressed(f, ds) && FileOk(st0, other, flat, ds, ss) && OnlyWrites(st0, st, f)
    requires (written.OverMeta? && flat.OverMeta?) || Apart(other, f)
    ensures FileOk(st, other, flat, ds, ss)
  {
    hide HasExtent, Extent, HoldsGroup, Lengths;
    if flat.FlatFile? {
      forall e: nat | e < 2 * other.stripeCnt
        ensures HasExtent(st.disks[other.srvs[e]], other.handles[e]) &&
                ExtentOf(st, other, e) == ExtentOf(st0, other, e)
      {
        assert Owns(other, other.srvs[e], other.handles[e]);
      }
    }
    FileKept(st0, st, other, flat, ds, ss);
  }

  lemma CreateKeeps(st0: State, st: State, table: seq<IAttr>, files: seq<FlatFile>, ds: nat, ss: nat)
    requires 0 < ss && Shape(st0, ds) && |st0.disks| == ds && RunInv(st0, table, files, ds, ss)
    requires Shape(st, ds) && |st.disks| == ds && OnlyStops(st0.up, st.up) && Kept(st0, st)
    ensures RunInv(st, table, files, ds, ss)
  {
    hide HasExtent, Extent, HoldsGroup, Lengths, Apart, FilesApart;
    forall k | 0 <= k < |table|
      ensures FileOk(st, table[k], files[k], ds, ss)
    {
      FileKept(st0, st, table[k], files[k], ds, ss);
    }
  }

  /** A new file joins the others, be it a proper one or one over a meta file. */
  lemma CreateAdds(st0: State, st: State, table: seq<IAttr>, files: seq<FlatFile>, f: IAttr, flat: FlatFile, ds: nat,
                   ss: nat)
    requires 0 < ss && Shape(st0, ds) && |st0.disks| == ds && RunInv(st0, table, files, ds, ss)
    requires Shape(st, ds) && |st.disks| == ds && RunInv(st, table, files, ds, ss)
    requires Addressed(f, ds) && f.stripeCnt == Groups(ds) && FreshCopies(st0, st, f)
    requires if HFS_INVALID_HANDLE in f.handles then flat.OverMeta?
             else WellFormed(f, ds) && FreshFile(st0, st, f) && flat == FlatFile([], GroupLens(0, ss, Groups(ds)))
    ensures RunInv(st, table + [f], files + [flat], ds, ss)
  {
    hide HasExtent, Extent, WellFormed, Apart;
    EmptyFileOk(st0, st, f, flat, ds, ss);
    var (table', files') := (table + [f], files + [flat]);
    forall k | 0 <= k < |table'|
      ensures FileOk(st, table'[k], files'[k], ds, ss)
    {
    }
    forall j: nat, k: nat | j < |table'| && k < |table'|
      ensures FilesApart(table', files', ds, j, k)
    {
      if j < |table| && k < |table| {
        assert FilesApart(table, files, ds, j, k);
      } else if j != k {
        var old' := if j < |table| then j else k;
        NewFileApart(st0, st, table[old'], files[old'], f, flat, ds, ss);
      }
    }
  }

  lemma EmptyFileOk(st0: State, st: State, f: IAttr, flat: FlatFile, ds: nat, ss: nat)
    requires 0 < ss && Shape(st0, ds) && |st0.disks| == ds && Shape(st, ds) && |st.disks| == ds
    requires Addressed(f, ds) && f.stripeCnt == Groups(ds) && FreshCopies(st0, st, f)
    requires flat.FlatFile? ==>
               WellFormed(f, ds) && FreshFile(st0, st, f) && flat == FlatFile([], GroupLens(0, ss, Groups(ds)))
    ensures FileOk(st, f, flat, ds, ss)
  {
    hide HasExtent, Extent, FileByte;
    if flat.FlatFile? {
      forall e: nat | e < 2 * f.stripeCnt
        ensures HoldsGroup(ExtentOf(st, f, e), GroupOf(e, f.stripeCnt), [], ss, f.stripeCnt)
      {
        assert ExtentOf(st, f, e) == [];
      }
    }
  }

  lemma NewFileApart(st0: State, st: State, earlier: IAttr, before: FlatFile, f: IAttr, flat: FlatFile, ds: nat,
                     ss: nat)
    requires 0 < ss && Shape(st0, ds) && |st0.disks| == ds && Shape(st, ds) && |st.disks| == ds
    requires FileOk(st0, earlier, before, ds, ss) && Addressed(f, ds) && FreshCopies(st0, st, f)
    requires flat.FlatFile? ==> HFS_INVALID_HANDLE !in f.handles
    ensures (before.OverMeta? && flat.OverMeta?) || (Apart(earlier, f) && Apart(f, earlier))
  {
    hide HasExtent, Extent, HoldsGroup, Lengths;
    forall s: nat, h: u32 | Owns(earlier, s, h) && h != HFS_INVALID_HANDLE
      ensures s < ds && HasExtent(st0.disks[s], h)
    {
      var e :| 0 <= e < |earlier.srvs| && earlier.srvs[e] == s && earlier.handles[e] == h;
    }
    forall s: nat, h: u32 | Owns(f, s, h) && h != HFS_INVALID_HANDLE
      ensures s < ds && !HasExtent(st0.disks[s], h)
    {
      var e :| 0 <= e < |f.srvs| && f.srvs[e] == s && f.handles[e] == h;
    }
  }

  // ---------------------------------------------------------------------------------------------
  // Handles

  /** Handles that an operation may take from a server: a create places two copies there at most. */
  function HandlesFor(op: Op): nat {
    if op.Create? then TOTAL_COPIES else 0
  }

  function HandlesOf(ops: seq<Op>): nat {
    if ops == [] then 0 else HandlesFor(ops[0]) + HandlesOf(ops[1..])
  }

  predicate NoneOverMeta(files: seq<FlatFile>) {
    forall k :: 0 <= k < |files| ==> files[k].FlatFile?
  }

  /** A write to a proper file takes no handle from any server. */
  lemma WriteDraws(st0: State, st: State, f: IAttr, flat: FlatFile, ds: nat, ss: nat)
    requires 0 < ss && Shape(st0, ds) && |st0.disks| == ds && Shape(st, ds) && |st.disks| == ds
    requires flat.FlatFile? && FileOk(st0, f, flat, ds, ss) && Untouched(st0, st, f)
    ensures Drawn(st0, st, 0)
  {
    hide FileOk, Untouched, Supply;
    forall s: nat | s < ds
      ensures DrawnAt(st0.disks[s], st.disks[s], 0)
    {
      forall m: nat | Supply(st0.disks[s], m)
        ensures Supply(st.disks[s], m)
      {
        WriteKeepsSupply(st0, st, f, flat, ds, ss, s, m);
      }
    }
  }

  lemma WriteKeepsSupply(st0: State, st: State, f: IAttr, flat: FlatFile, ds: nat, ss: nat, s: nat, m: nat)
    requires 0 < ss && Shape(st0, ds) && |st0.disks| == ds && Shape(st, ds) && |st.disks| == ds && s < ds
    requires flat.FlatFile? && FileOk(st0, f, flat, ds, ss) && Untouched(st0, st, f) && Supply(st0.disks[s], m)
    ensures Supply(st.disks[s], m)
  {
    hide Extent, HdlToFileName, HoldsGroup, Lengths;
    assert !Owns(f, s, HFS_INVALID_HANDLE);
    SameCounter(st0.disks[s], st.disks[s]);
    forall h: u32 | h > Counter(st0.disks[s])
      ensures !HasExtent(st.disks[s], h)
    {
      assert !Owns(f, s, h);
    }
  }

  // ---------------------------------------------------------------------------------------------
  // Running

  ghost predicate SomeDown(st: State) {
    exists s :: 0 <= s < |st.up| && !st.up[s]
  }

  /** A server on which a create that starts with the random number `r` places a copy will not serve both
      of its requests with a handle of their own. */
  ghost predicate RunsDry(st: State, r: nat, ds: nat)
    requires |st.disks| == ds > 0
  {
    exists j :: 0 <= j < Groups(ds) && !FreeNext(st.disks[Placed(j, r % ds, Groups(ds), ds)], TOTAL_COPIES)
  }

  /** What may make a create fail, or make it succeed with a file over a meta file. */
  ghost predicate CreateRule(st0: State, st: State, op: Op, out: Outcome, ds: nat)
    requires |st0.disks| == ds > 0
  {
    op.Create? ==>
      && (out.CreateFailed? ==> ds < HFS_MIN_STRIPE_CNT || SomeDown(st))
      && (!out.CreateFailed? ==> (out.CreatedOverMeta? <==> RunsDry(st0, op.r, ds)))
  }

  /** One operation of a run on the open files in `table`. */
  method Perform(c: Client, table: seq<IAttr>, op: Op, ghost files: seq<FlatFile>)
    returns (table': seq<IAttr>, out: Outcome)
    requires c.Valid() && 0 < |c.servers| && Legal(op, |c.servers|, c.ss)
    requires RunInv(c.St(), table, files, |c.servers|, c.ss)
    modifies c.servers
    ensures Expected(files, op, out)
    ensures RunInv(c.St(), table', Apply(files, op, out, |c.servers|, c.ss), |c.servers|, c.ss)
    ensures OnlyStops(old(c.St()).up, c.St().up)
    ensures NoneOverMeta(files) ==> Drawn(old(c.St()), c.St(), HandlesFor(op))
    ensures CreateRule(old(c.St()), c.St(), op, out, |c.servers|)
  {
    match op {
      case Create(r) => table', out := PerformCreate(c, table, r, files);
      case WriteAt(_, _, _, _, _) =>
        table' := table;
        out := PerformWrite(c, table, op, files);
      case ReadAt(_, _, _) =>
        table' := table;
        out := PerformRead(c, table, op, files);
      case SizeOf(_) =>
        table' := table;
        out := PerformSize(c, table, op, files);
    }
  }

  method PerformCreate(c: Client, table: seq<IAttr>, r: nat, ghost files: seq<FlatFile>)
    returns (table': seq<IAttr>, out: Outcome)
    requires c.Valid() && 0 < |c.servers|
    requires RunInv(c.St(), table, files, |c.servers|, c.ss)
    modifies c.servers
    ensures Expected(files, Create(r), out)
    ensures RunInv(c.St(), table', Apply(files, Create(r), out, |c.servers|, c.ss), |c.servers|, c.ss)
    ensures OnlyStops(old(c.St()).up, c.St().up)
    ensures Drawn(old(c.St()), c.St(), TOTAL_COPIES)
    ensures CreateRule(old(c.St()), c.St(), Create(r), out, |c.servers|)
  {
    hide Mirrors, Lengths, WellFormed, GroupLens, Kept, FreshFile, FreshCopies, AtMostOneDown, OnlyStops, Apart,
         AllSupplied, Placed,
         Drawn, FileOk, FilesApart, FreeNext, RunInv, Addressed;
    ghost var st0 := c.St();
    ghost var ds := |c.servers|;
    RunIsSafe(st0, table, files, ds, c.ss);
    var status, attr := c.CreateAllocDataHandle(r);
    table' := table;
    CreateKeeps(st0, c.St(), table, files, ds, c.ss);
    if status != Success {
      out := CreateFailed;
    } else {
      AttrIs(attr, ds);
      DryExactly(st0, attr, r, ds);
      ghost var flat := if HFS_INVALID_HANDLE in attr.handles then OverMeta
                        else FlatFile([], GroupLens(0, c.ss, Groups(ds)));
      CreateAdds(st0, c.St(), table, files, attr, flat, ds, c.ss);
      table' := table + [attr];
      out := if HFS_INVALID_HANDLE in attr.handles then CreatedOverMeta(|table|) else Created(|table|);
    }
  }

  lemma RunIsSafe(st: State, table: seq<IAttr>, files: seq<FlatFile>, ds: nat, ss: nat)
    requires 0 < ss && Shape(st, ds) && |st.disks| == ds && RunInv(st, table, files, ds, ss)
    ensures |table| == |files|
  {
  }

  lemma AttrIs(f: IAttr, ds: nat)
    requires Addressed(f, ds)
    ensures 0 < f.stripeCnt && |f.srvs| == |f.handles| == 2 * f.stripeCnt && forall k :: 0 <= k < |f.srvs| ==>
            f.srvs[k] < ds
  {
  }

  lemma DryExactly(st: State, f: IAttr, r: nat, ds: nat)
    requires |st.disks| == ds > 0 && f.stripeCnt == Groups(ds) && |f.srvs| == 2 * f.stripeCnt
    requires forall k :: 0 <= k < |f.srvs| ==> f.srvs[k] < ds && f.srvs[k] == Placed(k, r % ds, f.stripeCnt, ds)
    ensures RunsDry(st, r, ds) <==> exists j :: 0 <= j < f.stripeCnt && !FreeNext(st.disks[f.srvs[j]], TOTAL_COPIES)
  {
    hide Placed, FreeNext;
  }

  method PerformWrite(c: Client, table: seq<IAttr>, op: Op, ghost files: seq<FlatFile>) returns (out: Outcome)
    requires c.Valid() && 0 < |c.servers| && Legal(op, |c.servers|, c.ss) && op.WriteAt?
    requires RunInv(c.St(), table, files, |c.servers|, c.ss)
    modifies c.servers
    ensures Expected(files, op, out)
    ensures RunInv(c.St(), table, Apply(files, op, out, |c.servers|, c.ss), |c.servers|, c.ss)
    ensures OnlyStops(old(c.St()).up, c.St().up)
    ensures NoneOverMeta(files) ==> Drawn(old(c.St()), c.St(), 0)
  {
    hide Mirrors, Lengths, WellFormed, Capacity, StripeCount, Effective, WrittenLens, PWrite, Untouched, NoneLost,
         AtMostOneDown, OnlyStops, Apart, AllSupplied, Drawn, OwnCopiesExist;
    ghost var (st0, ds) := (c.St(), |c.servers|);
    var k := op.file;
    NothingHappened(st0);
    NothingDrawn(st0, st0, 0);
    if k >= |table| {
      return NoSuchFile;
    }
    ghost var file := files[k];
    assert FileOk(st0, table[k], file, ds, c.ss);
    var size := c.Write(table[k], op.data, op.bufferAddr, op.extentAddrs, op.offset,
                        if file.FlatFile? then file.bytes else [], if file.FlatFile? then file.lens else []);
    out := Written(size);
    OwnCopiesStay(st0, c.St(), table[k]);
    if file.FlatFile? {
      WriteDraws(st0, c.St(), table[k], file, ds, c.ss);
    }
    if op.data != [] {
      ghost var flat := Put(file, op.offset, Effective(op.data, op.offset, c.ss, op.bufferAddr, op.extentAddrs), c.ss);
      assert FileOk(c.St(), table[k], flat, ds, c.ss);
      WriteKeeps(st0, c.St(), table, files, k, flat, ds, c.ss);
    }
  }

  lemma OwnCopiesStay(st0: State, st: State, f: IAttr)
    requires Addressed(f, |st0.disks|) && OwnCopiesExist(st0, f) && Shape(st0, |st0.disks|) && OnlyWrites(st0, st, f)
    ensures OwnCopiesExist(st, f)
  {
    hide HasExtent, Extent;
  }

  method PerformRead(c: Client, table: seq<IAttr>, op: Op, ghost files: seq<FlatFile>) returns (out: Outcome)
    requires c.Valid() && 0 < |c.servers| && Legal(op, |c.servers|, c.ss) && op.ReadAt?
    requires RunInv(c.St(), table, files, |c.servers|, c.ss)
    modifies c.servers
    ensures Expected(files, op, out)
    ensures RunInv(c.St(), table, files, |c.servers|, c.ss)
    ensures OnlyStops(old(c.St()).up, c.St().up) && Drawn(old(c.St()), c.St(), 0)
  {
    hide Mirrors, Lengths, WellFormed, Capacity, Window, AtMostOneDown, OnlyStops, Apart, FilesApart, Drawn,
         OwnCopiesExist;
    ghost var (st0, ds) := (c.St(), |c.servers|);
    var k := op.file;
    NothingHappened(st0);
    NothingDrawn(st0, st0, 0);
    if k >= |table| {
      return NoSuchFile;
    }
    assert FileOk(st0, table[k], files[k], ds, c.ss);
    var buffer := new byte[op.size];
    var n := c.Read(table[k], buffer, op.offset, op.size, if files[k].FlatFile? then files[k].bytes else []);
    out := Content(buffer[..op.size]);
    ReadKeeps(st0, c.St(), table, files, ds, c.ss);
    NothingDrawn(st0, c.St(), 0);
  }

  method PerformSize(c: Client, table: seq<IAttr>, op: Op, ghost files: seq<FlatFile>) returns (out: Outcome)
    requires c.Valid() && 0 < |c.servers| && op.SizeOf?
    requires RunInv(c.St(), table, files, |c.servers|, c.ss)
    modifies c.servers
    ensures Expected(files, op, out)
    ensures RunInv(c.St(), table, files, |c.servers|, c.ss)
    ensures OnlyStops(old(c.St()).up, c.St().up) && Drawn(old(c.St()), c.St(), 0)
  {
    hide Mirrors, Lengths, WellFormed, AtMostOneDown, OnlyStops, Apart, FilesApart, Drawn, Sum, AllExist,
         OwnCopiesExist;
    ghost var (st0, ds) := (c.St(), |c.servers|);
    var k := op.file;
    NothingHappened(st0);
    NothingDrawn(st0, st0, 0);
    if k >= |table| {
      return NoSuchFile;
    }
    assert FileOk(st0, table[k], files[k], ds, c.ss);
    if files[k].FlatFile? {
      MirrorsExist(st0, table[k], files[k].bytes, c.ss);
    }
    var size := c.GetISize(table[k], if files[k].FlatFile? then files[k].lens else []);
    out := Sized(size);
    ReadKeeps(st0, c.St(), table, files, ds, c.ss);
    NothingDrawn(st0, c.St(), 0);
  }

  lemma StaysUp(st0: State, st: State)
    requires Shape(st0, |st0.disks|) && Shape(st, |st0.disks|) && OnlyStops(st0.up, st.up)
    ensures SomeDown(st0) ==> SomeDown(st)
  {
  }

  /** With handles for all creates of the run at the start, every file so far is a proper one, and no create has
      failed on servers that are all up. */
  ghost predicate Served(start: State, st: State, files: seq<FlatFile>, outs: seq<Outcome>, ops: seq<Op>) {
    && |outs| <= |ops|
    && (AllSupplied(start, HandlesOf(ops)) ==>
          && AllSupplied(st, HandlesOf(ops[|outs|..]))
          && NoneOverMeta(files)
          && (|start.disks| >= HFS_MIN_STRIPE_CNT && !SomeDown(st) ==> CreateFailed !in outs))
  }

  lemma ServedNext(start: State, st: State, st': State, files: seq<FlatFile>, files': seq<FlatFile>, outs: seq<Outcome>,
                   out: Outcome, ops: seq<Op>, ds: nat, ss: nat)
    requires |start.disks| == |st.disks| == ds > 0 && |outs| < |ops| && Served(start, st, files, outs, ops)
    requires var op := ops[|outs|];
             0 < ss && Legal(op, ds, ss) && Expected(files, op, out) && files' == Apply(files, op, out, ds, ss) &&
             (NoneOverMeta(files) ==> Drawn(st, st', HandlesFor(op))) && CreateRule(st, st', op, out, ds)
    requires SomeDown(st) ==> SomeDown(st')
    ensures Served(start, st', files', outs + [out], ops)
  {
    var (op, rest) := (ops[|outs|], ops[|outs| + 1..]);
    hide SomeDown, AllSupplied, Drawn, Legal, RunsDry, GroupLens, WrittenLens, PWrite, Effective;
    assert ops[|outs|..][1..] == rest;
    if AllSupplied(start, HandlesOf(ops)) {
      DrawnSupplies(st, st', HandlesFor(op), HandlesOf(rest));
      if op.Create? {
        AllLess(st, HandlesOf(rest) + TOTAL_COPIES, TOTAL_COPIES);
        NeverDry(st, op.r, ds);
      }
    }
  }

  lemma AllLess(st: State, m: nat, m': nat)
    requires AllSupplied(st, m) && m' <= m
    ensures AllSupplied(st, m')
  {
    hide Supply;
    forall s | 0 <= s < |st.disks|
      ensures Supply(st.disks[s], m')
    {
      LessSupply(st.disks[s], m, m');
    }
  }

  lemma NeverDry(st: State, r: nat, ds: nat)
    requires |st.disks| == ds > 0 && AllSupplied(st, TOTAL_COPIES)
    ensures !RunsDry(st, r, ds)
  {
    forall s | 0 <= s < ds
      ensures FreeNext(st.disks[s], TOTAL_COPIES)
    {
      assert Supply(st.disks[s], TOTAL_COPIES);
    }
  }

  /** Every outcome so far is the one the flat files call for. */
  ghost predicate Agree(ops: seq<Op>, outs: seq<Outcome>, ds: nat, ss: nat)
    requires 0 < ss && 0 < ds && AllLegal(ops, ds, ss) && |outs| <= |ops|
  {
    forall k :: 0 <= k < |outs| ==> Expected(Replay(ops[..k], outs[..k], ds, ss), ops[k], outs[k])
  }

  lemma AgreeNext(ops: seq<Op>, outs: seq<Outcome>, out: Outcome, ds: nat, ss: nat)
    requires 0 < ss && 0 < ds && AllLegal(ops, ds, ss) && |outs| < |ops| && Agree(ops, outs, ds, ss)
    requires Expected(Replay(ops[..|outs|], outs, ds, ss), ops[|outs|], out)
    ensures Agree(ops, outs + [out], ds, ss)
  {
    hide Expected, Replay, Legal;
    assert forall k :: 0 <= k < |outs| ==> (outs + [out])[..k] == outs[..k];
    assert (outs + [out])[..|outs|] == outs;
  }

  /** Any run: whatever order the workers send in, and whichever single server stops whenever, every
      outcome is that of the flat files. If every server has two handles left for each create of the run,
      every created file is a proper one, and if all of them stay up as well no create fails. A file over a
      meta file harms no other. */
  method Run(c: Client, ops: seq<Op>) returns (outs: seq<Outcome>)
    requires c.Valid() && 0 < |c.servers| && AllLegal(ops, |c.servers|, c.ss)
    requires AtMostOneDown(c.St().up)
    modifies c.servers
    ensures |outs| == |ops|
    ensures Agree(ops, outs, |c.servers|, c.ss)
    ensures AllSupplied(old(c.St()), HandlesOf(ops)) ==>
              NoneOverMeta(Replay(ops, outs, |c.servers|, c.ss))
    ensures |c.servers| >= HFS_MIN_STRIPE_CNT && AllSupplied(old(c.St()), HandlesOf(ops)) && !SomeDown(c.St()) ==>
              CreateFailed !in outs
  {
    outs := [];
    ghost var start := c.St();
    var table: seq<IAttr> := [];
    for k := 0 to |ops|
      invariant |outs| == k
      invariant RunInv(c.St(), table, Replay(ops[..k], outs, |c.servers|, c.ss), |c.servers|, c.ss)
      invariant Agree(ops, outs, |c.servers|, c.ss)
      invariant Served(start, c.St(), Replay(ops[..k], outs, |c.servers|, c.ss), outs, ops)
    {
      hide Expected, RunInv, Apply, Legal, AllSupplied, SomeDown, OnlyStops, Drawn, Served, CreateRule, NoneOverMeta,
           Agree, HandlesFor;
      ghost var before, st := outs, c.St();
      ghost var files := Replay(ops[..k], outs, |c.servers|, c.ss);
      var table', out := Perform(c, table, ops[k], files);
      StaysUp(st, c.St());
      AgreeNext(ops, outs, out, |c.servers|, c.ss);
      table, outs := table', outs + [out];
      assert ops[..k + 1][..k] == ops[..k] && outs[..k] == before;
      ServedNext(start, st, c.St(), files, Replay(ops[..k + 1], outs, |c.servers|, c.ss), before, out, ops,
                 |c.servers|, c.ss);
    }
    assert ops[..|ops|] == ops;
  }

  // ---------------------------------------------------------------------------------------------
  // File sizes over a run

  /** The extents of the file account for exactly its bytes. */
  ghost predicate Gapless(flat: FlatFile, n: nat, ss: nat)
    requires 0 < ss && 0 < n
  {
    flat.FlatFile? ==> flat.lens == GroupLens(|flat.bytes|, ss, n)
  }

  /** Every write of the run starts at or before the end its file has by then. */
  ghost predicate NoHoles(ops: seq<Op>, outs: seq<Outcome>, ds: nat, ss: nat)
    requires 0 < ss && 0 < ds && AllLegal(ops, ds, ss) && |outs| == |ops|
  {
    forall k :: 0 <= k < |ops| ==> StartsInside(Replay(ops[..k], outs[..k], ds, ss), ops[k])
  }

  predicate StartsInside(files: seq<FlatFile>, op: Op) {
    op.WriteAt? && op.file < |files| && files[op.file].FlatFile? ==> op.offset <= |files[op.file].bytes|
  }

  lemma NoHolesPrefix(ops: seq<Op>, outs: seq<Outcome>, ds: nat, ss: nat)
    requires 0 < ss && 0 < ds && AllLegal(ops, ds, ss) && |outs| == |ops| && NoHoles(ops, outs, ds, ss) && ops != []
    ensures var m := |ops| - 1;
            NoHoles(ops[..m], outs[..m], ds, ss) && StartsInside(Replay(ops[..m], outs[..m], ds, ss), ops[m])
  {
    hide Replay, StartsInside, Legal;
    var m := |ops| - 1;
    forall k | 0 <= k < m
      ensures StartsInside(Replay(ops[..m][..k], outs[..m][..k], ds, ss), ops[..m][k])
    {
      assert ops[..m][..k] == ops[..k] && outs[..m][..k] == outs[..k];
    }
  }

  lemma GaplessStep(files: seq<FlatFile>, op: Op, out: Outcome, ds: nat, ss: nat, file: nat)
    requires 0 < ss && 0 < ds && Legal(op, ds, ss) && StartsInside(files, op)
    requires file < |Apply(files, op, out, ds, ss)|
    requires file < |files| ==> Gapless(files[file], Groups(ds), ss)
    ensures Gapless(Apply(files, op, out, ds, ss)[file], Groups(ds), ss)
  {
    hide GroupLens, WrittenLens, PWrite, Effective;
    if file < |files| && files[file].FlatFile? && op.WriteAt? && op.file == file && op.data != [] {
      SizeConserved(|files[file].bytes|, op.offset, |op.data|, ss, Groups(ds));
    }
  }

  lemma {:induction false} AllGapless(ops: seq<Op>, outs: seq<Outcome>, ds: nat, ss: nat, file: nat)
    requires 0 < ss && 0 < ds && AllLegal(ops, ds, ss) && |outs| == |ops| && NoHoles(ops, outs, ds, ss)
    requires file < |Replay(ops, outs, ds, ss)|
    ensures Gapless(Replay(ops, outs, ds, ss)[file], Groups(ds), ss)
    decreases |ops|
  {
    var m := |ops| - 1;
    var files := Replay(ops[..m], outs[..m], ds, ss);
    NoHolesPrefix(ops, outs, ds, ss);
    hide Gapless, Apply, NoHoles, StartsInside, Legal;
    if file < |files| {
      AllGapless(ops[..m], outs[..m], ds, ss, file);
    }
    GaplessStep(files, ops[m], outs[m], ds, ss, file);
  }

  /** After such a run the size of every proper file, as the client adds it up, is its length. */
  lemma SizesConserved(ops: seq<Op>, outs: seq<Outcome>, ds: nat, ss: nat, file: nat)
    requires 0 < ss && 0 < ds && AllLegal(ops, ds, ss) && |outs| == |ops| && NoHoles(ops, outs, ds, ss)
    requires file < |Replay(ops, outs, ds, ss)| && Replay(ops, outs, ds, ss)[file].FlatFile?
    ensures Sum(Replay(ops, outs, ds, ss)[file].lens) == |Replay(ops, outs, ds, ss)[file].bytes|
  {
    AllGapless(ops, outs, ds, ss, file);
    hide Replay, NoHoles, GroupLens, Sum, Legal;
    SumGroupLens(|Replay(ops, outs, ds, ss)[file].bytes|, ss, Groups(ds));
  }

  // ---------------------------------------------------------------------------------------------
  // The user's own bytes

  /** The copy guard drops no byte of this write that is not zero. */
  ghost predicate Faithful(op: Op, ds: nat, ss: nat)
    requires 0 < ss && 0 < ds && Legal(op, ds, ss)
  {
    op.WriteAt? && op.data != [] ==> DroppedAreZero(op.data, op.offset, ss, op.bufferAddr, op.extentAddrs)
  }

  /** The flat files if every write stored the user's bytes. */
  function PlainApply(files: seq<FlatFile>, op: Op, out: Outcome, ds: nat, ss: nat): seq<FlatFile>
    requires 0 < ss && 0 < ds && Legal(op, ds, ss)
  {
    if op.WriteAt? && op.file < |files| && op.data != [] then
      files[op.file := Put(files[op.file], op.offset, op.data, ss)]
    else Apply(files, op, out, ds, ss)
  }

  function PlainReplay(ops: seq<Op>, outs: seq<Outcome>, ds: nat, ss: nat): seq<FlatFile>
    requires 0 < ss && 0 < ds && AllLegal(ops, ds, ss) && |outs| == |ops|
  {
    if ops == [] then []
    else
      var m := |ops| - 1;
      PlainApply(PlainReplay(ops[..m], outs[..m], ds, ss), ops[m], outs[m], ds, ss)
  }

  /** A run whose writes all pass the guard, or lose zeros only, shows its user what the user wrote. */
  lemma {:induction false} PlainRun(ops: seq<Op>, outs: seq<Outcome>, ds: nat, ss: nat)
    requires 0 < ss && 0 < ds && AllLegal(ops, ds, ss) && |outs| == |ops|
    requires forall k :: 0 <= k < |ops| ==> Faithful(ops[k], ds, ss)
    ensures Replay(ops, outs, ds, ss) == PlainReplay(ops, outs, ds, ss)
    decreases |ops|
  {
    if ops != [] {
      var m := |ops| - 1;
      PlainRun(ops[..m], outs[..m], ds, ss);
      PlainStep(Replay(ops[..m], outs[..m], ds, ss), ops[m], outs[m], ds, ss);
      hide Apply, PlainApply, Faithful, Legal;
    }
  }

  lemma PlainStep(files: seq<FlatFile>, op: Op, out: Outcome, ds: nat, ss: nat)
    requires 0 < ss && 0 < ds && Legal(op, ds, ss) && Faithful(op, ds, ss)
    ensures Apply(files, op, out, ds, ss) == PlainApply(files, op, out, ds, ss)
  {
    hide Effective, DroppedAreZero, Put, StripeCount;
    if op.WriteAt? && op.data != [] {
      EffectiveExact(op.data, op.offset, ss, op.bufferAddr, op.extentAddrs);
    }
  }

  /** And so every read of a proper file returns the window of what its user wrote. */
  lemma ReadsBackOwnBytes(ops: seq<Op>, outs: seq<Outcome>, ds: nat, ss: nat, k: nat)
    requires 0 < ss && 0 < ds && AllLegal(ops, ds, ss) && |outs| == |ops| && k < |ops| && ops[k].ReadAt?
    requires forall j :: 0 <= j < |ops| ==> Faithful(ops[j], ds, ss)
    requires Expected(Replay(ops[..k], outs[..k], ds, ss), ops[k], outs[k])
    ensures var files := PlainReplay(ops[..k], outs[..k], ds, ss);
            ops[k].file < |files| && files[ops[k].file].FlatFile? ==>
              outs[k] == Content(Window(files[ops[k].file].bytes, ops[k].offset, ops[k].size))
  {
    hide Faithful, Legal, Replay, PlainReplay;
    PlainRun(ops[..k], outs[..k], ds, ss);
  }
}
