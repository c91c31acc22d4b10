/** The state of all data servers as seen by one striped file: what its extents must hold, and how a
    single extent write moves a copy of the file towards the written content. */
module Stripes {
  import opened Arith
  import opened Bytes
  import opened Layout
  import opened DataServers

  /** The part of an inode that places its data: extents 0..n-1 are primaries, n..2n-1 backups. */
  datatype IAttr = IAttr(stripeCnt: nat, srvs: seq<nat>, handles: seq<u32>)

  datatype State = State(up: seq<bool>, disks: seq<Disk>)

  /** Every copy of every group has a server and a handle, whatever the handle may be. */
  ghost predicate Addressed(f: IAttr, ds: nat) {
    var n := f.stripeCnt;
    && 0 < n <= HFS_MAX_STRIPE_CNT
    && |f.srvs| == |f.handles| == 2 * n
    && (forall e :: 0 <= e < 2 * n ==> f.srvs[e] < ds)
  }

  /** No copy is the meta file of its server, the two copies of a group are apart, and no extent serves twice. */
  ghost predicate WellFormed(f: IAttr, ds: nat) {
    var n := f.stripeCnt;
    && Addressed(f, ds)
    && (forall e :: 0 <= e < 2 * n ==> f.handles[e] != HFS_INVALID_HANDLE)
    && (forall g :: 0 <= g < n ==> f.srvs[g] != f.srvs[g + n])
    && (forall d, e :: 0 <= d < e < 2 * n ==> f.srvs[d] != f.srvs[e] || f.handles[d] != f.handles[e])
  }

  ghost predicate Owns(f: IAttr, s: nat, h: u32)
    requires |f.srvs| == |f.handles|
  {
    exists e :: 0 <= e < |f.srvs| && f.srvs[e] == s && f.handles[e] == h
  }

  ghost predicate Shape(st: State, ds: nat) {
    |st.up| == |st.disks| == ds
  }

  function GroupOf(e: nat, n: nat): nat {
    if e < n then e else e - n
  }

  function ExtentOf(st: State, f: IAttr, e: nat): seq<byte>
    requires e < |f.srvs| == |f.handles| && f.srvs[e] < |st.disks|
  {
    Extent(st.disks[f.srvs[e]], f.handles[e])
  }

  /** `ext` holds the bytes of stripe group `g` of the zero-filled file `flat`. */
  ghost predicate HoldsGroup(ext: seq<byte>, g: nat, flat: seq<byte>, ss: nat, n: nat)
    requires 0 < ss && g < n
  {
    forall q: nat :: At(ext, q) == At(flat, FileByte(g, q, ss, n))
  }

  /** Every extent exists, and every copy on a live server holds its group of `flat`. */
  ghost predicate Mirrors(st: State, f: IAttr, flat: seq<byte>, ss: nat)
    requires 0 < ss && WellFormed(f, |st.disks|) && Shape(st, |st.disks|)
  {
    forall e: nat :: e < 2 * f.stripeCnt ==>
      && HasExtent(st.disks[f.srvs[e]], f.handles[e])
      && (st.up[f.srvs[e]] ==> HoldsGroup(ExtentOf(st, f, e), GroupOf(e, f.stripeCnt), flat, ss, f.stripeCnt))
  }

  /** On every live server, the extent of each copy of group `g` has length `lens[g]`. */
  ghost predicate Lengths(st: State, f: IAttr, lens: seq<nat>)
    requires WellFormed(f, |st.disks|) && Shape(st, |st.disks|)
  {
    && |lens| == f.stripeCnt
    && (forall e: nat :: e < 2 * f.stripeCnt && st.up[f.srvs[e]] ==>
          |ExtentOf(st, f, e)| == lens[GroupOf(e, f.stripeCnt)])
  }

  // ---------------------------------------------------------------------------------------------
  // Failures: servers stop, at most one of them, and never come back

  ghost predicate AtMostOneDown(up: seq<bool>) {
    forall i, j :: 0 <= i < |up| && 0 <= j < |up| && !up[i] && !up[j] ==> i == j
  }

  ghost predicate OnlyStops(up: seq<bool>, up': seq<bool>) {
    && |up'| == |up|
    && (forall i :: 0 <= i < |up| && up'[i] ==> up[i])
    && (AtMostOneDown(up) ==> AtMostOneDown(up'))
  }

  /** One request sent to server `s`: some server may stop first; a live server executes the request,
      a stopped one makes the send fail. */
  ghost predicate Sent(st: State, st': State, s: nat, ss: u32, req: Request, r: Reply)
    requires Shape(st, |st.disks|) && s < |st.disks|
  {
    && Shape(st', |st.disks|)
    && OnlyStops(st.up, st'.up)
    && (if st'.up[s] then
          st'.disks == st.disks[s := Exec(st.disks[s], ss, req).0] && r == Exec(st.disks[s], ss, req).1
        else st'.disks == st.disks && r.status == TransmissionFailed)
  }

  // ---------------------------------------------------------------------------------------------
  // One copy of one group while the slices of a write reach it, in any order

  /** Slice `i` of `data` as the client puts it into a request. */
  function SliceData(i: nat, off: nat, data: seq<byte>, ss: nat): (r: seq<byte>)
    requires 0 < ss && 0 < |data| && i < StripeCount(off, |data|, ss)
    ensures |r| == SliceSize(i, off, |data|, ss) > 0
  {
    assert off <= Lo(i, off, ss) < Hi(i, off, |data|, ss) <= off + |data| &&
           SliceSize(i, off, |data|, ss) == Hi(i, off, |data|, ss) - Lo(i, off, ss) by {
      SliceExact(i, off, |data|, ss);
    }
    data[Lo(i, off, ss) - off..Hi(i, off, |data|, ss) - off]
  }

  /** An extent of length `len0` grows just far enough to hold the slices in `done`. */
  ghost predicate Reached(len0: nat, len: nat, g: nat, off: nat, size: nat, ss: nat, n: nat, done: set<nat>)
    requires 0 < ss && g < n && 0 < size
  {
    && len0 <= len
    && (forall i :: i in done && SliceGroup(i, off, ss, n) == g ==> EndOf(i, off, size, ss, n) <= len)
    && (len == len0 || exists i :: i in done && SliceGroup(i, off, ss, n) == g && len == EndOf(i, off, size, ss, n))
  }

  function Expected(ext0: seq<byte>, g: nat, off: nat, data: seq<byte>, ss: nat, n: nat, done: set<nat>, q: nat): byte
    requires 0 < ss && g < n && 0 < |data|
  {
    var p := FileByte(g, q, ss, n);
    if off <= p < off + |data| && SliceIndex(p, off, ss) in done then data[p - off] else At(ext0, q)
  }

  /** `ext` is `ext0` with the slices in `done` of the write of `data` at `off` applied: content and length. */
  ghost predicate Advanced(ext0: seq<byte>, ext: seq<byte>, g: nat, off: nat, data: seq<byte>, ss: nat, n: nat,
                           done: set<nat>)
    requires 0 < ss && g < n && 0 < |data|
  {
    && (forall q: nat :: At(ext, q) == Expected(ext0, g, off, data, ss, n, done, q))
    && Reached(|ext0|, |ext|, g, off, |data|, ss, n, done)
  }

  /** Writing slice `i` into the extent of its group. */
  lemma AdvanceOwn(ext0: seq<byte>, ext: seq<byte>, start: nat, g: nat, off: nat, data: seq<byte>, ss: nat, n: nat,
                   done: set<nat>, i: nat)
    requires 0 < ss && 0 < n && 0 < |data| && i < StripeCount(off, |data|, ss)
    requires g == SliceGroup(i, off, ss, n) < n && start == StartOf(i, off, |data|, ss, n)
    requires Advanced(ext0, ext, g, off, data, ss, n, done)
    ensures Advanced(ext0, PWrite(ext, start, SliceData(i, off, data, ss)), g, off, data, ss, n, done + {i})
  {
    hide Expected, SliceData, StripeCount, SliceSize, SliceGroup, StartOf;
    var ext' := PWrite(ext, start, SliceData(i, off, data, ss));
    forall q: nat
      ensures At(ext', q) == Expected(ext0, g, off, data, ss, n, done + {i}, q)
    {
      OwnByte(ext0, ext, start, i, g, q, off, data, ss, n, done);
    }
    ReachOwn(|ext0|, |ext|, |ext'|, g, off, |data|, ss, n, done, i);
  }

  lemma OwnByte(ext0: seq<byte>, ext: seq<byte>, start: nat, i: nat, g: nat, q: nat, off: nat, data: seq<byte>, ss: nat,
                n: nat,
                done: set<nat>)
    requires 0 < ss && 0 < |data| && i < StripeCount(off, |data|, ss)
    requires g < n && g == SliceGroup(i, off, ss, n) && start == StartOf(i, off, |data|, ss, n)
    requires At(ext, q) == Expected(ext0, g, off, data, ss, n, done, q)
    ensures At(PWrite(ext, start, SliceData(i, off, data, ss)), q) ==
            Expected(ext0, g, off, data, ss, n, done + {i}, q)
  {
    hide FileByte, SliceIndex, SliceGroup, StripeCount, SliceSize, Lo, Hi, StartOf;
    SliceExact(i, off, |data|, ss);
    PWriteAt(ext, start, SliceData(i, off, data, ss), q);
    SlicePositions(i, g, q, off, |data|, ss, n);
  }

  lemma ReachOwn(len0: nat, len: nat, len': nat, g: nat, off: nat, size: nat, ss: nat, n: nat, done: set<nat>, i: nat)
    requires 0 < ss && 0 < size && g < n && SliceGroup(i, off, ss, n) == g
    requires Reached(len0, len, g, off, size, ss, n, done)
    requires len' == Max(len, EndOf(i, off, size, ss, n))
    ensures Reached(len0, len', g, off, size, ss, n, done + {i})
  {
    hide SliceGroup, StartOf, SliceSize, EndOf;
  }

  /** Writing slice `i` elsewhere does not concern the extent of another group. */
  lemma AdvanceOther(ext0: seq<byte>, ext: seq<byte>, g: nat, off: nat, data: seq<byte>, ss: nat, n: nat,
                     done: set<nat>, i: nat)
    requires 0 < ss && g < n && 0 < |data| && i < StripeCount(off, |data|, ss)
    requires Advanced(ext0, ext, g, off, data, ss, n, done) && SliceGroup(i, off, ss, n) != g
    ensures Advanced(ext0, ext, g, off, data, ss, n, done + {i})
  {
    hide FileByte, SliceIndex, SliceGroup, StripeCount, SliceSize, Lo, Hi, StartOf, EndOf;
    forall q: nat
      ensures At(ext, q) == Expected(ext0, g, off, data, ss, n, done + {i}, q)
    {
      SlicePositions(i, g, q, off, |data|, ss, n);
    }
  }

  function AllSlices(off: nat, size: nat, ss: nat): (r: set<nat>)
    requires 0 < ss && 0 < size
    ensures forall i: nat :: i in r <==> i < StripeCount(off, size, ss)
  {
    UpTo(StripeCount(off, size, ss))
  }

  function UpTo(k: nat): (r: set<nat>)
    ensures forall i: nat :: i in r <==> i < k
  {
    if k == 0 then {} else UpTo(k - 1) + {k - 1}
  }

  /** When every slice has been written the extent holds its group of the written file. */
  lemma AdvancedHolds(ext0: seq<byte>, ext: seq<byte>, g: nat, off: nat, data: seq<byte>, flat: seq<byte>,
                      ss: nat, n: nat)
    requires 0 < ss && g < n && 0 < |data|
    requires Advanced(ext0, ext, g, off, data, ss, n, AllSlices(off, |data|, ss))
    requires HoldsGroup(ext0, g, flat, ss, n)
    ensures HoldsGroup(ext, g, PWrite(flat, off, data), ss, n)
  {
    hide FileByte, SliceIndex, StripeCount, Reached, UpTo, Lo, Hi;
    forall q: nat
      ensures At(ext, q) == At(PWrite(flat, off, data), FileByte(g, q, ss, n))
    {
      var p := FileByte(g, q, ss, n);
      PWriteAt(flat, off, data, p);
      if off <= p < off + |data| {
        var i := SliceOf(p, off, |data|, ss);
      }
    }
  }

  // ---------------------------------------------------------------------------------------------
  // Lengths

  /** How many of the first `len` bytes of a file belong to group `g`. */
  function GroupLen(len: nat, g: nat, ss: nat, n: nat): (r: nat)
    requires 0 < ss && 0 < n
  {
    if len == 0 then 0 else GroupLen(len - 1, g, ss, n) + if Group(len - 1, ss, n) == g then 1 else 0
  }

  /** Those bytes are the first positions of the extent. */
  lemma {:induction false} GroupLenPrefix(len: nat, g: nat, q: nat, ss: nat, n: nat)
    requires 0 < ss && g < n
    ensures q < GroupLen(len, g, ss, n) <==> FileByte(g, q, ss, n) < len
  {
    hide FileByte, Group, Pos;
    if len > 0 {
      var p := len - 1;
      GroupLenPrefix(p, g, q, ss, n);
      if Group(p, ss, n) == g {
        FileByteOfPos(p, ss, n);
        GroupLenPrefix(p, g, Pos(p, ss, n), ss, n);
        var c := GroupLen(p, g, ss, n);
        GroupLenPrefix(p, g, c, ss, n);
        if c < Pos(p, ss, n) {
          FileByteMono(g, c, Pos(p, ss, n), ss, n);
          PosOfFileByte(g, c, ss, n);
        }
        assert c == Pos(p, ss, n);
        if q != c {
          PosOfFileByte(g, q, ss, n);
        }
      } else {
        PosOfFileByte(g, q, ss, n);
      }
    }
  }

  function Sum(lens: seq<nat>): nat {
    if lens == [] then 0 else Sum(lens[..|lens| - 1]) + lens[|lens| - 1]
  }

  function GroupLens(len: nat, ss: nat, n: nat): (r: seq<nat>)
    requires 0 < ss && 0 < n
    ensures |r| == n
  {
    seq(n, g requires 0 <= g < n => GroupLen(len, g, ss, n))
  }

  /** The groups' shares add up to the file length. */
  lemma {:induction false} SumGroupLens(len: nat, ss: nat, n: nat)
    requires 0 < ss && 0 < n
    ensures Sum(GroupLens(len, ss, n)) == len
  {
    hide Group, Sum;
    if len == 0 {
      SumZero(GroupLens(0, ss, n));
    } else {
      SumGroupLens(len - 1, ss, n);
      SumBump(GroupLens(len - 1, ss, n), GroupLens(len, ss, n), Group(len - 1, ss, n));
    }
  }

  lemma {:induction false} SumZero(lens: seq<nat>)
    requires forall g :: 0 <= g < |lens| ==> lens[g] == 0
    ensures Sum(lens) == 0
  {
    if lens != [] {
      SumZero(lens[..|lens| - 1]);
    }
  }

  lemma {:induction false} SumBump(a: seq<nat>, b: seq<nat>, g: nat)
    requires |a| == |b| && g < |a|
    requires forall k :: 0 <= k < |a| ==> b[k] == a[k] + if k == g then 1 else 0
    ensures Sum(b) == Sum(a) + 1
  {
    var m := |a| - 1;
    if g == m {
      assert a[..m] == b[..m];
    } else {
      SumBump(a[..m], b[..m], g);
    }
  }

  /** A sum of bounded terms meets the sum of the bounds exactly when every term meets its bound. */
  lemma {:induction false} SumBounded(a: seq<nat>, b: seq<nat>)
    requires |a| == |b| && forall g :: 0 <= g < |a| ==> a[g] <= b[g]
    ensures Sum(a) <= Sum(b)
    ensures Sum(a) == Sum(b) <==> a == b
  {
    if a != [] {
      var m := |a| - 1;
      SumBounded(a[..m], b[..m]);
      assert a == a[..m] + [a[m]] && b == b[..m] + [b[m]];
    }
  }

  /** The length an extent of group `g` has after the first `k` slices of a write have reached it. */
  function WrittenLen(len0: nat, g: nat, off: nat, size: nat, ss: nat, n: nat, k: nat): (r: nat)
    requires 0 < ss && g < n && 0 < size && k <= StripeCount(off, size, ss)
    ensures Reached(len0, r, g, off, size, ss, n, UpTo(k))
  {
    if k == 0 then len0
    else
      var r := WrittenLen(len0, g, off, size, ss, n, k - 1);
      if SliceGroup(k - 1, off, ss, n) == g then Max(r, EndOf(k - 1, off, size, ss, n)) else r
  }

  /** The order of the slices does not matter: the final length is determined. */
  lemma ReachedUnique(len0: nat, len: nat, g: nat, off: nat, size: nat, ss: nat, n: nat)
    requires 0 < ss && g < n && 0 < size
    requires Reached(len0, len, g, off, size, ss, n, AllSlices(off, size, ss))
    ensures len == WrittenLen(len0, g, off, size, ss, n, StripeCount(off, size, ss))
  {
    hide SliceGroup, StripeCount, EndOf, WrittenLen, UpTo;
  }

  function WrittenLens(lens: seq<nat>, off: nat, size: nat, ss: nat): (r: seq<nat>)
    requires 0 < ss && 0 < size
    ensures |r| == |lens|
  {
    seq(|lens|, g requires 0 <= g < |lens| =>
      WrittenLen(lens[g], g, off, size, ss, |lens|, StripeCount(off, size, ss)))
  }

  /** Whenever group `g` has a byte in the gap [len, off), the write itself has a byte of group `g`. */
  ghost predicate NoTailGap(g: nat, len: nat, off: nat, size: nat, ss: nat, n: nat)
    requires 0 < ss && 0 < n
  {
    forall p: nat :: len <= p < off && Group(p, ss, n) == g ==>
                       exists p': nat :: off <= p' < off + size && Group(p', ss, n) == g
  }

  /** A group's extent never outgrows its share of the new file length, and reaches it exactly when the
      write leaves no gap at the group's end. */
  lemma WrittenShare(g: nat, len: nat, off: nat, size: nat, ss: nat, n: nat)
    requires 0 < ss && g < n && 0 < size
    ensures var l := WrittenLen(GroupLen(len, g, ss, n), g, off, size, ss, n, StripeCount(off, size, ss));
            var share := GroupLen(Max(len, off + size), g, ss, n);
            l <= share && (l == share <==> NoTailGap(g, len, off, size, ss, n))
  {
    hide Group, Pos, FileByte, SliceGroup, StripeCount, EndOf, WrittenLen, GroupLen, UpTo, SliceSize, SliceOffset, Lo,
         Hi, SliceIndex, Lcn;
    var len0 := GroupLen(len, g, ss, n);
    var l := WrittenLen(len0, g, off, size, ss, n, StripeCount(off, size, ss));
    var share := GroupLen(Max(len, off + size), g, ss, n);
    if l > 0 {
      LastWritten(g, len, off, size, ss, n, l - 1);
      GroupLenPrefix(Max(len, off + size), g, l - 1, ss, n);
    }
    if NoTailGap(g, len, off, size, ss, n) && l < share {
      var p := FileByte(g, l, ss, n);
      GroupLenPrefix(Max(len, off + size), g, l, ss, n);
      GroupLenPrefix(len, g, l, ss, n);
      PosOfFileByte(g, l, ss, n);
      var p' := p;
      if p < off {
        p' :| off <= p' < off + size && Group(p', ss, n) == g;
      }
      WrittenBelowEnd(len0, g, off, size, ss, n, p');
      FileByteOfPos(p', ss, n);
      FileByteMono(g, Pos(p', ss, n), l, ss, n);
      assert false;
    }
    if l == share {
      forall p: nat | len <= p < off && Group(p, ss, n) == g
        ensures exists p': nat :: off <= p' < off + size && Group(p', ss, n) == g
      {
        FileByteOfPos(p, ss, n);
        GroupLenPrefix(len, g, Pos(p, ss, n), ss, n);
        GroupLenPrefix(Max(len, off + size), g, Pos(p, ss, n), ss, n);
        var i :| i in UpTo(StripeCount(off, size, ss)) && SliceGroup(i, off, ss, n) == g &&
            l == EndOf(i, off, size, ss, n);
        SliceExact(i, off, size, ss);
        BytesOfSlice(Lo(i, off, ss), i, off, size, ss, n);
        assert Group(Lo(i, off, ss), ss, n) == g;
      }
    }
  }

  lemma WrittenBelowEnd(len0: nat, g: nat, off: nat, size: nat, ss: nat, n: nat, p: nat)
    requires 0 < ss && g < n && 0 < size
    requires off <= p < off + size && Group(p, ss, n) == g
    ensures Pos(p, ss, n) < WrittenLen(len0, g, off, size, ss, n, StripeCount(off, size, ss))
  {
    hide Group, Pos, FileByte, SliceGroup, StripeCount, EndOf, StartOf, WrittenLen, UpTo, Lo, Hi, SliceIndex;
    var i := SliceOf(p, off, size, ss);
    FileByteOfPos(p, ss, n);
    SlicePositions(i, g, Pos(p, ss, n), off, size, ss, n);
    assert i in UpTo(StripeCount(off, size, ss));
  }

  lemma LastWritten(g: nat, len: nat, off: nat, size: nat, ss: nat, n: nat, q: nat)
    requires 0 < ss && g < n && 0 < size
    requires q < WrittenLen(GroupLen(len, g, ss, n), g, off, size, ss, n, StripeCount(off, size, ss))
    ensures FileByte(g, q, ss, n) < Max(len, off + size)
  {
    hide FileByte, SliceGroup, StripeCount, SliceSize, SliceOffset, StartOf, WrittenLen, GroupLen, UpTo, Lo, Hi,
         SliceIndex;
    var l := WrittenLen(GroupLen(len, g, ss, n), g, off, size, ss, n, StripeCount(off, size, ss));
    GroupLenPrefix(len, g, q, ss, n);
    if len <= FileByte(g, q, ss, n) {
      var i :| i in UpTo(StripeCount(off, size, ss)) && SliceGroup(i, off, ss, n) == g &&
          l == EndOf(i, off, size, ss, n);
      SliceExact(i, off, size, ss);
      FileByteMono(g, q, l - 1, ss, n);
      SlicePositions(i, g, l - 1, off, size, ss, n);
    }
  }

  /** Writing into a file without holes: the extents add up to the new file length exactly when no
      group is left with a hole at its end ... */
  lemma SizeExact(len: nat, off: nat, size: nat, ss: nat, n: nat)
    requires 0 < ss && 0 < n && 0 < size
    ensures Sum(WrittenLens(GroupLens(len, ss, n), off, size, ss)) == Max(len, off + size) <==>
            forall g :: 0 <= g < n ==> NoTailGap(g, len, off, size, ss, n)
  {
    hide NoTailGap, WrittenLen, GroupLen, StripeCount, Sum;
    var lens := WrittenLens(GroupLens(len, ss, n), off, size, ss);
    var shares := GroupLens(Max(len, off + size), ss, n);
    SumGroupLens(Max(len, off + size), ss, n);
    forall g | 0 <= g < n
      ensures lens[g] <= shares[g] && (lens[g] == shares[g] <==> NoTailGap(g, len, off, size, ss, n))
    {
      WrittenShare(g, len, off, size, ss, n);
    }
    SumBounded(lens, shares);
  }

  /** ... in particular for a write that starts at or before the end of the file. */
  lemma SizeConserved(len: nat, off: nat, size: nat, ss: nat, n: nat)
    requires 0 < ss && 0 < n && 0 < size && off <= len
    ensures WrittenLens(GroupLens(len, ss, n), off, size, ss) == GroupLens(Max(len, off + size), ss, n)
  {
    hide WrittenLen, GroupLen, StripeCount;
    var lens := WrittenLens(GroupLens(len, ss, n), off, size, ss);
    var shares := GroupLens(Max(len, off + size), ss, n);
    forall g | 0 <= g < n
      ensures lens[g] == shares[g]
    {
      WrittenShare(g, len, off, size, ss, n);
    }
  }

  /** A write past the end can be reported short: one byte at offset 1024 of an empty file on three
      groups makes a file of 1025 bytes, but the first group keeps no trace of the gap before it. */
  lemma SizeShort()
    ensures Sum(WrittenLens(GroupLens(0, 1024, 3), 1024, 1, 1024)) != 1025
  {
    hide Sum, WrittenLens, GroupLens;
    SizeExact(0, 1024, 1, 1024, 3);
    FirstGroupGap();
  }

  lemma FirstGroupGap()
    ensures !NoTailGap(0, 0, 1024, 1, 1024, 3)
  {
    assert Group(0, 1024, 3) == 0 && Group(1024, 1024, 3) == 1;
    assert forall p': nat :: 1024 <= p' < 1024 + 1 ==> Group(p', 1024, 3) != 0;
  }
}
