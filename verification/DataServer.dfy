/** A data server: a directory of extent files, the handle counter kept in one of them, and the
    stripe commands (hercules_io_lib.c, hercules_ds_cmds.c). */
module DataServers {
  import opened Arith
  import opened Bytes
  import opened Layout

  const HFS_INVALID_HANDLE: u32 := 0
  const HFS_DATA_SERVER_META_FILE_HANDLE: u32 := 0

  datatype Status =
    | Success
    | InvalidHandleError
    | InvalidStripeError
    | HostOsError
    | ConfigError
    | TransmissionFailed
    | FatalError

  /** The files of one data server, by name. */
  type Disk = map<string, seq<byte>>

  // ---------------------------------------------------------------------------------------------
  // File names

  function HexDigit(d: nat): char
    requires d < 16
  {
    if d < 10 then '0' + d as char else 'a' + (d - 10) as char
  }

  /** The `width` low hexadecimal digits of `h`, most significant first. */
  function Hex(h: nat, width: nat): (s: string)
    ensures |s| == width
  {
    if width == 0 then "" else Hex(h / 16, width - 1) + [HexDigit(h % 16)]
  }

  /** `"%09x.dat"`: a 32-bit handle never needs more than eight of the nine digits. */
  function HdlToFileName(hdl: u32): string {
    Hex(hdl, 9) + ".dat"
  }

  function Power16(k: nat): nat {
    if k == 0 then 1 else 16 * Power16(k - 1)
  }

  lemma {:induction false} HexInjective(a: nat, b: nat, width: nat)
    requires a < Power16(width) && b < Power16(width)
    requires Hex(a, width) == Hex(b, width)
    ensures a == b
  {
    if width > 0 {
      var x, y := Hex(a, width), Hex(b, width);
      assert x[..width - 1] == Hex(a / 16, width - 1) && y[..width - 1] == Hex(b / 16, width - 1);
      assert x[width - 1] == HexDigit(a % 16) && y[width - 1] == HexDigit(b % 16);
      HexInjective(a / 16, b / 16, width - 1);
    }
  }

  /** Two handles never name the same file. */
  lemma FileNameInjective(a: u32, b: u32)
    requires HdlToFileName(a) == HdlToFileName(b)
    ensures a == b
  {
    assert HdlToFileName(a)[..9] == Hex(a, 9) && HdlToFileName(b)[..9] == Hex(b, 9);
    NineDigits();
    HexInjective(a, b, 9);
  }

  /** The value of a lower-case hexadecimal digit. */
  function DigitValue(c: char): int {
    if '0' <= c <= '9' then c as int - '0' as int
    else if 'a' <= c <= 'f' then c as int - 'a' as int + 10
    else -1
  }

  predicate IsNumeral(s: string) {
    forall i :: 0 <= i < |s| ==> DigitValue(s[i]) >= 0
  }

  /** The number that a numeral spells, most significant digit first. */
  function Value(s: string): int {
    if s == "" then 0 else 16 * Value(s[..|s| - 1]) + DigitValue(s[|s| - 1])
  }

  lemma {:induction false} HexSpells(h: nat, width: nat)
    requires h < Power16(width)
    ensures IsNumeral(Hex(h, width)) && Value(Hex(h, width)) == h
  {
    if width > 0 {
      HexSpells(h / 16, width - 1);
      var s := Hex(h, width);
      assert s[..width - 1] == Hex(h / 16, width - 1) && s[width - 1] == HexDigit(h % 16);
      assert forall i :: 0 <= i < width - 1 ==> s[i] == Hex(h / 16, width - 1)[i];
    }
  }

  /** The file of a handle is named by nine lower-case hexadecimal digits that spell it. */
  lemma FileNameSpells(hdl: u32)
    ensures var name := HdlToFileName(hdl);
            |name| == 13 && name[9..] == ".dat" && IsNumeral(name[..9]) && Value(name[..9]) == hdl
  {
    assert HdlToFileName(hdl)[..9] == Hex(hdl, 9);
    NineDigits();
    HexSpells(hdl, 9);
  }

  lemma NineDigits()
    ensures Power16(9) > TWO32
  {
    assert Power16(4) == 0x1_0000;
    assert Power16(8) == 0x1_0000_0000;
  }

  // ---------------------------------------------------------------------------------------------
  // Requests, replies and what a request does to the files

  datatype Request =
    | ReadStripe(hdl: u32, stripeNum: u32, stripeCnt: u32)
    | WriteStripe(hdl: u32, stripeNum: u32, inStripe: u32, data: seq<byte>)
    | GetLength(hdl: u32)
    | AllocHandle

  /** `value` is the extent size of `GetLength` and the handle of `AllocHandle`. */
  datatype Reply = Reply(status: Status, payload: seq<byte>, value: u32)

  predicate HasExtent(d: Disk, hdl: u32) {
    HdlToFileName(hdl) in d
  }

  function Extent(d: Disk, hdl: u32): seq<byte> {
    var name := HdlToFileName(hdl);
    if name in d then d[name] else []
  }

  /** The handle counter: the first word of the meta file. */
  predicate HasCounter(d: Disk) {
    |Extent(d, HFS_DATA_SERVER_META_FILE_HANDLE)| >= 4
  }

  function Counter(d: Disk): u32
    requires HasCounter(d)
  {
    Le32(Extent(d, HFS_DATA_SERVER_META_FILE_HANDLE)[..4])
  }

  function SetCounter(d: Disk, c: u32): Disk
    requires HasCounter(d)
  {
    d[HdlToFileName(0) := PWrite(Extent(d, 0), 0, Le32Bytes(c))]
  }

  function AfterAlloc(d: Disk): (r: (Disk, Reply))
    ensures r.1 == Reply(Success, [], r.1.value)
  {
    if !HasCounter(d) then (d, Reply(Success, [], HFS_INVALID_HANDLE))
    else
      var h := U32(Counter(d) + 1);
      var d1 := SetCounter(d, h);
      if h == HFS_INVALID_HANDLE || HasExtent(d1, h) then (d1, Reply(Success, [], HFS_INVALID_HANDLE))
      else (d1[HdlToFileName(h) := []], Reply(Success, [], h))
  }

  /** The files and the reply after one request. */
  function Exec(d: Disk, ss: u32, req: Request): (Disk, Reply) {
    match req
    case ReadStripe(hdl, stripeNum, stripeCnt) =>
      var pos := SeekResult(stripeNum, 0, ss);
      if !HasExtent(d, hdl) then (d, Reply(InvalidHandleError, [], 0))
      else if pos < 0 then (d, Reply(InvalidStripeError, [], 0))
      else (d, Reply(Success, PRead(Extent(d, hdl), pos, U32(stripeCnt * ss)), 0))
    case WriteStripe(hdl, stripeNum, inStripe, data) =>
      var pos := SeekResult(stripeNum, inStripe, ss);
      if !HasExtent(d, hdl) then (d, Reply(InvalidHandleError, [], 0))
      else if pos < 0 then (d, Reply(FatalError, [], 0))
      else (d[HdlToFileName(hdl) := PWrite(Extent(d, hdl), pos, data)], Reply(Success, [], 0))
    case GetLength(hdl) =>
      if !HasExtent(d, hdl) then (d, Reply(InvalidHandleError, [], 0))
      else (d, Reply(Success, [], U32(|Extent(d, hdl)|)))
    case AllocHandle => AfterAlloc(d)
  }

  // ---------------------------------------------------------------------------------------------
  // What the requests mean for the extents

  /** Replacing one extent touches no other. */
  lemma UpdateEffect(d: Disk, hdl: u32, content: seq<byte>)
    ensures var d' := d[HdlToFileName(hdl) := content];
            HasExtent(d', hdl) && Extent(d', hdl) == content &&
            forall h: u32 :: h != hdl ==> Extent(d', h) == Extent(d, h) && (HasExtent(d', h) <==> HasExtent(d, h))
  {
    forall h: u32 | h != hdl
      ensures HdlToFileName(h) != HdlToFileName(hdl)
    {
      if HdlToFileName(h) == HdlToFileName(hdl) {
        FileNameInjective(h, hdl);
      }
    }
  }

  /** A write changes the bytes it names, keeps every other byte of its extent, and no other extent. */
  lemma WriteEffect(d: Disk, ss: u32, req: Request)
    requires req.WriteStripe? && HasExtent(d, req.hdl)
    requires RowStart(req.stripeNum, ss) + req.inStripe < TWO31
    ensures var (d', r) := Exec(d, ss, req); r.status == Success && HasExtent(d', req.hdl)
    ensures var (d', _) := Exec(d, ss, req);
            Extent(d', req.hdl) == PWrite(Extent(d, req.hdl), RowStart(req.stripeNum, ss) + req.inStripe, req.data)
    ensures var (d', _) := Exec(d, ss, req);
            forall h: u32 :: h != req.hdl ==>
                               Extent(d', h) == Extent(d, h) && (HasExtent(d', h) <==> HasExtent(d, h))
  {
    hide RowStart, HdlToFileName, SeekResult;
    SeekExact(req.stripeNum, req.inStripe, ss);
    UpdateEffect(d, req.hdl, PWrite(Extent(d, req.hdl), RowStart(req.stripeNum, ss) + req.inStripe, req.data));
  }

  /** Even a write that fails, or that hits the meta file, touches no other extent and removes none. */
  lemma WriteFrame(d: Disk, ss: u32, req: Request)
    requires req.WriteStripe?
    ensures var (d', _) := Exec(d, ss, req);
            forall h: u32 :: (HasExtent(d, h) ==> HasExtent(d', h)) &&
                             (h != req.hdl ==> Extent(d', h) == Extent(d, h) && (HasExtent(d', h) <==> HasExtent(d, h)))
  {
    hide HdlToFileName, SeekResult, PWrite;
    UpdateEffect(d, req.hdl, PWrite(Extent(d, req.hdl), Max(0, SeekResult(req.stripeNum, req.inStripe, ss)), req.data));
  }

  /** A read of any number of stripes, completed with zeros, is their window of the zero-filled extent; it is
      short by what the extent does not have. */
  lemma ReadEffect(d: Disk, ss: u32, req: Request)
    requires req.ReadStripe? && HasExtent(d, req.hdl)
    requires RowStart(req.stripeNum, ss) < TWO31
    ensures var (d', r) := Exec(d, ss, req);
            var (len, from) := (req.stripeCnt * ss % 0x1_0000_0000, RowStart(req.stripeNum, ss));
            && d' == d && r.status == Success
            && |r.payload| == Max(0, Min(len, |Extent(d, req.hdl)| - from))
            && forall x: nat :: x < len ==> At(r.payload, x) == At(Extent(d, req.hdl), from + x)
    ensures req.stripeCnt == 1 ==> req.stripeCnt * ss % 0x1_0000_0000 == ss
  {
    hide RowStart, HdlToFileName, SeekResult;
    SeekExact(req.stripeNum, 0, ss);
    assert U32(1 * ss) == ss;
  }

  /** An allocation that reports a handle has created a new empty extent and touched no other one. */
  lemma AllocEffect(d: Disk)
    ensures var (d', r) := AfterAlloc(d);
            r.value != HFS_INVALID_HANDLE ==>
              !HasExtent(d, r.value) && HasExtent(d', r.value) && Extent(d', r.value) == [] &&
              HasCounter(d) && Counter(d) < r.value && HasCounter(d') && Counter(d') == r.value
    ensures var (d', r) := AfterAlloc(d);
            forall h: u32 :: h != 0 && h != r.value ==>
                               Extent(d', h) == Extent(d, h) && (HasExtent(d', h) <==> HasExtent(d, h))
    ensures var (d', _) := AfterAlloc(d); forall h: u32 :: HasExtent(d, h) ==> HasExtent(d', h)
  {
    hide HdlToFileName, SetCounter, Counter, HasExtent;
    AllocCounter(d);
    if HasCounter(d) {
      var h := U32(Counter(d) + 1);
      SetCounterEffect(d, h);
      UpdateEffect(SetCounter(d, h), h, []);
    }
  }

  /** An allocation fails, and is then reported as a success with handle 0, if and only if the meta file is
      missing or short, the counter wraps, or the next handle's file is there already. */
  lemma AllocFails(d: Disk)
    ensures var (_, r) := AfterAlloc(d);
            r.status == Success &&
            (r.value == HFS_INVALID_HANDLE <==>
               !HasCounter(d) || Counter(d) + 1 == TWO32 || HasExtent(d, U32(Counter(d) + 1)))
  {
    hide HdlToFileName, SetCounter, Counter, HasExtent;
    if HasCounter(d) {
      SetCounterEffect(d, U32(Counter(d) + 1));
    }
  }

  /** Where there is a counter, every allocation advances it, also one that fails since the file exists. */
  lemma CounterAdvances(d: Disk)
    requires HasCounter(d)
    ensures var (d', _) := AfterAlloc(d); HasCounter(d') && Counter(d') == (Counter(d) + 1) % 0x1_0000_0000
  {
    hide HdlToFileName, SetCounter, Counter, HasExtent;
    AllocCounter(d);
  }

  /** When a request fails, and how: a handle without a file, or a position that the seek refuses. */
  lemma FailsExactly(d: Disk, ss: u32, req: Request)
    ensures var r := Exec(d, ss, req).1;
            match req
            case ReadStripe(hdl, num, _) =>
              && (r.status == InvalidHandleError <==> HdlToFileName(hdl) !in d)
              && (r.status == InvalidStripeError <==>
                  HdlToFileName(hdl) in d && num * ss % 0x1_0000_0000 >= 0x8000_0000)
              && (r.status == Success <==> HdlToFileName(hdl) in d && num * ss % 0x1_0000_0000 < 0x8000_0000)
            case WriteStripe(hdl, num, inStripe, _) =>
              && (r.status == InvalidHandleError <==> HdlToFileName(hdl) !in d)
              && (r.status == FatalError <==>
                    HdlToFileName(hdl) in d && (num * ss + inStripe) % 0x1_0000_0000 >= 0x8000_0000)
              && (r.status == Success <==>
                    HdlToFileName(hdl) in d && (num * ss + inStripe) % 0x1_0000_0000 < 0x8000_0000)
            case GetLength(hdl) =>
              && (r.status == InvalidHandleError <==> HdlToFileName(hdl) !in d)
              && (r.status == Success <==> HdlToFileName(hdl) in d)
            case AllocHandle => r.status == Success
  {
    hide HdlToFileName, PRead, PWrite;
    if req.ReadStripe? {
      SeekFails(req.stripeNum, 0, ss);
      assert req.stripeNum * ss + 0 == req.stripeNum * ss;
    } else if req.WriteStripe? {
      SeekFails(req.stripeNum, req.inStripe, ss);
    }
    hide SeekResult;
  }

  lemma SeekFails(num: nat, inStripe: nat, ss: nat)
    ensures SeekResult(num, inStripe, ss) < 0 <==> (num * ss + inStripe) % 0x1_0000_0000 >= 0x8000_0000
  {
    U32Add(num * ss, inStripe);
    SeekWord(num * ss, inStripe);
  }

  lemma SeekWord(a: int, b: int)
    ensures (U32(a) + b) % 0x1_0000_0000 == (a + b) % 0x1_0000_0000
  {
  }

  /** Handle 0 names the server's own meta file: a stripe written to it replaces the handle counter. */
  lemma MetaFileOverwritten(d: Disk, ss: u32, data: seq<byte>)
    requires HasCounter(d) && |data| >= 4
    ensures var (d', r) := Exec(d, ss, WriteStripe(HFS_INVALID_HANDLE, 0, 0, data));
            r.status == Success && HasCounter(d') && Counter(d') == Le32(data[..4])
  {
    hide HdlToFileName, Le32;
    assert RowStart(0, ss) == 0;
    WriteEffect(d, ss, WriteStripe(HFS_INVALID_HANDLE, 0, 0, data));
    assert PWrite(Extent(d, 0), 0, data)[..4] == data[..4];
  }

  /** The bytes of such a file can set the counter back to any value, such as 9. */
  lemma CounterSetToNine(d: Disk)
    requires HasCounter(d)
    ensures var (d', _) := Exec(d, 1024, WriteStripe(HFS_INVALID_HANDLE, 0, 0, [9, 0, 0, 0]));
            HasCounter(d') && Counter(d') == 9
  {
    MetaFileOverwritten(d, 1024, [9, 0, 0, 0]);
    assert [9, 0, 0, 0][..4] == [9, 0, 0, 0];
  }

  /** The next `m` allocations of this server all succeed. */
  ghost predicate FreeNext(d: Disk, m: nat) {
    m == 0 || (HasCounter(d) && Counter(d) + m < TWO32 && forall h: u32 :: Counter(d) < h <= Counter(d) + m ==>
               !HasExtent(d, h))
  }

  /** One allocation decides the first of them. */
  lemma FreeStep(d: Disk, m: nat)
    ensures var (d', r) := AfterAlloc(d);
            FreeNext(d, m + 1) <==> r.value != HFS_INVALID_HANDLE && FreeNext(d', m)
  {
    hide HdlToFileName, SetCounter, Counter, HasExtent, AfterAlloc;
    AllocFails(d);
    AllocEffect(d);
    AllocCounter(d);
  }

  /** A server whose meta file is in order and has `m` handles left, none of them in use. */
  ghost predicate Supply(d: Disk, m: nat) {
    HasCounter(d) && Counter(d) + m < TWO32 && forall h: u32 :: h > Counter(d) ==> !HasExtent(d, h)
  }

  /** Such a server never fails to allocate, and has one handle less afterwards. */
  lemma AllocSupplied(d: Disk, m: nat)
    requires Supply(d, m + 1)
    ensures var (d', r) := AfterAlloc(d); r.value == Counter(d) + 1 && Supply(d', m)
  {
    hide HdlToFileName, SetCounter, Counter, HasExtent;
    AllocCounter(d);
    AllocEffect(d);
    SetCounterEffect(d, Counter(d) + 1);
  }

  lemma SetCounterEffect(d: Disk, c: u32)
    requires HasCounter(d)
    ensures HasCounter(SetCounter(d, c)) && Counter(SetCounter(d, c)) == c
    ensures forall h: u32 :: HasExtent(SetCounter(d, c), h) <==> HasExtent(d, h)
    ensures forall h: u32 :: h != 0 ==> Extent(SetCounter(d, c), h) == Extent(d, h)
  {
    hide HdlToFileName, Le32, Le32Bytes;
    Le32RoundTrip(c);
    UpdateEffect(d, 0, PWrite(Extent(d, 0), 0, Le32Bytes(c)));
    assert Extent(SetCounter(d, c), 0)[..4] == Le32Bytes(c);
  }

  // ---------------------------------------------------------------------------------------------
  // Handles over a whole run of requests

  function RunReplies(d: Disk, ss: u32, reqs: seq<Request>): (rs: seq<Reply>)
    ensures |rs| == |reqs|
    decreases |reqs|
  {
    if reqs == [] then []
    else
      var (d', r) := Exec(d, ss, reqs[0]);
      [r] + RunReplies(d', ss, reqs[1..])
  }

  /** No request of the run writes the meta file. */
  predicate SparesMetaFile(reqs: seq<Request>) {
    forall q :: q in reqs && q.WriteStripe? ==> q.hdl != HFS_DATA_SERVER_META_FILE_HANDLE
  }

  /** Every handle a run allocates is above the counter it started from ... */
  lemma {:induction false} HandlesAboveCounter(d: Disk, ss: u32, reqs: seq<Request>, k: nat)
    requires SparesMetaFile(reqs) && k < |reqs| && reqs[k].AllocHandle?
    requires HasCounter(d) ==> Counter(d) + |reqs| < TWO32
    requires RunReplies(d, ss, reqs)[k].value != HFS_INVALID_HANDLE
    ensures HasCounter(d) && Counter(d) < RunReplies(d, ss, reqs)[k].value
    decreases |reqs|
  {
    hide Exec, AfterAlloc, Counter, HasCounter;
    var (d', r) := Exec(d, ss, reqs[0]);
    AllocReply(d, ss);
    CounterStep(d, ss, reqs[0]);
    AllocEffect(d);
    if k > 0 {
      HandlesAboveCounter(d', ss, reqs[1..], k - 1);
    }
  }

  /** ... and handles come out in strictly increasing order, whatever else the server serves between. */
  lemma {:induction false} HandlesIncrease(d: Disk, ss: u32, reqs: seq<Request>, j: nat, k: nat)
    requires SparesMetaFile(reqs) && j < k < |reqs| && reqs[j].AllocHandle? && reqs[k].AllocHandle?
    requires HasCounter(d) ==> Counter(d) + |reqs| < TWO32
    requires RunReplies(d, ss, reqs)[j].value != HFS_INVALID_HANDLE
    requires RunReplies(d, ss, reqs)[k].value != HFS_INVALID_HANDLE
    ensures RunReplies(d, ss, reqs)[j].value < RunReplies(d, ss, reqs)[k].value
    decreases |reqs|
  {
    hide Exec, AfterAlloc, Counter, HasCounter;
    var (d', r) := Exec(d, ss, reqs[0]);
    AllocReply(d, ss);
    CounterStep(d, ss, reqs[0]);
    if j > 0 {
      HandlesIncrease(d', ss, reqs[1..], j - 1, k - 1);
    } else {
      AllocEffect(d);
      HandlesAboveCounter(d', ss, reqs[1..], k - 1);
    }
  }

  lemma AllocReply(d: Disk, ss: u32)
    ensures Exec(d, ss, AllocHandle) == AfterAlloc(d)
  {
  }

  lemma CounterStep(d: Disk, ss: u32, req: Request)
    requires req.WriteStripe? ==> req.hdl != HFS_DATA_SERVER_META_FILE_HANDLE
    ensures var (d', _) := Exec(d, ss, req);
            (HasCounter(d') <==> HasCounter(d)) &&
            (HasCounter(d) && Counter(d) + 1 < TWO32 ==> Counter(d) <= Counter(d') <= Counter(d) + 1)
  {
    hide HdlToFileName, SeekResult, PWrite, PRead, AfterAlloc;
    match req
    case ReadStripe(_, _, _) =>
    case GetLength(_) =>
    case WriteStripe(hdl, stripeNum, inStripe, data) =>
      UpdateEffect(d, hdl, PWrite(Extent(d, hdl), Max(0, SeekResult(stripeNum, inStripe, ss)), data));
    case AllocHandle =>
      AllocCounter(d);
  }

  lemma AllocCounter(d: Disk)
    ensures var (d', _) := AfterAlloc(d);
            if HasCounter(d) then HasCounter(d') && Counter(d') == U32(Counter(d) + 1) else d' == d
  {
    hide HdlToFileName, SetCounter, Extent;
    if HasCounter(d) {
      var h := U32(Counter(d) + 1);
      SetCounterEffect(d, h);
      UpdateEffect(SetCounter(d, h), h, []);
      SameCounter(SetCounter(d, h), AfterAlloc(d).0);
    }
  }

  lemma SameCounter(d: Disk, d': Disk)
    requires HasCounter(d) && Extent(d', 0) == Extent(d, 0)
    ensures HasCounter(d') && Counter(d') == Counter(d)
  {
  }

  // ---------------------------------------------------------------------------------------------
  // The server itself

  class DataServer {
    var up: bool
    var files: Disk

    constructor (mkfs: Disk)
      ensures up && files == mkfs
    {
      up, files := true, mkfs;
    }

    /** Takes the next handle out of the meta file, or returns the invalid handle. */
    method ReadHandleFromFile() returns (handle: u32)
      modifies `files
      ensures !HasCounter(old(files)) ==> files == old(files) && handle == HFS_INVALID_HANDLE
      ensures HasCounter(old(files)) ==>
                handle == U32(Counter(old(files)) + 1) && files == SetCounter(old(files), handle)
    {
      hide HdlToFileName;
      var name := HdlToFileName(HFS_DATA_SERVER_META_FILE_HANDLE);
      if name !in files {
        return HFS_INVALID_HANDLE;
      }
      var word := PRead(files[name], 0, 4);
      if |word| != 4 {
        return HFS_INVALID_HANDLE;
      }
      handle := U32(Le32(word) + 1);
      files := files[name := PWrite(files[name], 0, Le32Bytes(handle))];
      assert word == old(files)[name][..4];
    }

    method SrvAllocDataHandle() returns (status: Status, handle: u32)
      modifies `files
      ensures files == AfterAlloc(old(files)).0 && handle == AfterAlloc(old(files)).1.value
      ensures status == Success <==> handle != HFS_INVALID_HANDLE
    {
      hide HdlToFileName;
      handle := ReadHandleFromFile();
      if handle == HFS_INVALID_HANDLE {
        return ConfigError, HFS_INVALID_HANDLE;
      }
      var name := HdlToFileName(handle);
      if name in files { // O_CREAT | O_EXCL
        return ConfigError, HFS_INVALID_HANDLE;
      }
      files := files[name := []];
      status := Success;
    }

    method SrvReadStripe(hdl: u32, ss: u32, stripeNum: u32, stripeCnt: u32)
      returns (status: Status, payload: seq<byte>)
      ensures var r := Exec(files, ss, ReadStripe(hdl, stripeNum, stripeCnt)).1;
              status == r.status && payload == r.payload
    {
      hide HdlToFileName, RowStart;
      var name := HdlToFileName(hdl);
      if name !in files {
        return InvalidHandleError, [];
      }
      var pos := U32(RowStart(stripeNum, ss));
      assert U32(U32(RowStart(stripeNum, ss)) + 0) == pos;
      if I32(pos) < 0 {
        return InvalidStripeError, [];
      }
      var len := U32(stripeCnt * ss);
      return Success, PRead(files[name], pos, len);
    }

    method SrvWriteStripe(hdl: u32, ss: u32, stripeNum: u32, inStripeOffset: u32, buf: seq<byte>)
      returns (status: Status)
      modifies `files
      ensures var (d, r) := Exec(old(files), ss, WriteStripe(hdl, stripeNum, inStripeOffset, buf));
              files == d && (if status == HostOsError then r.status == FatalError else r.status == status)
    {
      hide HdlToFileName, RowStart;
      var name := HdlToFileName(hdl);
      if name !in files {
        return InvalidHandleError;
      }
      var pos := U32(U32(RowStart(stripeNum, ss)) + inStripeOffset);
      if I32(pos) < 0 {
        return HostOsError;
      }
      files := files[name := PWrite(files[name], pos, buf)];
      status := Success;
    }

    method SrvGetExtentSize(hdl: u32) returns (status: Status, size: u32)
      ensures var r := Exec(files, 0, GetLength(hdl)).1; status == r.status && size == r.value
    {
      hide HdlToFileName, RowStart;
      var name := HdlToFileName(hdl);
      if name !in files {
        return InvalidHandleError, 0;
      }
      return Success, U32(|files[name]|);
    }

    /** Dispatch of one request. The status of a failed allocation is lost: the status of the unlock
        that follows replaces it, so the reply then reports success with the invalid handle. */
    method ProcessDSCMD(ss: u32, req: Request) returns (r: Reply)
      modifies `files
      ensures (files, r) == Exec(old(files), ss, req)
    {
      hide AfterAlloc, HdlToFileName, SeekResult;
      var status: Status;
      var payload: seq<byte> := [];
      var value: u32 := 0;
      match req {
        case ReadStripe(hdl, stripeNum, stripeCnt) =>
          status, payload := SrvReadStripe(hdl, ss, stripeNum, stripeCnt);
        case WriteStripe(hdl, stripeNum, inStripe, data) =>
          status := SrvWriteStripe(hdl, ss, stripeNum, inStripe, data);
        case GetLength(hdl) =>
          status, value := SrvGetExtentSize(hdl);
        case AllocHandle =>
          status, value := SrvAllocDataHandle();
          status := Success;
      }
      if status != Success && status != InvalidHandleError && status != InvalidStripeError {
        status := FatalError;
      }
      r := Reply(status, payload, value);
    }
  }
}
