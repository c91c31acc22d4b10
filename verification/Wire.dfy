/** The wire format: command sizes, the word-swapping encoder and decoder, and the two senders
    (hfs_proto_buff.c, hercules_client_outbound.c, hercules_outbound.c). A protocol buffer is the
    packed image of header, command and payload, in the byte order of a little-endian host. */
module Wire {
  import opened Arith
  import opened Bytes

  const HEADER_SIZE := 68
  const COMMAND_OFFSET := 8
  const EXTENT_SIZE_OFFSET := 12
  const STATUS_OFFSET := 16
  const COOKIE_QITEM_OFFSET := 36

  const CMD_RESP_DS_READ_STRIPE: u32 := 0x8
  const CMD_REQ_DS_WRITE_STRIPE: u32 := 0x9
  const CMD_REQ_DS_WRITE_STRIPE_V: u32 := 0xD
  const CMD_RESP_DS_WRITE_STRIPE_V: u32 := 0xE
  const CMD_RESP_MDS_READDIR: u32 := 0x28
  const CMD_RESP_MDS_GET_CONFIG: u32 := 0x36
  const CMD_RESP_MDS_FS_CONF_CHANGED: u32 := 0x52

  const HFS_TRANSMISSION_FAILED: u32 := 0x8008_0005

  // ---------------------------------------------------------------------------------------------
  // Commands

  /** Body sizes of the request and the response, by request command; None for an unknown one. */
  datatype Bodies = None | Bodies(req: nat, resp: nat)

  function BodiesOf(req: int): Bodies {
    match req
    case 0x01 => Bodies(4, 4)     // DS_PING
    case 0x03 => Bodies(8, 8)     // DS_ALLOC_HANDLE
    case 0x05 => Bodies(8, 8)     // DS_FREE_HANDLE
    case 0x07 => Bodies(20, 20)   // DS_READ_STRIPE
    case 0x09 => Bodies(24, 24)   // DS_WRITE_STRIPE
    case 0x0B => Bodies(0, 0)     // DS_READ_STRIPE_V
    case 0x0D => Bodies(0, 0)     // DS_WRITE_STRIPE_V
    case 0x0F => Bodies(12, 12)   // DS_GET_LENGTH
    case 0x11 => Bodies(0, 0)     // DS_GET_DISK_USAGE
    case 0x13 => Bodies(0, 0)     // DS_GET_STATS
    case 0x21 => Bodies(4, 4)     // MDS_PING
    case 0x23 => Bodies(8, 8)     // MDS_ALLOC_HANDLE
    case 0x25 => Bodies(8, 8)     // MDS_FREE_HANDLE
    case 0x27 => Bodies(8, 8)     // MDS_READDIR
    case 0x29 => Bodies(271, 4)   // MDS_CREATE_DIRENT
    case 0x2B => Bodies(8, 4)     // MDS_DELETE_DIRENT
    case 0x2D => Bodies(263, 8)   // MDS_LOOK_UP
    case 0x2F => Bodies(4, 300)   // MDS_GET_ATTR
    case 0x31 => Bodies(304, 4)   // MDS_SET_ATTR
    case 0x33 => Bodies(4, 4)     // MDS_GET_EXTENT_SIZE
    case 0x35 => Bodies(4, 4)     // MDS_GET_CONFIG
    case 0x37 => Bodies(8, 8)     // MDS_LOGIN_PHASE1
    case 0x39 => Bodies(16, 4)    // MDS_LOGIN_PHASE2
    case 0x51 => Bodies(4, 4)     // MDS_FS_CONF_CHANGED
    case _ => None
  }

  /** Requests are odd, the response to a request is the next number. */
  function RequestOf(cmd: u32): int {
    if cmd % 2 == 1 then cmd else cmd - 1
  }

  /** `hfsGetCommandSize`: -1 for an unknown command. */
  function GetCommandSize(cmd: u32): int {
    match BodiesOf(RequestOf(cmd))
    case None => -1
    case Bodies(req, resp) => if cmd % 2 == 1 then req else resp
  }

  predicate HasPayload(cmd: u32) {
    || cmd == CMD_RESP_DS_READ_STRIPE
    || cmd == CMD_REQ_DS_WRITE_STRIPE
    || cmd == CMD_RESP_DS_WRITE_STRIPE_V
    || cmd == CMD_REQ_DS_WRITE_STRIPE_V
    || cmd == CMD_RESP_MDS_READDIR
    || cmd == CMD_RESP_MDS_GET_CONFIG
  }

  /** `GetMaximumMemSize` without the queue item that precedes the image: room for the request, its
      response, and one stripe if either of the two has a payload. */
  function MaxMemSize(cmd: u32, ss: nat): int {
    var r := RequestOf(cmd);
    match BodiesOf(r)
    case None => -1
    case Bodies(req, resp) =>
      HEADER_SIZE + Max(req, resp) + if HasPayload(r) || HasPayload(r + 1) then ss else 0
  }

  function ToggleReqResp(cmd: u32): u32 {
    if cmd % 2 == 1 then U32(cmd + 1) else U32(cmd - 1)
  }

  /** A request and its response name the same bodies and share one buffer size; toggling twice is
      the identity. */
  lemma ToggleInvolution(cmd: u32, ss: nat)
    requires GetCommandSize(cmd) != -1
    ensures ToggleReqResp(ToggleReqResp(cmd)) == cmd != ToggleReqResp(cmd)
    ensures RequestOf(ToggleReqResp(cmd)) == RequestOf(cmd)
    ensures MaxMemSize(ToggleReqResp(cmd), ss) == MaxMemSize(cmd, ss)
    ensures GetCommandSize(ToggleReqResp(cmd)) != -1
  {
    KnownCommand(cmd);
    if cmd % 2 == 1 {
      assert ToggleReqResp(cmd) == cmd + 1;
    } else {
      assert ToggleReqResp(cmd) == cmd - 1;
    }
  }

  lemma KnownCommand(cmd: u32)
    requires GetCommandSize(cmd) != -1
    ensures 0 < RequestOf(cmd) < 0x52 && RequestOf(cmd) % 2 == 1
  {
  }

  // ---------------------------------------------------------------------------------------------
  // Header fields

  function Word(image: seq<byte>, at: nat): u32
    requires at + 4 <= |image|
  {
    Le32(image[at..at + 4])
  }

  function Command(image: seq<byte>): u32
    requires HEADER_SIZE <= |image|
  {
    Word(image, COMMAND_OFFSET)
  }

  function ExtentSize(image: seq<byte>): u32
    requires HEADER_SIZE <= |image|
  {
    Word(image, EXTENT_SIZE_OFFSET)
  }

  /** The cookie that names the queue item: eight bytes, kept uninterpreted. */
  function Cookie(image: seq<byte>): seq<byte>
    requires HEADER_SIZE <= |image|
  {
    image[COOKIE_QITEM_OFFSET..COOKIE_QITEM_OFFSET + 8]
  }

  function Put(image: seq<byte>, at: nat, field: seq<byte>): (r: seq<byte>)
    requires at + |field| <= |image|
    ensures |r| == |image|
  {
    image[..at] + field + image[at + |field|..]
  }

  /** Length on the wire of the packet that starts with this header. */
  function PduLength(image: seq<byte>): int
    requires HEADER_SIZE <= |image|
  {
    HEADER_SIZE + GetCommandSize(Command(image)) + if HasPayload(Command(image)) then ExtentSize(image) else 0
  }

  predicate IsPdu(image: seq<byte>) {
    && HEADER_SIZE <= |image|
    && GetCommandSize(Command(image)) != -1
    && |image| == PduLength(image)
  }

  // ---------------------------------------------------------------------------------------------
  // Byte order

  /** `words` 32-bit words from `from` on, each turned between host and network order. */
  function Swap(s: seq<byte>, from: nat, words: nat): (r: seq<byte>)
    requires from + 4 * words <= |s|
    ensures |r| == |s|
    ensures forall i :: 0 <= i < |s| ==> r[i] == s[SwapIndex(i, from, words)]
  {
    seq<byte>(|s|, i requires 0 <= i < |s| => s[SwapIndex(i, from, words)])
  }

  function SwapIndex(i: nat, from: nat, words: nat): (j: nat)
    ensures if from <= i < from + 4 * words then from <= j < from + 4 * words else j == i
  {
    if from <= i < from + 4 * words then from + (i - from) / 4 * 4 + 3 - (i - from) % 4 else i
  }

  lemma SwapTwice(s: seq<byte>, from: nat, words: nat)
    requires from + 4 * words <= |s|
    ensures Swap(Swap(s, from, words), from, words) == s
  {
    hide SwapIndex;
    forall i: nat | i < |s|
      ensures SwapIndex(SwapIndex(i, from, words), from, words) == i
    {
      SwapIndexTwice(i, from, words);
    }
  }

  lemma SwapIndexTwice(i: nat, from: nat, words: nat)
    ensures SwapIndex(SwapIndex(i, from, words), from, words) == i
  {
  }

  /** Words of the command body that the codec swaps; up to three trailing bytes stay as they are. */
  function CommandWords(cmd: u32): nat {
    Max(GetCommandSize(cmd), 0) / 4
  }

  lemma WordsFit(cmd: u32)
    ensures 4 * CommandWords(cmd) <= Max(GetCommandSize(cmd), 0) < 4 * CommandWords(cmd) + 4
  {
  }

  /** What is put on the wire for a packet, and what the receiver makes of it. */
  function Encode(image: seq<byte>): (r: seq<byte>)
    requires IsPdu(image)
    ensures |r| == |image|
  {
    WordsFit(Command(image));
    Swap(Swap(image, HEADER_SIZE, CommandWords(Command(image))), 0, HEADER_SIZE / 4)
  }

  /** A number with its highest byte first. */
  function BigEndian(x: u32): seq<byte> {
    [x / 0x100_0000, x / 0x1_0000 % 0x100, x / 0x100 % 0x100, x % 0x100]
  }

  lemma ReversedWord(b: seq<byte>)
    requires |b| == 4
    ensures [b[3], b[2], b[1], b[0]] == BigEndian(Le32(b))
  {
    var (a, c, d, e) := (b[0] as int, b[1] as int, b[2] as int, b[3] as int);
    var x := a + c * 0x100 + d * 0x1_0000 + e * 0x100_0000;
    DivModUnique(x, 0x100, c + d * 0x100 + e * 0x1_0000, a);
    DivModUnique(c + d * 0x100 + e * 0x1_0000, 0x100, d + e * 0x100, c);
    DivModUnique(x, 0x1_0000, d + e * 0x100, a + c * 0x100);
    DivModUnique(d + e * 0x100, 0x100, e, d);
    DivModUnique(x, 0x100_0000, e, a + c * 0x100 + d * 0x1_0000);
  }

  /** A swapped word is the number with its highest byte first. */
  lemma SwappedWord(s: seq<byte>, from: nat, words: nat, k: nat)
    requires from + 4 * words <= |s| && k < words
    ensures Swap(s, from, words)[from + 4 * k..from + 4 * k + 4] == BigEndian(Word(s, from + 4 * k))
  {
    var (at, r) := (from + 4 * k, Swap(s, from, words));
    SwapIndexAt(from, words, k);
    ReversedWord(s[at..at + 4]);
    hide SwapIndex, Le32, BigEndian;
    assert r[at..at + 4] == [s[at + 3], s[at + 2], s[at + 1], s[at]];
  }

  lemma SwapIndexAt(from: nat, words: nat, k: nat)
    requires k < words
    ensures var at := from + 4 * k;
            && SwapIndex(at, from, words) == at + 3 && SwapIndex(at + 1, from, words) == at + 2
            && SwapIndex(at + 2, from, words) == at + 1 && SwapIndex(at + 3, from, words) == at
  {
  }

  /** On the wire the 17 words of the header and the whole words of the body have their highest byte first,
      and the other bytes are as they were. */
  lemma NetworkOrder(image: seq<byte>, at: nat)
    requires IsPdu(image)
    requires at % 4 == 0 && (at < 68 || 68 <= at <= 68 + GetCommandSize(Command(image)) - 4)
    ensures at + 4 <= |image| && Encode(image)[at..at + 4] == BigEndian(Word(image, at))
  {
    hide SwapIndex, GetCommandSize, HasPayload, BigEndian, Le32;
    var words := CommandWords(Command(image));
    KnownSize(Command(image));
    WordsFit(Command(image));
    var body := Swap(image, HEADER_SIZE, words);
    if at < 68 {
      SwappedWord(body, 0, HEADER_SIZE / 4, at / 4);
      assert body[at..at + 4] == image[at..at + 4];
    } else {
      SwappedWord(image, HEADER_SIZE, words, (at - 68) / 4);
      assert Encode(image)[at..at + 4] == body[at..at + 4];
    }
  }

  lemma RestUnchanged(image: seq<byte>)
    requires IsPdu(image)
    ensures var end := 68 + GetCommandSize(Command(image)) / 4 * 4;
            68 <= end <= |image| && Encode(image)[end..] == image[end..]
  {
    hide SwapIndex, GetCommandSize, HasPayload;
    KnownSize(Command(image));
    WordsFit(Command(image));
  }

  function Decode(wire: seq<byte>): seq<byte>
    requires HEADER_SIZE <= |wire|
  {
    var image := Swap(wire, 0, HEADER_SIZE / 4);
    if HEADER_SIZE + 4 * CommandWords(Command(image)) <= |image| then
      Swap(image, HEADER_SIZE, CommandWords(Command(image)))
    else image
  }

  /** Decoding inverts encoding, for every command and every body, whatever its size modulo four. */
  lemma RoundTrip(image: seq<byte>)
    requires IsPdu(image)
    ensures Decode(Encode(image)) == image
  {
    hide SwapIndex, GetCommandSize, HasPayload;
    var words := CommandWords(Command(image));
    WordsFit(Command(image));
    var body := Swap(image, HEADER_SIZE, words);
    SwapTwice(body, 0, HEADER_SIZE / 4);
    SwapKeepsFront(image, words);
    SwapTwice(image, HEADER_SIZE, words);
  }

  /** The header is outside the range that the command codec swaps. */
  lemma SwapKeepsFront(image: seq<byte>, words: nat)
    requires HEADER_SIZE + 4 * words <= |image|
    ensures Swap(image, HEADER_SIZE, words)[..HEADER_SIZE] == image[..HEADER_SIZE]
    ensures Command(Swap(image, HEADER_SIZE, words)) == Command(image)
    ensures ExtentSize(Swap(image, HEADER_SIZE, words)) == ExtentSize(image)
  {
    hide SwapIndex, Le32;
    SameHeader(Swap(image, HEADER_SIZE, words), image);
  }

  lemma SameHeader(a: seq<byte>, b: seq<byte>)
    requires HEADER_SIZE <= |a| && HEADER_SIZE <= |b| && a[..HEADER_SIZE] == b[..HEADER_SIZE]
    ensures Command(a) == Command(b) && ExtentSize(a) == ExtentSize(b) && Cookie(a) == Cookie(b)
    ensures PduLength(a) == PduLength(b)
  {
    hide Le32, GetCommandSize, HasPayload;
    assert a[8..12] == a[..HEADER_SIZE][8..12] && b[8..12] == b[..HEADER_SIZE][8..12];
    assert a[12..16] == a[..HEADER_SIZE][12..16] && b[12..16] == b[..HEADER_SIZE][12..16];
    assert a[36..44] == a[..HEADER_SIZE][36..44] && b[36..44] == b[..HEADER_SIZE][36..44];
  }

  // ---------------------------------------------------------------------------------------------
  // The codec in place

  /** `htonl` (or `ntohl`) of the word at `at`. */
  function SwapWord(s: seq<byte>, at: nat): (r: seq<byte>)
    requires at + 4 <= |s|
    ensures |r| == |s|
  {
    s[..at] + [s[at + 3], s[at + 2], s[at + 1], s[at]] + s[at + 4..]
  }

  method SwapWordInPlace(buf: array<byte>, at: nat)
    requires at + 4 <= buf.Length
    modifies buf
    ensures buf[..] == SwapWord(old(buf[..]), at)
  {
    buf[at], buf[at + 1], buf[at + 2], buf[at + 3] := buf[at + 3], buf[at + 2], buf[at + 1], buf[at];
  }

  /** Swap `words` words of the buffer, from `from` on. */
  method SwapInPlace(buf: array<byte>, from: nat, words: nat)
    requires from + 4 * words <= buf.Length
    modifies buf
    ensures buf[..] == Swap(old(buf[..]), from, words)
  {
    hide Swap, SwapIndex, SwapWord;
    ghost var s := buf[..];
    NothingSwapped(s, from);
    var i := 0;
    while i < words
      invariant i <= words
      invariant buf[..] == Swap(s, from, i)
    {
      SwapWordInPlace(buf, from + 4 * i);
      SwapOneMore(s, from, i);
      i := i + 1;
    }
  }

  lemma NothingSwapped(s: seq<byte>, from: nat)
    requires from <= |s|
    ensures Swap(s, from, 0) == s
  {
  }

  lemma SwapOneMore(s: seq<byte>, from: nat, i: nat)
    requires from + 4 * (i + 1) <= |s|
    ensures SwapWord(Swap(s, from, i), from + 4 * i) == Swap(s, from, i + 1)
  {
    hide SwapIndex;
    var a, b := SwapWord(Swap(s, from, i), from + 4 * i), Swap(s, from, i + 1);
    forall x: nat | x < |s|
      ensures a[x] == b[x]
    {
      SwapIndexStep(x, from, i);
      if from + 4 * i <= x < from + 4 * i + 4 {
        SwapIndexStep(from + 4 * i + 3 - (x - (from + 4 * i)), from, i);
      }
    }
  }

  lemma SwapIndexStep(x: nat, from: nat, i: nat)
    ensures SwapIndex(x, from, i + 1) ==
            if from + 4 * i <= x < from + 4 * i + 4 then from + 4 * i + 3 - (x - (from + 4 * i))
            else SwapIndex(x, from, i)
    ensures from + 4 * i <= x ==> SwapIndex(x, from, i) == x
  {
    if from + 4 * i <= x < from + 4 * i + 4 {
      DivModUnique(x - from, 4, i, x - from - 4 * i);
    }
  }

  method EncodeProtoHeader(buf: array<byte>)
    requires HEADER_SIZE <= buf.Length
    modifies buf
    ensures buf[..] == Swap(old(buf[..]), 0, HEADER_SIZE / 4)
  {
    SwapInPlace(buf, 0, HEADER_SIZE / 4);
  }

  method DecodeProtoHeader(buf: array<byte>)
    requires HEADER_SIZE <= buf.Length
    modifies buf
    ensures buf[..] == Swap(old(buf[..]), 0, HEADER_SIZE / 4)
  {
    SwapInPlace(buf, 0, HEADER_SIZE / 4);
  }

  /** False for an unknown command, which leaves the buffer alone. */
  method EncodeCommandBuffer(buf: array<byte>, cmd: u32) returns (known: bool)
    requires HEADER_SIZE + 4 * CommandWords(cmd) <= buf.Length
    modifies buf
    ensures known <==> GetCommandSize(cmd) != -1
    ensures buf[..] == Swap(old(buf[..]), HEADER_SIZE, CommandWords(cmd))
  {
    known := GetCommandSize(cmd) != -1;
    SwapInPlace(buf, HEADER_SIZE, CommandWords(cmd));
  }

  method DecodeCommandBuffer(buf: array<byte>, cmd: u32) returns (known: bool)
    requires HEADER_SIZE + 4 * CommandWords(cmd) <= buf.Length
    modifies buf
    ensures known <==> GetCommandSize(cmd) != -1
    ensures buf[..] == Swap(old(buf[..]), HEADER_SIZE, CommandWords(cmd))
  {
    known := GetCommandSize(cmd) != -1;
    SwapInPlace(buf, HEADER_SIZE, CommandWords(cmd));
  }

  method PutField(buf: array<byte>, at: nat, field: seq<byte>)
    requires at + |field| <= buf.Length
    modifies buf
    ensures buf[..] == Put(old(buf[..]), at, field)
  {
    for i := 0 to |field|
      invariant forall x :: 0 <= x < buf.Length ==> buf[x] == if at <= x < at + i then field[x - at] else old(buf[x])
    {
      buf[at + i] := field[i];
    }
  }

  // ---------------------------------------------------------------------------------------------
  // Senders

  datatype SendResult = Sent(bytes: seq<byte>) | SendFailed(bytes: seq<byte>)

  /** The send loop: the socket takes any positive part of what it is offered, or fails. */
  method SendAll(buf: array<byte>, size: nat) returns (r: SendResult)
    requires size <= buf.Length
    ensures r.bytes <= buf[..size]
    ensures r.Sent? ==> r.bytes == buf[..size]
  {
    var sendSize, offset := size, 0;
    var taken: seq<byte> := [];
    while sendSize > 0
      invariant 0 <= offset && 0 <= sendSize && offset + sendSize == size
      invariant taken == buf[..offset]
    {
      var failed: bool := *;
      if failed {
        assert taken == buf[..size][..offset];
        return SendFailed(taken);
      }
      var sendBytes: nat :| 0 < sendBytes <= sendSize;
      taken := taken + buf[offset..offset + sendBytes];
      assert taken == buf[..offset + sendBytes];
      sendSize := sendSize - sendBytes;
      offset := offset + sendBytes;
    }
    r := Sent(taken);
  }

  /** The request as the client's sender stamps it: the status preset to the failure and the address of
      the queue item in its cookie. */
  function Stamped(image: seq<byte>, qitem: seq<byte>): (r: seq<byte>)
    requires HEADER_SIZE <= |image| && |qitem| == 8
    ensures |r| == |image|
  {
    Put(Put(image, STATUS_OFFSET, Le32Bytes(HFS_TRANSMISSION_FAILED)), COOKIE_QITEM_OFFSET, qitem)
  }

  /** The positions of the status and of the item cookie. */
  predicate StampedAt(x: int) {
    STATUS_OFFSET <= x < STATUS_OFFSET + 4 || COOKIE_QITEM_OFFSET <= x < COOKIE_QITEM_OFFSET + 8
  }

  lemma StampKeeps(image: seq<byte>, qitem: seq<byte>)
    requires HEADER_SIZE <= |image| && |qitem| == 8
    ensures Command(Stamped(image, qitem)) == Command(image) && ExtentSize(Stamped(image, qitem)) == ExtentSize(image)
    ensures Cookie(Stamped(image, qitem)) == qitem
    ensures Word(Stamped(image, qitem), 16) == 0x8008_0005 != 0
    ensures forall x ::
              0 <= x < |image| && !StampedAt(x) ==> Stamped(image, qitem)[x] == image[x]
  {
    hide Le32, Le32Bytes;
    var s := Stamped(image, qitem);
    assert s[8..12] == image[8..12] && s[12..16] == image[12..16] && s[36..44] == qitem;
    assert s[16..20] == Le32Bytes(HFS_TRANSMISSION_FAILED);
    Le32RoundTrip(HFS_TRANSMISSION_FAILED);
  }

  /** Swapping inside a prefix does not look past it. */
  lemma SwapPrefix(s: seq<byte>, from: nat, words: nat, k: nat)
    requires from + 4 * words <= k <= |s|
    ensures Swap(s, from, words)[..k] == Swap(s[..k], from, words)
  {
    hide SwapIndex;
  }

  /** The front of an encoded buffer is the encoded packet at its front. */
  lemma EncodedFront(image: seq<byte>, len: nat)
    requires HEADER_SIZE <= |image| && GetCommandSize(Command(image)) != -1 && len == PduLength(image) <= |image|
    ensures IsPdu(image[..len]) && Command(image[..len]) == Command(image)
    ensures HEADER_SIZE + 4 * CommandWords(Command(image)) <= |image|
    ensures Swap(Swap(image, HEADER_SIZE, CommandWords(Command(image))), 0, HEADER_SIZE / 4)[..len] ==
            Encode(image[..len])
  {
    hide SwapIndex, Swap, GetCommandSize, HasPayload, Command, ExtentSize;
    var words := CommandWords(Command(image));
    WordsFit(Command(image));
    KnownSize(Command(image));
    assert image[..len][..HEADER_SIZE] == image[..HEADER_SIZE];
    SameHeader(image[..len], image);
    SwapPrefix(image, HEADER_SIZE, words, len);
    SwapPrefix(Swap(image, HEADER_SIZE, words), 0, HEADER_SIZE / 4, len);
  }

  /** The buffer as the senders encode it. */
  function OnTheWire(buffer: seq<byte>): (wire: seq<byte>)
    requires HEADER_SIZE <= |buffer| && HEADER_SIZE + 4 * CommandWords(Command(buffer)) <= |buffer|
  {
    Swap(Swap(buffer, HEADER_SIZE, CommandWords(Command(buffer))), 0, HEADER_SIZE / 4)
  }

  datatype OutBound = UnknownCommand | Transmitted(bytes: seq<byte>) | Failed(bytes: seq<byte>)

  /** The client's sender. A packet that could not be sent is put back as it was queued, except for the
      stamp, so that the caller may send the same request to another server. */
  method ClientOutBoundProcessing(item: array<byte>, qitem: seq<byte>) returns (r: OutBound)
    requires HEADER_SIZE <= item.Length && |qitem| == 8
    requires PduLength(Stamped(item[..], qitem)) <= item.Length
    modifies item
    ensures GetCommandSize(Command(old(item[..]))) == -1 <==> r.UnknownCommand?
    ensures !r.Transmitted? ==> item[..] == Stamped(old(item[..]), qitem)
    ensures !r.UnknownCommand? ==>
              var sent := Stamped(old(item[..]), qitem);
              IsPdu(sent[..PduLength(sent)]) && r.bytes <= Encode(sent[..PduLength(sent)])
    ensures r.Transmitted? ==>
              var sent := Stamped(old(item[..]), qitem);
              HEADER_SIZE + 4 * CommandWords(Command(sent)) <= |sent| &&
              r.bytes == Encode(sent[..PduLength(sent)]) && item[..] == OnTheWire(sent)
  {
    hide SwapIndex, Swap, GetCommandSize, HasPayload, Command, ExtentSize, Encode, Put, BodiesOf;
    ghost var queued := item[..];
    PutField(item, STATUS_OFFSET, Le32Bytes(HFS_TRANSMISSION_FAILED));
    PutField(item, COOKIE_QITEM_OFFSET, qitem);
    ghost var stamped := item[..];
    StampKeeps(queued, qitem);

    var cmd := Command(item[..]);
    var sendSize := HEADER_SIZE;
    var commandSize := GetCommandSize(cmd);
    if commandSize == -1 {
      return UnknownCommand;
    }
    sendSize := sendSize + commandSize;
    if HasPayload(cmd) {
      sendSize := sendSize + ExtentSize(item[..]);
    }
    KnownSize(cmd);
    EncodedFront(stamped, sendSize);
    var known := EncodeCommandBuffer(item, cmd);
    EncodeProtoHeader(item);
    var sent := SendAll(item, sendSize);
    match sent {
      case Sent(bytes) =>
        r := Transmitted(bytes);
      case SendFailed(bytes) =>
        RoundTripInPlace(stamped);
        DecodeProtoHeader(item);
        known := DecodeCommandBuffer(item, Command(item[..]));
        assert item[..] == stamped;
        PutField(item, STATUS_OFFSET, Le32Bytes(HFS_TRANSMISSION_FAILED));
        PutAgain(queued, qitem);
        r := Failed(bytes);
    }
  }

  lemma KnownSize(cmd: u32)
    requires GetCommandSize(cmd) != -1
    ensures GetCommandSize(cmd) >= 0
  {
  }

  /** Undoing both swaps on the whole buffer. */
  lemma RoundTripInPlace(image: seq<byte>)
    requires HEADER_SIZE <= |image| && HEADER_SIZE + 4 * CommandWords(Command(image)) <= |image|
    ensures var wire := Swap(Swap(image, HEADER_SIZE, CommandWords(Command(image))), 0, HEADER_SIZE / 4);
            var back := Swap(wire, 0, HEADER_SIZE / 4);
            Command(back) == Command(image) && Swap(back, HEADER_SIZE, CommandWords(Command(image))) == image
  {
    hide SwapIndex, GetCommandSize, Command;
    var words := CommandWords(Command(image));
    SwapTwice(Swap(image, HEADER_SIZE, words), 0, HEADER_SIZE / 4);
    SwapKeepsFront(image, words);
    SwapTwice(image, HEADER_SIZE, words);
  }

  lemma PutAgain(image: seq<byte>, qitem: seq<byte>)
    requires HEADER_SIZE <= |image| && |qitem| == 8
    ensures Put(Stamped(image, qitem), STATUS_OFFSET, Le32Bytes(HFS_TRANSMISSION_FAILED)) == Stamped(image, qitem)
  {
    hide Le32Bytes;
    assert Stamped(image, qitem)[16..20] == Le32Bytes(HFS_TRANSMISSION_FAILED);
  }

  /** The reply to a processed request: the same image with the command turned into the response. */
  function Replied(image: seq<byte>): (r: seq<byte>)
    requires HEADER_SIZE <= |image|
    ensures |r| == |image|
  {
    Put(image, COMMAND_OFFSET, Le32Bytes(ToggleReqResp(Command(image))))
  }

  lemma RepliedKeeps(image: seq<byte>)
    requires HEADER_SIZE <= |image|
    ensures Command(Replied(image)) == ToggleReqResp(Command(image))
    ensures ExtentSize(Replied(image)) == ExtentSize(image) && Cookie(Replied(image)) == Cookie(image)
  {
    hide Le32, Le32Bytes;
    var r, cmd := Replied(image), ToggleReqResp(Command(image));
    assert r[8..12] == Le32Bytes(cmd) && r[12..16] == image[12..16] && r[36..44] == image[36..44];
    Le32RoundTrip(cmd);
  }

  /** The server's sender: it never needs the packet again, sent or not. */
  method OutBoundProcessing(item: array<byte>) returns (r: OutBound)
    requires HEADER_SIZE <= item.Length
    requires PduLength(Replied(item[..])) <= item.Length
    modifies item
    ensures GetCommandSize(ToggleReqResp(Command(old(item[..])))) == -1 <==> r.UnknownCommand?
    ensures !r.UnknownCommand? ==>
              var reply := Replied(old(item[..]));
              IsPdu(reply[..PduLength(reply)]) && r.bytes <= Encode(reply[..PduLength(reply)])
    ensures r.Transmitted? ==>
              var reply := Replied(old(item[..]));
              r.bytes == Encode(reply[..PduLength(reply)])
  {
    hide SwapIndex, Swap, GetCommandSize, HasPayload, Command, ExtentSize, Encode, Put, BodiesOf;
    RepliedKeeps(item[..]);
    PutField(item, COMMAND_OFFSET, Le32Bytes(ToggleReqResp(Command(item[..]))));
    ghost var reply := item[..];
    var cmd := Command(item[..]);
    var sendSize := HEADER_SIZE;
    var commandSize := GetCommandSize(cmd);
    if commandSize == -1 {
      return UnknownCommand;
    }
    sendSize := sendSize + commandSize;
    if HasPayload(cmd) {
      sendSize := sendSize + ExtentSize(item[..]);
    }
    KnownSize(cmd);
    EncodedFront(reply, sendSize);
    var known := EncodeCommandBuffer(item, cmd);
    EncodeProtoHeader(item);
    var sent := SendAll(item, sendSize);
    r := if sent.Sent? then Transmitted(sent.bytes) else Failed(sent.bytes);
  }
}
