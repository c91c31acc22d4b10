/** Requests and replies of a data server as packets: where their fields lie in the buffer, what the
    server makes of a request and writes into its buffer, and that the whole way there and back changes
    nothing (proto_common.h, hercules_client_lib.c, hercules_ds_cmds.c). */
module Remote {
  import opened Arith
  import opened Bytes
  import opened Layout
  import opened Wire
  import Framing
  import opened DataServers
  import opened Stripes
  import StripedClient

  const CMD_REQ_DS_ALLOC_HANDLE: u32 := 0x3
  const CMD_REQ_DS_READ_STRIPE: u32 := 0x7
  const CMD_REQ_DS_GET_LENGTH: u32 := 0xF

  // Offsets of the body's words, and of the payloads of a read and of a write.
  const SERVER_ID := 68
  const DATA_HANDLE := 72
  const STRIPE_NUM := 76
  const EXTENT_LENGTH := 76
  const STRIPE_CNT := 80
  const IO_SIZE := 84
  const IN_STRIPE := 88
  const READ_PAYLOAD := 88
  const WRITE_PAYLOAD := 92

  // ---------------------------------------------------------------------------------------------
  // Fields

  /** The words one after the other, as a little-endian host stores them. */
  function Words(ws: seq<u32>): (b: seq<byte>)
    ensures |b| == 4 * |ws|
  {
    if ws == [] then [] else Le32Bytes(ws[0]) + Words(ws[1..])
  }

  lemma {:induction false} WordOf(front: seq<byte>, ws: seq<u32>, rest: seq<byte>, k: nat)
    requires k < |ws|
    ensures Word(front + Words(ws) + rest, |front| + 4 * k) == ws[k]
    decreases k
  {
    hide Le32Bytes, Le32;
    var (first, tail) := (Le32Bytes(ws[0]), Words(ws[1..]));
    assert front + Words(ws) + rest == (front + first) + tail + rest;
    if k == 0 {
      Le32RoundTrip(ws[0]);
      assert (front + Words(ws) + rest)[|front|..|front| + 4] == first;
    } else {
      WordOf(front + first, ws[1..], rest, k - 1);
    }
  }

  lemma PutWord(image: seq<byte>, at: nat, x: u32)
    requires at + 4 <= |image|
    ensures Word(Put(image, at, Le32Bytes(x)), at) == x
  {
    hide Le32, Le32Bytes;
    assert Put(image, at, Le32Bytes(x))[at..at + 4] == Le32Bytes(x);
    Le32RoundTrip(x);
  }

  lemma PutElsewhere(image: seq<byte>, at: nat, field: seq<byte>, from: nat, len: nat)
    requires at + |field| <= |image| && from + len <= |image|
    requires from + len <= at || at + |field| <= from
    ensures Put(image, at, field)[from..from + len] == image[from..from + len]
  {
  }

  lemma WordElsewhere(image: seq<byte>, at: nat, field: seq<byte>, from: nat)
    requires at + |field| <= |image| && from + 4 <= |image|
    requires from + 4 <= at || at + |field| <= from
    ensures Word(Put(image, at, field), from) == Word(image, from)
  {
    hide Le32;
    PutElsewhere(image, at, field, from, 4);
  }

  /** A packet: the header with its command and the size of the payload, the words of the body, and the
      payload. */
  function Packed(hdr: seq<byte>, cmd: u32, body: seq<u32>, payload: seq<byte>): (image: seq<byte>)
    requires |hdr| == HEADER_SIZE && |payload| < TWO32
    ensures |image| == HEADER_SIZE + 4 * |body| + |payload|
  {
    Put(Put(hdr, COMMAND_OFFSET, Le32Bytes(cmd)), EXTENT_SIZE_OFFSET, Le32Bytes(|payload|)) + Words(body) + payload
  }

  lemma PackedFields(hdr: seq<byte>, cmd: u32, body: seq<u32>, payload: seq<byte>)
    requires |hdr| == HEADER_SIZE && |payload| < TWO32
    ensures var image := Packed(hdr, cmd, body, payload);
            && Command(image) == cmd && ExtentSize(image) == |payload| && Cookie(image) == Cookie(hdr)
            && (forall k :: 0 <= k < |body| ==> Word(image, HEADER_SIZE + 4 * k) == body[k])
            && image[HEADER_SIZE + 4 * |body|..] == payload
            && (GetCommandSize(cmd) == 4 * |body| && (HasPayload(cmd) || payload == []) ==> IsPdu(image))
  {
    hide Le32, Le32Bytes, GetCommandSize, HasPayload;
    var front := Put(Put(hdr, COMMAND_OFFSET, Le32Bytes(cmd)), EXTENT_SIZE_OFFSET, Le32Bytes(|payload|));
    var image := Packed(hdr, cmd, body, payload);
    assert image[8..12] == Le32Bytes(cmd) && image[12..16] == Le32Bytes(|payload|) && image[36..44] == hdr[36..44];
    Le32RoundTrip(cmd);
    Le32RoundTrip(|payload|);
    forall k | 0 <= k < |body|
      ensures Word(image, HEADER_SIZE + 4 * k) == body[k]
    {
      WordOf(front, body, payload, k);
    }
  }

  // ---------------------------------------------------------------------------------------------
  // Requests

  function CommandOf(req: Request): u32 {
    match req
    case ReadStripe(_, _, _) => CMD_REQ_DS_READ_STRIPE
    case WriteStripe(_, _, _, _) => CMD_REQ_DS_WRITE_STRIPE
    case GetLength(_) => CMD_REQ_DS_GET_LENGTH
    case AllocHandle => CMD_REQ_DS_ALLOC_HANDLE
  }

  /** The request moves no more than one stripe. */
  predicate FitsStripe(req: Request, ss: u32) {
    match req
    case ReadStripe(_, _, stripeCnt) => U32(stripeCnt * ss) <= ss
    case WriteStripe(_, _, _, data) => |data| <= ss
    case _ => true
  }

  function BodyOf(srv: u32, ss: u32, req: Request): (body: seq<u32>)
    requires FitsStripe(req, ss)
    ensures 4 * |body| == GetCommandSize(CommandOf(req))
  {
    match req
    case ReadStripe(hdl, stripeNum, stripeCnt) => [srv, hdl, stripeNum, stripeCnt, ss]
    case WriteStripe(hdl, stripeNum, inStripe, data) => [srv, hdl, stripeNum, 1, |data|, inStripe]
    case GetLength(hdl) => [srv, hdl, 0]
    case AllocHandle => [srv, 0]
  }

  function PayloadOf(req: Request): seq<byte> {
    if req.WriteStripe? then req.data else []
  }

  /** The packet that the client builds for a request. */
  function RequestImage(hdr: seq<byte>, srv: u32, ss: u32, req: Request): (image: seq<byte>)
    requires |hdr| == HEADER_SIZE && FitsStripe(req, ss)
    ensures |image| >= HEADER_SIZE
  {
    Packed(hdr, CommandOf(req), BodyOf(srv, ss, req), PayloadOf(req))
  }

  /** The words of a request, at the offsets of the packed structures. */
  lemma RequestFields(hdr: seq<byte>, srv: u32, ss: u32, req: Request)
    requires |hdr| == HEADER_SIZE && FitsStripe(req, ss)
    ensures var image := RequestImage(hdr, srv, ss, req);
            && |image| >= 76 && Word(image, 68) == srv
            && match req
               case ReadStripe(hdl, num, cnt) =>
                 && Command(image) == 0x7 && |image| == 88
                 && Word(image, 72) == hdl && Word(image, 76) == num && Word(image, 80) == cnt && Word(image, 84) == ss
               case WriteStripe(hdl, num, inStripe, data) =>
                 && Command(image) == 0x9 && |image| == 92 + |data| && ExtentSize(image) == |data|
                 && Word(image, 72) == hdl && Word(image, 76) == num && Word(image, 80) == 1
                 && Word(image, 84) == |data| && Word(image, 88) == inStripe && image[92..] == data
               case GetLength(hdl) => Command(image) == 0xF && |image| == 80 && Word(image, 72) == hdl
               case AllocHandle => Command(image) == 0x3 && |image| == 76
  {
    var (image, body) := (RequestImage(hdr, srv, ss, req), BodyOf(srv, ss, req));
    PackedFields(hdr, CommandOf(req), body, PayloadOf(req));
    hide Packed, Word, Command, ExtentSize, IsPdu, GetCommandSize, Cookie;
    assert Word(image, HEADER_SIZE + 4 * 0) == body[0] && Word(image, HEADER_SIZE + 4 * 1) == body[1];
    assert |body| > 3 ==> Word(image, HEADER_SIZE + 4 * 2) == body[2] && Word(image, HEADER_SIZE + 4 * 3) == body[3];
    assert |body| > 4 ==> Word(image, HEADER_SIZE + 4 * 4) == body[4];
    assert |body| > 5 ==> Word(image, HEADER_SIZE + 4 * 5) == body[5];
  }

  /** What the server finds in a buffer: one of the four requests, inside the buffer. */
  predicate HoldsRequest(buffer: seq<byte>) {
    && HEADER_SIZE <= |buffer|
    && var cmd := Command(buffer);
       || (cmd == CMD_REQ_DS_READ_STRIPE && READ_PAYLOAD <= |buffer|)
       || (cmd == CMD_REQ_DS_WRITE_STRIPE && WRITE_PAYLOAD <= |buffer| &&
           WRITE_PAYLOAD + Word(buffer, IO_SIZE) <= |buffer|)
       || (cmd == CMD_REQ_DS_GET_LENGTH && EXTENT_LENGTH + 4 <= |buffer|)
       || (cmd == CMD_REQ_DS_ALLOC_HANDLE && DATA_HANDLE + 4 <= |buffer|)
  }

  function RequestIn(buffer: seq<byte>): Request
    requires HoldsRequest(buffer)
  {
    var cmd := Command(buffer);
    if cmd == CMD_REQ_DS_READ_STRIPE then
      ReadStripe(Word(buffer, DATA_HANDLE), Word(buffer, STRIPE_NUM), Word(buffer, STRIPE_CNT))
    else if cmd == CMD_REQ_DS_WRITE_STRIPE then
      WriteStripe(Word(buffer, DATA_HANDLE), Word(buffer, STRIPE_NUM), Word(buffer, IN_STRIPE),
                  buffer[WRITE_PAYLOAD..WRITE_PAYLOAD + Word(buffer, IO_SIZE)])
    else if cmd == CMD_REQ_DS_GET_LENGTH then GetLength(Word(buffer, DATA_HANDLE))
    else AllocHandle
  }

  /** The request in the buffer that the server's reader allocates for it. */
  function Arrived(image: seq<byte>, ss: u32): seq<byte>
    requires HEADER_SIZE <= |image|
  {
    Framing.InFreshBuffer(image, ss).image
  }

  /** A buffer that starts with the packet has the packet's fields. */
  lemma FrontFields(buffer: seq<byte>, image: seq<byte>)
    requires HEADER_SIZE <= |image| <= |buffer| && buffer[..|image|] == image
    ensures Command(buffer) == Command(image) && ExtentSize(buffer) == ExtentSize(image) &&
            Cookie(buffer) == Cookie(image)
    ensures forall at: nat :: at + 4 <= |image| ==> Word(buffer, at) == Word(image, at)
  {
    hide Le32;
    assert buffer[..HEADER_SIZE] == image[..HEADER_SIZE];
    SameHeader(buffer, image);
    forall at: nat | at + 4 <= |image|
      ensures Word(buffer, at) == Word(image, at)
    {
      assert buffer[at..at + 4] == image[at..at + 4];
    }
  }

  /** The packet of a request is one that the server's pump accepts. */
  lemma RequestAccepted(hdr: seq<byte>, srv: u32, ss: u32, req: Request)
    requires |hdr| == HEADER_SIZE && FitsStripe(req, ss)
    ensures var image := RequestImage(hdr, srv, ss, req);
            && IsPdu(image) && Framing.FitsFresh(image, ss) && GetCommandSize(Command(image)) > 0
            && Command(image) == CommandOf(req) && Cookie(image) == Cookie(hdr)
            && |Arrived(image, ss)| == MaxMemSize(CommandOf(req), ss) && Arrived(image, ss)[..|image|] == image
  {
    var image := RequestImage(hdr, srv, ss, req);
    PackedFields(hdr, CommandOf(req), BodyOf(srv, ss, req), PayloadOf(req));
    hide Packed, Le32;
    Framing.StripeFitsBuffer(image, ss);
  }

  /** And the server reads from it the request that the client put in. */
  lemma RequestRead(hdr: seq<byte>, srv: u32, ss: u32, req: Request)
    requires |hdr| == HEADER_SIZE && FitsStripe(req, ss)
    ensures var buffer := Arrived(RequestImage(hdr, srv, ss, req), ss);
            && HoldsRequest(buffer) && RequestIn(buffer) == req && Word(buffer, SERVER_ID) == srv
            && Carries(buffer, srv, ss, req)
  {
    RequestAccepted(hdr, srv, ss, req);
    hide RequestImage, Arrived, IsPdu, Command, Framing.FitsFresh, MaxMemSize, Carries, HoldsRequest, RequestIn,
         FitsStripe;
    RequestCarries(hdr, srv, ss, req);
    var image := RequestImage(hdr, srv, ss, req);
    FrontCarries(Arrived(image, ss), image, srv, ss, req);
    FieldsRead(Arrived(image, ss), srv, ss, req);
  }

  lemma RequestCarries(hdr: seq<byte>, srv: u32, ss: u32, req: Request)
    requires |hdr| == HEADER_SIZE && FitsStripe(req, ss)
    ensures Carries(RequestImage(hdr, srv, ss, req), srv, ss, req)
  {
    PackedFields(hdr, CommandOf(req), BodyOf(srv, ss, req), PayloadOf(req));
    hide Packed, Word, Command, IsPdu, GetCommandSize;
  }

  lemma FrontCarries(buffer: seq<byte>, image: seq<byte>, srv: u32, ss: u32, req: Request)
    requires FitsStripe(req, ss) && |image| <= |buffer| && buffer[..|image|] == image && Carries(image, srv, ss, req)
    ensures Carries(buffer, srv, ss, req)
  {
    hide Word, Command, GetCommandSize, BodyOf, PayloadOf, FitsStripe, CommandOf;
    FrontFields(buffer, image);
    var at := HEADER_SIZE + 4 * |BodyOf(srv, ss, req)|;
    SliceOfFront(buffer, |image|, at, at + |PayloadOf(req)|);
  }

  lemma SliceOfFront(s: seq<byte>, n: nat, from: nat, to: nat)
    requires from <= to <= n <= |s|
    ensures s[..n][from..to] == s[from..to]
  {
  }

  /** The buffer holds the body and the payload of the request. */
  predicate Carries(buffer: seq<byte>, srv: u32, ss: u32, req: Request)
    requires FitsStripe(req, ss)
  {
    var (body, payload) := (BodyOf(srv, ss, req), PayloadOf(req));
    var at := HEADER_SIZE + 4 * |body|;
    && at + |payload| <= |buffer| && Command(buffer) == CommandOf(req)
    && (forall k :: 0 <= k < |body| ==> Word(buffer, HEADER_SIZE + 4 * k) == body[k])
    && buffer[at..at + |payload|] == payload
  }

  lemma FieldsRead(buffer: seq<byte>, srv: u32, ss: u32, req: Request)
    requires FitsStripe(req, ss) && Carries(buffer, srv, ss, req)
    ensures HoldsRequest(buffer) && RequestIn(buffer) == req && Word(buffer, SERVER_ID) == srv
  {
    hide Word, Command;
    var body := BodyOf(srv, ss, req);
    assert Word(buffer, HEADER_SIZE + 4 * 0) == body[0] && Word(buffer, HEADER_SIZE + 4 * 1) == body[1];
    assert |body| > 3 ==> Word(buffer, HEADER_SIZE + 4 * 2) == body[2] && Word(buffer, HEADER_SIZE + 4 * 3) == body[3];
    assert |body| > 5 ==> Word(buffer, HEADER_SIZE + 4 * 4) == body[4] && Word(buffer, HEADER_SIZE + 4 * 5) == body[5];
  }

  // ---------------------------------------------------------------------------------------------
  // Replies

  function StatusCode(status: Status): u32 {
    match status
    case Success => 0
    case InvalidHandleError => 0x8008_0002
    case InvalidStripeError => 0x8008_0003
    case HostOsError => 0x8000_0005
    case ConfigError => 0x8000_0801
    case TransmissionFailed => HFS_TRANSMISSION_FAILED
    case FatalError => 0x8000_0002
  }

  function StatusOf(code: u32): Status {
    match code as int
    case 0 => Success
    case 0x8008_0002 => InvalidHandleError
    case 0x8008_0003 => InvalidStripeError
    case 0x8000_0005 => HostOsError
    case 0x8000_0801 => ConfigError
    case 0x8008_0005 => TransmissionFailed
    case _ => FatalError
  }

  lemma StatusRoundTrip(status: Status)
    ensures StatusOf(StatusCode(status)) == status
  {
  }

  /** The reply finds room behind the header and the body of its request. */
  predicate HasRoom(buffer: seq<byte>, r: Reply) {
    HoldsRequest(buffer) && (Command(buffer) == CMD_REQ_DS_READ_STRIPE ==>
                             READ_PAYLOAD + |r.payload| <= |buffer| < TWO32)
  }

  /** What processing leaves in the buffer of the request: the results, and last the status. */
  function Served(buffer: seq<byte>, r: Reply): (b: seq<byte>)
    requires HasRoom(buffer, r)
    ensures |b| == |buffer|
  {
    Put(Results(buffer, r), STATUS_OFFSET, Le32Bytes(StatusCode(r.status)))
  }

  function Results(buffer: seq<byte>, r: Reply): (b: seq<byte>)
    requires HasRoom(buffer, r)
    ensures |b| == |buffer|
  {
    var (cmd, ok) := (Command(buffer), r.status == Success);
    if cmd == CMD_REQ_DS_READ_STRIPE && ok then
      Put(Put(Put(buffer, READ_PAYLOAD, r.payload), IO_SIZE, Le32Bytes(|r.payload|)), EXTENT_SIZE_OFFSET,
          Le32Bytes(|r.payload|))
    else if cmd == CMD_REQ_DS_READ_STRIPE then Put(buffer, EXTENT_SIZE_OFFSET, Le32Bytes(0))
    else if cmd == CMD_REQ_DS_GET_LENGTH && ok then Put(buffer, EXTENT_LENGTH, Le32Bytes(r.value))
    else if cmd == CMD_REQ_DS_ALLOC_HANDLE then Put(buffer, DATA_HANDLE, Le32Bytes(r.value))
    else buffer
  }

  /** What the client finds in the reply to `req`. */
  function ReplyIn(req: Request, buffer: seq<byte>): Reply
    requires HEADER_SIZE + GetCommandSize(CommandOf(req)) <= |buffer|
  {
    var size := ExtentSize(buffer);
    Reply(StatusOf(Word(buffer, STATUS_OFFSET)),
          if req.ReadStripe? && READ_PAYLOAD + size <= |buffer| then buffer[READ_PAYLOAD..READ_PAYLOAD + size] else [],
          if req.GetLength? then Word(buffer, EXTENT_LENGTH)
          else if req.AllocHandle? then Word(buffer, DATA_HANDLE)
          else 0)
  }

  /** A reply that `Exec` may give to the request. */
  predicate ReplyTo(req: Request, r: Reply, ss: u32) {
    && (r.payload != [] ==> req.ReadStripe? && r.status == Success && |r.payload| <= ss)
    && (r.value != 0 ==> (req.GetLength? && r.status == Success) || req.AllocHandle?)
  }

  lemma ExecReplies(d: Disk, ss: u32, req: Request)
    requires FitsStripe(req, ss)
    ensures ReplyTo(req, Exec(d, ss, req).1, ss)
  {
    hide HdlToFileName, SeekResult;
  }

  /** The buffer reports this reply. */
  predicate Reports(buffer: seq<byte>, srv: u32, req: Request, r: Reply) {
    && BodyEnd(req) <= |buffer| && Word(buffer, SERVER_ID) == srv
    && (Word(buffer, STATUS_OFFSET) == 0 <==> r.status == Success)
    && (req.ReadStripe? ==> READ_PAYLOAD + ExtentSize(buffer) <= |buffer|)
    && ReplyIn(req, buffer) == r
  }

  function BodyEnd(req: Request): (end: nat)
    ensures 76 <= end <= 92
  {
    HEADER_SIZE + GetCommandSize(CommandOf(req))
  }

  /** Length of the reply to `req` that reports `r`. */
  function ReplyEnd(req: Request, r: Reply): nat {
    BodyEnd(req) + |r.payload|
  }

  /** Processing leaves the reply in the buffer, and the header as it was but for status and size. */
  lemma ServedReports(buffer: seq<byte>, srv: u32, ss: u32, req: Request, r: Reply)
    requires FitsStripe(req, ss) && Carries(buffer, srv, ss, req) && HasRoom(buffer, r) && ReplyTo(req, r, ss)
    ensures Reports(Served(buffer, r), srv, req, r)
    ensures Command(Served(buffer, r)) == Command(buffer) && Cookie(Served(buffer, r)) == Cookie(buffer)
    ensures req.ReadStripe? ==> ExtentSize(Served(buffer, r)) == |r.payload|
  {
    var b := Results(buffer, r);
    ResultsReport(buffer, srv, ss, req, r);
    StatusRoundTrip(r.status);
    hide Results, Le32, Le32Bytes, StatusOf, StatusCode, Carries, HasRoom;
    var field := Le32Bytes(StatusCode(r.status));
    PutWord(b, STATUS_OFFSET, StatusCode(r.status));
    KeepsElsewhere(b, STATUS_OFFSET, field);
    if req.ReadStripe? {
      PutElsewhere(b, STATUS_OFFSET, field, READ_PAYLOAD, |r.payload|);
    }
  }

  /** A field of the header or the body written into the buffer leaves the other fields as they were. */
  lemma KeepsElsewhere(b: seq<byte>, at: nat, field: seq<byte>)
    requires |field| == 4 && HEADER_SIZE <= |b| && at + 4 <= |b|
    ensures var b' := Put(b, at, field);
            && (forall from: nat :: from + 4 <= |b| && (from + 4 <= at || at + 4 <= from) ==>
                Word(b', from) == Word(b, from))
            && (at + 4 <= 36 || 44 <= at ==> Cookie(b') == Cookie(b))
  {
    forall from: nat | from + 4 <= |b| && (from + 4 <= at || at + 4 <= from)
      ensures Word(Put(b, at, field), from) == Word(b, from)
    {
      WordElsewhere(b, at, field, from);
    }
    if at + 4 <= 36 || 44 <= at {
      PutElsewhere(b, at, field, 36, 8);
    }
  }

  lemma ResultsReport(buffer: seq<byte>, srv: u32, ss: u32, req: Request, r: Reply)
    requires FitsStripe(req, ss) && Carries(buffer, srv, ss, req) && HasRoom(buffer, r) && ReplyTo(req, r, ss)
    ensures var b := Results(buffer, r);
            && Command(b) == Command(buffer) && Cookie(b) == Cookie(buffer) && Word(b, SERVER_ID) == srv
            && (req.ReadStripe? ==> ExtentSize(b) == |r.payload| && READ_PAYLOAD + |r.payload| <= |b| &&
                                    b[READ_PAYLOAD..READ_PAYLOAD + |r.payload|] == r.payload)
            && (req.GetLength? ==> EXTENT_LENGTH + 4 <= |b| && Word(b, EXTENT_LENGTH) == r.value)
            && (req.AllocHandle? ==> Word(b, DATA_HANDLE) == r.value)
  {
    FieldsRead(buffer, srv, ss, req);
    hide Le32, Le32Bytes;
    if req.ReadStripe? {
      var size := Le32Bytes(|r.payload|);
      if r.status == Success {
        var b1 := Put(buffer, READ_PAYLOAD, r.payload);
        var b2 := Put(b1, IO_SIZE, size);
        assert b1[READ_PAYLOAD..READ_PAYLOAD + |r.payload|] == r.payload;
        PutElsewhere(b1, IO_SIZE, size, READ_PAYLOAD, |r.payload|);
        PutElsewhere(b2, EXTENT_SIZE_OFFSET, size, READ_PAYLOAD, |r.payload|);
        KeepsElsewhere(b1, IO_SIZE, size);
        KeepsElsewhere(b2, EXTENT_SIZE_OFFSET, size);
        WordElsewhere(buffer, READ_PAYLOAD, r.payload, COMMAND_OFFSET);
        WordElsewhere(buffer, READ_PAYLOAD, r.payload, SERVER_ID);
        PutElsewhere(buffer, READ_PAYLOAD, r.payload, 36, 8);
        PutWord(b2, EXTENT_SIZE_OFFSET, |r.payload|);
      } else {
        PutWord(buffer, EXTENT_SIZE_OFFSET, 0);
        KeepsElsewhere(buffer, EXTENT_SIZE_OFFSET, size);
      }
    } else if req.GetLength? {
      assert Word(buffer, HEADER_SIZE + 4 * 2) == BodyOf(srv, ss, req)[2];
      PutWord(buffer, EXTENT_LENGTH, r.value);
      KeepsElsewhere(buffer, EXTENT_LENGTH, Le32Bytes(r.value));
    } else if req.AllocHandle? {
      PutWord(buffer, DATA_HANDLE, r.value);
      KeepsElsewhere(buffer, DATA_HANDLE, Le32Bytes(r.value));
    }
  }

  /** The status word that processing leaves, in the numbers of hercules_errors.h and proto_common.h: a client
      takes 0 alone for a success. */
  lemma StatusWord(buffer: seq<byte>, r: Reply)
    requires HasRoom(buffer, r)
    ensures |Served(buffer, r)| >= HEADER_SIZE
    ensures var word := Word(Served(buffer, r), 16);
            && (word == 0 <==> r.status == Success)
            && (r.status == InvalidHandleError <==> word == 0x8008_0002)
            && (r.status == InvalidStripeError <==> word == 0x8008_0003)
            && (r.status == FatalError <==> word == 0x8000_0002)
  {
    PutWord(Results(buffer, r), STATUS_OFFSET, StatusCode(r.status));
    hide Results, HasRoom, Word, Put;
  }

  /** The results of a request, at the offsets of the packed structures of the replies. */
  lemma ReplyFields(buffer: seq<byte>, srv: u32, ss: u32, req: Request, r: Reply)
    requires FitsStripe(req, ss) && Carries(buffer, srv, ss, req) && HasRoom(buffer, r) && ReplyTo(req, r, ss)
    ensures var b := Served(buffer, r);
            && |b| == |buffer| >= 76 && Word(b, 68) == srv
            && (req.ReadStripe? && r.status == Success ==>
                  |b| >= 88 + |r.payload| && Word(b, 12) == Word(b, 84) == |r.payload| &&
                  b[88..88 + |r.payload|] == r.payload)
            && (req.ReadStripe? && r.status != Success ==> Word(b, 12) == 0)
            && (req.GetLength? ==> |b| >= 80 && Word(b, 76) == r.value)
            && (req.AllocHandle? ==> Word(b, 72) == r.value)
  {
    ServedReports(buffer, srv, ss, req, r);
    ReadSize(buffer, srv, ss, req, r);
    hide Served, Carries, HasRoom, Le32, StatusOf;
  }

  lemma ReadSize(buffer: seq<byte>, srv: u32, ss: u32, req: Request, r: Reply)
    requires FitsStripe(req, ss) && Carries(buffer, srv, ss, req) && HasRoom(buffer, r) && ReplyTo(req, r, ss)
    ensures req.ReadStripe? && r.status == Success ==>
              READ_PAYLOAD <= |buffer| && Word(Served(buffer, r), IO_SIZE) == |r.payload|
  {
    hide Le32, Le32Bytes, StatusCode, Word, BodyOf, PayloadOf;
    if req.ReadStripe? && r.status == Success {
      var b := Put(buffer, READ_PAYLOAD, r.payload);
      var size := Le32Bytes(|r.payload|);
      PutWord(b, IO_SIZE, |r.payload|);
      KeepsElsewhere(Put(b, IO_SIZE, size), EXTENT_SIZE_OFFSET, size);
      KeepsElsewhere(Results(buffer, r), STATUS_OFFSET, Le32Bytes(StatusCode(r.status)));
    }
  }

  /** What a reply reports lies behind the command word and before its end. */
  lemma ReportsKept(a: seq<byte>, b: seq<byte>, n: nat, srv: u32, req: Request, r: Reply)
    requires Reports(a, srv, req, r) && ReplyEnd(req, r) <= n <= |a| && n <= |b|
    requires req.ReadStripe? ==> ExtentSize(a) == |r.payload|
    requires forall i :: 12 <= i < n ==> a[i] == b[i]
    ensures Reports(b, srv, req, r) && ExtentSize(b) == ExtentSize(a)
  {
    hide Le32, StatusOf;
    assert b[12..16] == a[12..16] && b[16..20] == a[16..20] && b[68..72] == a[68..72] && b[72..76] == a[72..76];
    if req.GetLength? {
      assert b[76..80] == a[76..80];
    }
    if req.ReadStripe? {
      assert b[READ_PAYLOAD..READ_PAYLOAD + |r.payload|] == a[READ_PAYLOAD..READ_PAYLOAD + |r.payload|];
    }
  }

  /** The packet that the server sends back. */
  function ReplyImage(buffer: seq<byte>, req: Request, r: Reply): (image: seq<byte>)
    requires HasRoom(buffer, r) && ReplyEnd(req, r) <= |buffer|
    ensures |image| == ReplyEnd(req, r)
  {
    Replied(Served(buffer, r))[..ReplyEnd(req, r)]
  }

  /** It is a complete packet, reports the reply and names the request it answers. */
  lemma ReplySent(buffer: seq<byte>, srv: u32, ss: u32, req: Request, r: Reply)
    requires FitsStripe(req, ss) && Carries(buffer, srv, ss, req) && HasRoom(buffer, r) && ReplyTo(req, r, ss)
    requires |buffer| == MaxMemSize(CommandOf(req), ss)
    ensures PduLength(Replied(Served(buffer, r))) == ReplyEnd(req, r) <= |buffer|
    ensures var image := ReplyImage(buffer, req, r);
            && IsPdu(image) && Command(image) == ToggleReqResp(CommandOf(req)) && Cookie(image) == Cookie(buffer)
            && GetCommandSize(Command(image)) > 0 && !Framing.Unsolicited(Command(image))
            && Reports(image, srv, req, r) && (req.ReadStripe? ==> ExtentSize(image) == |r.payload|)
  {
    var (b, n) := (Served(buffer, r), ReplyEnd(req, r));
    ServedReports(buffer, srv, ss, req, r);
    hide Served, Reports, Carries, HasRoom, Replied, Cookie, ExtentSize;
    RepliedKeeps(b);
    var reply := Replied(b);
    Toggled(req, ss);
    assert forall i :: 12 <= i < n ==> b[i] == reply[i] by {
      RepliedBehind(b);
    }
    ReportsKept(b, reply, n, srv, req, r);
    assert reply[..n][..HEADER_SIZE] == reply[..HEADER_SIZE];
    SameHeader(reply[..n], reply);
    ReportsKept(reply, reply[..n], n, srv, req, r);
  }

  lemma RepliedBehind(b: seq<byte>)
    requires HEADER_SIZE <= |b|
    ensures forall i :: 12 <= i < |b| ==> Replied(b)[i] == b[i]
  {
  }

  /** The four replies have bodies of the sizes of their requests, and only a read's has a payload. */
  lemma Toggled(req: Request, ss: u32)
    ensures var resp := ToggleReqResp(CommandOf(req));
            && GetCommandSize(resp) == GetCommandSize(CommandOf(req)) > 0 && !Framing.Unsolicited(resp)
            && (HasPayload(resp) <==> req.ReadStripe?)
            && (req.ReadStripe? ==> MaxMemSize(CommandOf(req), ss) == BodyEnd(req) + ss)
            && MaxMemSize(CommandOf(req), ss) >= BodyEnd(req)
  {
  }

  /** The client's buffer once the reply is stored over the request. */
  function Stored(image: seq<byte>, pending: seq<byte>): (b: seq<byte>)
    ensures |image| <= |pending| ==> |b| == |pending|
  {
    image + if |image| <= |pending| then pending[|image|..] else []
  }

  /** The reply completes its request at the client: its pump stores it over the request, which is then no
      longer pending, and the buffer reports the reply. */
  lemma ReplyReturns(image: seq<byte>, srv: u32, ss: u32, req: Request, r: Reply, c: Framing.Conn)
    requires Framing.IsIdle(c) && IsPdu(image) && GetCommandSize(Command(image)) > 0 &&
             !Framing.Unsolicited(Command(image))
    requires ReplyTo(req, r, ss) && Reports(image, srv, req, r) && |image| == ReplyEnd(req, r)
    requires req.ReadStripe? ==> ExtentSize(image) == |r.payload|
    requires Cookie(image) in c.pending && |c.pending[Cookie(image)]| == MaxMemSize(CommandOf(req), ss)
    ensures var back := Stored(image, c.pending[Cookie(image)]);
            && Delivers(Framing.Client, ss, c, image, Framing.Packet(Cookie(image), back), c.pending - {Cookie(image)})
            && Reports(back, srv, req, r)
  {
    Toggled(req, ss);
    hide Reports, Framing.Feed, Encode, Cookie, Command, GetCommandSize, Framing.PacketFate, MaxMemSize;
    var pending := c.pending[Cookie(image)];
    Framing.PacketOutcome(Framing.Client, ss, c, image);
    Framing.FirstReceived(ss, c, image);
    ReportsKept(image, Stored(image, pending), |image|, srv, req, r);
  }

  /** hfsProcessDSCMD on the packet in its buffer: run the request and write the results over it. */
  method Serve(item: array<byte>, server: DataServer, ss: u32) returns (r: Reply)
    requires HoldsRequest(item[..]) && item.Length < TWO32
    requires FitsStripe(RequestIn(item[..]), ss)
    requires RequestIn(item[..]).ReadStripe? ==> READ_PAYLOAD + ss <= item.Length
    modifies item, server`files
    ensures (server.files, r) == Exec(old(server.files), ss, RequestIn(old(item[..])))
    ensures HasRoom(old(item[..]), r) && item[..] == Served(old(item[..]), r)
  {
    hide Exec, Put, Le32Bytes, StatusCode, Word;
    var (cmd, req) := (Command(item[..]), RequestIn(item[..]));
    ExecReplies(server.files, ss, req);
    r := server.ProcessDSCMD(ss, req);
    if cmd == CMD_REQ_DS_READ_STRIPE {
      if r.status == Success {
        PutField(item, READ_PAYLOAD, r.payload);
        PutField(item, IO_SIZE, Le32Bytes(|r.payload|));
        PutField(item, EXTENT_SIZE_OFFSET, Le32Bytes(|r.payload|));
      } else {
        PutField(item, EXTENT_SIZE_OFFSET, Le32Bytes(0));
      }
    } else if cmd == CMD_REQ_DS_GET_LENGTH && r.status == Success {
      PutField(item, EXTENT_LENGTH, Le32Bytes(r.value));
    } else if cmd == CMD_REQ_DS_ALLOC_HANDLE {
      PutField(item, DATA_HANDLE, Le32Bytes(r.value));
    }
    PutField(item, STATUS_OFFSET, Le32Bytes(StatusCode(r.status)));
  }

  // ---------------------------------------------------------------------------------------------
  // The whole call

  /** The queue item of a request, in the buffer that the client allocates for it. */
  function RequestItem(hdr: seq<byte>, srv: u32, ss: u32, req: Request): (item: seq<byte>)
    requires |hdr| == HEADER_SIZE && FitsStripe(req, ss)
  {
    Arrived(RequestImage(hdr, srv, ss, req), ss)
  }

  /** The stamp goes into the header. */
  lemma StampedItem(hdr: seq<byte>, srv: u32, ss: u32, req: Request, qitem: seq<byte>)
    requires |hdr| == HEADER_SIZE && FitsStripe(req, ss) && |qitem| == 8
    ensures var image := RequestImage(Stamped(hdr, qitem), srv, ss, req);
            var sent := Stamped(RequestItem(hdr, srv, ss, req), qitem);
            PduLength(sent) == |image| <= |sent| && sent[..|image|] == image && Cookie(image) == qitem
  {
    var image0 := RequestImage(hdr, srv, ss, req);
    var image := RequestImage(Stamped(hdr, qitem), srv, ss, req);
    RequestAccepted(hdr, srv, ss, req);
    RequestAccepted(Stamped(hdr, qitem), srv, ss, req);
    StampKeeps(hdr, qitem);
    var item := RequestItem(hdr, srv, ss, req);
    StampPacked(hdr, CommandOf(req), BodyOf(srv, ss, req), PayloadOf(req), qitem);
    hide RequestItem, Arrived, Packed, Le32Bytes, MaxMemSize, GetCommandSize, Command, ExtentSize, Cookie;
    assert item[..|image0|] == image0;
    assert item == image0 + item[|image0|..];
    StampBefore(image0, item[|image0|..], qitem);
    var sent := Stamped(item, qitem);
    assert sent[..|image|][..HEADER_SIZE] == sent[..HEADER_SIZE];
    SameHeader(sent, image);
  }

  lemma StampPacked(hdr: seq<byte>, cmd: u32, body: seq<u32>, payload: seq<byte>, qitem: seq<byte>)
    requires |hdr| == HEADER_SIZE && |payload| < TWO32 && |qitem| == 8
    ensures Stamped(Packed(hdr, cmd, body, payload), qitem) == Packed(Stamped(hdr, qitem), cmd, body, payload)
  {
    hide Le32Bytes, Words, Put;
    var (c, n, st) := (Le32Bytes(cmd), Le32Bytes(|payload|), Le32Bytes(HFS_TRANSMISSION_FAILED));
    var h1 := Put(hdr, COMMAND_OFFSET, c);
    var front := Put(h1, EXTENT_SIZE_OFFSET, n);
    assert Packed(hdr, cmd, body, payload) == front + (Words(body) + payload);
    StampBefore(front, Words(body) + payload, qitem);
    // The stamp commutes with the two fields.
    PutsCommute(h1, EXTENT_SIZE_OFFSET, n, STATUS_OFFSET, st);
    PutsCommute(Put(h1, STATUS_OFFSET, st), EXTENT_SIZE_OFFSET, n, COOKIE_QITEM_OFFSET, qitem);
    PutsCommute(hdr, COMMAND_OFFSET, c, STATUS_OFFSET, st);
    PutsCommute(Put(hdr, STATUS_OFFSET, st), COMMAND_OFFSET, c, COOKIE_QITEM_OFFSET, qitem);
  }

  lemma PutsCommute(s: seq<byte>, i: nat, f: seq<byte>, j: nat, g: seq<byte>)
    requires i + |f| <= j && j + |g| <= |s|
    ensures Put(Put(s, i, f), j, g) == Put(Put(s, j, g), i, f)
  {
    var (a, b) := (Put(Put(s, i, f), j, g), Put(Put(s, j, g), i, f));
    forall x | 0 <= x < |s|
      ensures a[x] == b[x]
    {
      assert a[x] == if i <= x < i + |f| then f[x - i] else if j <= x < j + |g| then g[x - j] else s[x];
    }
  }

  lemma StampBefore(front: seq<byte>, rest: seq<byte>, qitem: seq<byte>)
    requires HEADER_SIZE <= |front| && |qitem| == 8
    ensures Stamped(front + rest, qitem) == Stamped(front, qitem) + rest
  {
    hide Le32Bytes;
    PutBefore(front, rest, STATUS_OFFSET, Le32Bytes(HFS_TRANSMISSION_FAILED));
    PutBefore(Put(front, STATUS_OFFSET, Le32Bytes(HFS_TRANSMISSION_FAILED)), rest, COOKIE_QITEM_OFFSET, qitem);
  }

  lemma PutBefore(front: seq<byte>, rest: seq<byte>, at: nat, field: seq<byte>)
    requires at + |field| <= |front|
    ensures Put(front + rest, at, field) == Put(front, at, field) + rest
  {
  }

  /** The packet travels to the other end: its pump hands it over as `p` and is idle again. */
  predicate Delivers(role: Framing.Role, ss: nat, c: Framing.Conn, image: seq<byte>, p: Framing.Packet,
                     pending: map<Framing.Cookie8, seq<byte>>) {
    && Framing.IsIdle(c) && IsPdu(image)
    && var q := Framing.Feed(role, ss, Framing.Live(c), Encode(image));
    && q.Live? && Framing.IsIdle(q.conn) && q.conn.delivered == c.delivered + [p] && q.conn.pending == pending
  }

  /** The call went through: the server hands over a buffer that holds exactly this request, and the client
      ends with a buffer that reports exactly the reply that the server's files give, under the request it
      belongs to, which alone is no longer pending. */
  predicate Called(hdr: seq<byte>, srv: u32, ss: u32, req: Request, qitem: seq<byte>, d: Disk,
                   s: Framing.Conn, c: Framing.Conn)
    requires |hdr| == HEADER_SIZE && |qitem| == 8 && FitsStripe(req, ss) && qitem in c.pending
  {
    var image := RequestImage(Stamped(hdr, qitem), srv, ss, req);
    var (buffer, r) := (Arrived(image, ss), Exec(d, ss, req).1);
    && Delivers(Framing.Server, ss, s, image, Framing.Packet(qitem, buffer), s.pending)
    && HoldsRequest(buffer) && RequestIn(buffer) == req
    && HasRoom(buffer, r) && ReplyEnd(req, r) <= |buffer|
    && var back := Stored(ReplyImage(buffer, req, r), c.pending[qitem]);
    && Delivers(Framing.Client, ss, c, ReplyImage(buffer, req, r), Framing.Packet(qitem, back), c.pending - {qitem})
    && Reports(back, srv, req, r)
  }

  /** A request sent to a data server and its reply sent back. */
  lemma RemoteCall(hdr: seq<byte>, srv: u32, ss: u32, req: Request, qitem: seq<byte>, d: Disk,
                   s: Framing.Conn, c: Framing.Conn)
    requires |hdr| == HEADER_SIZE && |qitem| == 8 && FitsStripe(req, ss)
    requires MaxMemSize(CommandOf(req), ss) < TWO32
    requires Framing.IsIdle(s) && Framing.IsIdle(c)
    requires qitem in c.pending && |c.pending[qitem]| == MaxMemSize(CommandOf(req), ss)
    ensures Called(hdr, srv, ss, req, qitem, d, s, c)
  {
    hide RequestImage, Carries, Reports, HoldsRequest, RequestIn, Command, ExtentSize, GetCommandSize, MaxMemSize,
         Framing.Feed, Encode, Framing.PacketFate, Arrived, IsPdu, Exec, Served, Replied, Cookie, ReplyTo, BodyOf,
         CommandOf, PduLength, BodyEnd, Stored, Delivers, Stamped, ReplyImage, Framing.Unsolicited;
    var image := RequestImage(Stamped(hdr, qitem), srv, ss, req);
    StampKeeps(hdr, qitem);
    RequestAccepted(Stamped(hdr, qitem), srv, ss, req);
    RequestServed(Stamped(hdr, qitem), srv, ss, req, s);
    ExecReplies(d, ss, req);
    var (buffer, r) := (Arrived(image, ss), Exec(d, ss, req).1);
    RoomForReply(buffer, srv, ss, req, r);
    ReplySent(buffer, srv, ss, req, r);
    ReplyReturns(ReplyImage(buffer, req, r), srv, ss, req, r, c);
  }

  /** The request at the server. */
  lemma RequestServed(hdr: seq<byte>, srv: u32, ss: u32, req: Request, s: Framing.Conn)
    requires |hdr| == HEADER_SIZE && FitsStripe(req, ss) && Framing.IsIdle(s)
    ensures var image := RequestImage(hdr, srv, ss, req);
            var buffer := Arrived(image, ss);
            && Delivers(Framing.Server, ss, s, image, Framing.Packet(Cookie(hdr), buffer), s.pending)
            && HoldsRequest(buffer) && RequestIn(buffer) == req && Carries(buffer, srv, ss, req)
            && Cookie(buffer) == Cookie(hdr)
  {
    RequestAccepted(hdr, srv, ss, req);
    RequestRead(hdr, srv, ss, req);
    var image := RequestImage(hdr, srv, ss, req);
    hide RequestImage, Carries, HoldsRequest, RequestIn, Command, GetCommandSize, MaxMemSize, Framing.Feed, Encode,
         Framing.PacketFate, Cookie, IsPdu, FitsStripe, BodyOf, Framing.FitsFresh;
    Framing.PacketOutcome(Framing.Server, ss, s, image);
    Framing.FreshBuffer(Framing.Server, ss, s, image);
    assert Framing.InFreshBuffer(image, ss).image == Arrived(image, ss);
    hide Arrived, Framing.InFreshBuffer;
    assert Arrived(image, ss)[..|image|][..HEADER_SIZE] == Arrived(image, ss)[..HEADER_SIZE];
    SameHeader(Arrived(image, ss), image);
  }

  lemma RoomForReply(buffer: seq<byte>, srv: u32, ss: u32, req: Request, r: Reply)
    requires FitsStripe(req, ss) && Carries(buffer, srv, ss, req) && HoldsRequest(buffer) && ReplyTo(req, r, ss)
    requires |buffer| == MaxMemSize(CommandOf(req), ss) < TWO32
    ensures HasRoom(buffer, r)
  {
    hide Command, Word;
  }

  // ---------------------------------------------------------------------------------------------
  // The requests of the striped client

  /** No write of a striped file carries more than one stripe, so none overruns the server's buffer. */
  lemma WritesFit(k: nat, f: IAttr, off: nat, eff: seq<byte>, ss: u32)
    requires 0 < ss && 0 < |eff| && 0 < f.stripeCnt && |f.handles| == 2 * f.stripeCnt
    requires k / 2 < StripeCount(off, |eff|, ss) && off + |eff| <= Capacity(ss, f.stripeCnt)
    ensures FitsStripe(StripedClient.WriteRequest(k, f, off, eff, ss), ss)
  {
    hide Lcn, StripeCount, SliceSize, Lo, Hi, SliceOffset, Capacity, RowStart;
    SliceExact(k / 2, off, |eff|, ss);
  }

  /** A read of one stripe is answered with at most one stripe. */
  lemma ReadsFit(hdl: u32, stripeNum: u32, ss: u32)
    ensures FitsStripe(ReadStripe(hdl, stripeNum, 1), ss)
  {
    U32Small(ss);
  }

  /** Exactly when a write request runs over the buffer of the server that receives it. */
  lemma WriteOverrun(hdr: seq<byte>, body: seq<u32>, payload: seq<byte>, ss: u32, s: Framing.Conn)
    requires |hdr| == HEADER_SIZE && |body| == 6 && |payload| < TWO32 && Framing.IsIdle(s)
    ensures IsPdu(Packed(hdr, CMD_REQ_DS_WRITE_STRIPE, body, payload))
    ensures var wire := Encode(Packed(hdr, CMD_REQ_DS_WRITE_STRIPE, body, payload));
            Framing.Feed(Framing.Server, ss, Framing.Live(s), wire) == Framing.Dead(Framing.Overrun) <==> |payload| > ss
  {
    hide Packed, Framing.Feed, Encode;
    PackedFields(hdr, CMD_REQ_DS_WRITE_STRIPE, body, payload);
    Framing.FreshOverrun(Framing.Server, ss, s, Packed(hdr, CMD_REQ_DS_WRITE_STRIPE, body, payload));
  }

  /** After the reply to a read, the extent area of the client's buffer is the stripe, completed with the
      zeros that the buffer was allocated with. */
  lemma ReadArea(image: seq<byte>, pending: seq<byte>, srv: u32, ss: u32, req: Request, r: Reply)
    requires req.ReadStripe? && ReplyTo(req, r, ss)
    requires Reports(image, srv, req, r) && |image| == ReplyEnd(req, r) && ExtentSize(image) == |r.payload|
    requires |pending| == READ_PAYLOAD + ss && pending[READ_PAYLOAD..] == Zeros(ss)
    ensures Stored(image, pending)[READ_PAYLOAD..] == Window(r.payload, 0, ss)
  {
    hide StatusOf, Word;
    var b := Stored(image, pending);
    forall i | 0 <= i < ss
      ensures b[READ_PAYLOAD + i] == At(r.payload, i)
    {
      if i < |r.payload| {
        assert image[READ_PAYLOAD..READ_PAYLOAD + |r.payload|][i] == r.payload[i];
      } else {
        assert pending[READ_PAYLOAD..][i] == 0;
      }
    }
  }

  /** The sender leaves the extent area of a read's buffer as it was allocated. */
  lemma SentArea(hdr: seq<byte>, srv: u32, ss: u32, req: Request, qitem: seq<byte>)
    requires |hdr| == HEADER_SIZE && FitsStripe(req, ss) && |qitem| == 8 && req.ReadStripe?
    ensures var sent := Stamped(RequestItem(hdr, srv, ss, req), qitem);
            && |sent| == READ_PAYLOAD + ss && HEADER_SIZE + 4 * CommandWords(Command(sent)) <= |sent|
            && OnTheWire(sent)[READ_PAYLOAD..] == Zeros(ss)
  {
    RequestAccepted(hdr, srv, ss, req);
    StampKeeps(RequestItem(hdr, srv, ss, req), qitem);
    hide Packed, Le32Bytes, SwapIndex, Command;
  }

  // ---------------------------------------------------------------------------------------------
  // The call under the striped client

  /** What a send to a live server does to the files and answers is what the packets do: the server runs the
      request that it finds in its buffer, and the client finds the answer in its own. */
  lemma SentOverTheWire(hdr: seq<byte>, srv: u32, ss: u32, req: Request, qitem: seq<byte>, st: State, st': State,
                        r: Reply,
                        s: Framing.Conn, c: Framing.Conn)
    requires |hdr| == HEADER_SIZE && |qitem| == 8 && FitsStripe(req, ss)
    requires MaxMemSize(CommandOf(req), ss) < TWO32
    requires Framing.IsIdle(s) && Framing.IsIdle(c)
    requires qitem in c.pending && |c.pending[qitem]| == MaxMemSize(CommandOf(req), ss)
    requires Shape(st, |st.disks|) && srv < |st.disks| && Stripes.Sent(st, st', srv, ss, req, r) && st'.up[srv]
    ensures Called(hdr, srv, ss, req, qitem, st.disks[srv], s, c)
    ensures var buffer := Arrived(RequestImage(Stamped(hdr, qitem), srv, ss, req), ss);
            && HasRoom(buffer, r) && ReplyEnd(req, r) <= |buffer|
            && st'.disks == st.disks[srv := Exec(st.disks[srv], ss, RequestIn(buffer)).0]
            && var back := Stored(ReplyImage(buffer, req, r), c.pending[qitem]);
               BodyEnd(req) <= |back| && ReplyIn(req, back) == r
  {
    RemoteCall(hdr, srv, ss, req, qitem, st.disks[srv], s, c);
    hide Exec, RequestImage, RequestIn, ReplyImage, HasRoom, ReplyIn, Delivers, MaxMemSize, Stamped;
  }

  // ---------------------------------------------------------------------------------------------
  // The retry on the backup

  const DATA_SERVER_IDX_OFFSET := 44

  /** Two neighbouring words written over others. */
  lemma PutTwo(front: seq<byte>, a: seq<byte>, b: seq<byte>, tail: seq<byte>, x: seq<byte>, y: seq<byte>)
    requires |a| == |x| == 4 && |b| == |y| == 4
    ensures Put(Put(front + (a + (b + tail)), |front|, x), |front| + 4, y) == front + (x + (y + tail))
  {
    var (s0, n) := (front + (a + (b + tail)), |front|);
    assert s0[..n] == front && s0[n + 4..] == b + tail;
    var s1 := front + (x + (b + tail));
    assert Put(s0, n, x) == s1;
    assert s1[..n + 4] == front + x && s1[n + 8..] == tail;
  }

  lemma OneWord(body: seq<u32>, rest: seq<byte>)
    requires body != []
    ensures Words(body) + rest == Le32Bytes(body[0]) + (Words(body[1..]) + rest)
  {
    hide Le32Bytes;
    Joined(Le32Bytes(body[0]), Words(body[1..]), rest);
  }

  lemma Joined(a: seq<byte>, b: seq<byte>, c: seq<byte>)
    ensures (a + b) + c == a + (b + c)
  {
  }

  lemma TwoWords(body: seq<u32>, rest: seq<byte>)
    requires |body| >= 2
    ensures Words(body) + rest == Le32Bytes(body[0]) + (Le32Bytes(body[1]) + (Words(body[2..]) + rest))
  {
    hide Words, Le32Bytes;
    OneWord(body, rest);
    OneWord(body[1..], rest);
    assert body[1..][1..] == body[2..];
  }

  /** The two words rewritten in a body of at least two. */
  lemma WordsRewritten(front: seq<byte>, body: seq<u32>, rest: seq<byte>, x: u32, y: u32)
    requires |body| >= 2
    ensures Put(Put(front + (Words(body) + rest), |front|, Le32Bytes(x)), |front| + 4, Le32Bytes(y)) ==
            front + (Words([x, y] + body[2..]) + rest)
  {
    var body' := [x, y] + body[2..];
    assert body'[2..] == body[2..];
    hide Put, Le32Bytes, Words;
    TwoWords(body, rest);
    TwoWords(body', rest);
    PutTwo(front, Le32Bytes(body[0]), Le32Bytes(body[1]), Words(body[2..]) + rest, Le32Bytes(x), Le32Bytes(y));
  }

  /** The item of a query: its packet, whose body is the last part, and the zeros behind it. */
  lemma QueryItem(hdr: seq<byte>, srv: u32, ss: u32, req: Request)
    requires |hdr| == HEADER_SIZE && FitsStripe(req, ss) && (req.ReadStripe? || req.GetLength?)
    ensures var zeros := Zeros(if req.ReadStripe? then ss else 0);
            RequestItem(hdr, srv, ss, req) == Packed(hdr, CommandOf(req), BodyOf(srv, ss, req), []) + zeros
  {
    var image := RequestImage(hdr, srv, ss, req);
    RequestAccepted(hdr, srv, ss, req);
    var item := RequestItem(hdr, srv, ss, req);
    hide Packed, Command, IsPdu;
    assert item == image + item[|image|..];
  }

  /** The packet that a failed send has put back, with the words of server and handle rewritten through the
      overlay of a read request, is the packet of the same query for the backup, also for GET_LENGTH. */
  lemma RetriedItem(hdr: seq<byte>, srv: u32, ss: u32, req: Request, qitem: seq<byte>, srv': u32, hdl': u32)
    requires |hdr| == HEADER_SIZE && FitsStripe(req, ss) && |qitem| == 8 && (req.ReadStripe? || req.GetLength?)
    ensures FitsStripe(StripedClient.Retarget(req, hdl'), ss)
    ensures var failed := Stamped(RequestItem(hdr, srv, ss, req), qitem);
            && DATA_HANDLE + 4 <= |failed|
            && Put(Put(failed, SERVER_ID, Le32Bytes(srv')), DATA_HANDLE, Le32Bytes(hdl')) ==
               RequestItem(Stamped(hdr, qitem), srv', ss, StripedClient.Retarget(req, hdl'))
  {
    var req' := StripedClient.Retarget(req, hdl');
    var (body, body') := (BodyOf(srv, ss, req), BodyOf(srv', ss, req'));
    var zeros := Zeros(if req.ReadStripe? then ss else 0);
    QueryItem(hdr, srv, ss, req);
    QueryItem(Stamped(hdr, qitem), srv', ss, req');
    StampBefore(Packed(hdr, CommandOf(req), body, []), zeros, qitem);
    StampPacked(hdr, CommandOf(req), body, [], qitem);
    var front := PackedHeader(Stamped(hdr, qitem), CommandOf(req), 0);
    PackedParts(Stamped(hdr, qitem), CommandOf(req), body, zeros);
    PackedParts(Stamped(hdr, qitem), CommandOf(req), body', zeros);
    hide Packed, Put, Words, Le32Bytes, RequestItem, Stamped, PackedHeader;
    WordsRewritten(front, body, zeros, srv', hdl');
    assert [srv', hdl'] + body[2..] == body';
  }

  /** The header of a packet. */
  function PackedHeader(hdr: seq<byte>, cmd: u32, size: u32): (front: seq<byte>)
    requires |hdr| == HEADER_SIZE
    ensures |front| == HEADER_SIZE
  {
    Put(Put(hdr, COMMAND_OFFSET, Le32Bytes(cmd)), EXTENT_SIZE_OFFSET, Le32Bytes(size))
  }

  lemma PackedParts(hdr: seq<byte>, cmd: u32, body: seq<u32>, rest: seq<byte>)
    requires |hdr| == HEADER_SIZE
    ensures Packed(hdr, cmd, body, []) + rest == PackedHeader(hdr, cmd, 0) + (Words(body) + rest)
  {
    hide Put, Words, Le32Bytes;
  }

  /** hfsDegradedDSRequest on the packet: the copy that failed is named by a cookie of the header, and the
      two words are rewritten in place. */
  method DegradedDSRequest(item: array<byte>, f: IAttr, ghost hdr: seq<byte>, ghost srv: u32, ghost ss: u32,
                           ghost req: Request, ghost qitem: seq<byte>)
    requires |hdr| == HEADER_SIZE && FitsStripe(req, ss) && |qitem| == 8 && (req.ReadStripe? || req.GetLength?)
    requires item[..] == Stamped(RequestItem(hdr, srv, ss, req), qitem)
    requires |f.srvs| == |f.handles| == 2 * f.stripeCnt && Word(hdr, DATA_SERVER_IDX_OFFSET) < f.stripeCnt
    requires forall k :: 0 <= k < |f.srvs| ==> f.srvs[k] < TWO32
    modifies item
    ensures var b := Word(hdr, DATA_SERVER_IDX_OFFSET) + f.stripeCnt;
            && FitsStripe(StripedClient.Retarget(req, f.handles[b]), ss)
            && item[..] == RequestItem(Stamped(hdr, qitem), f.srvs[b], ss, StripedClient.Retarget(req, f.handles[b]))
  {
    hide RequestItem, Stamped, Put, Word, Le32Bytes, FitsStripe, StripedClient.Retarget;
    CookieKept(hdr, srv, ss, req, qitem);
    var b := Word(item[..], DATA_SERVER_IDX_OFFSET) + f.stripeCnt;
    var serverId: u32, dataHandle := f.srvs[b], f.handles[b];
    RetriedItem(hdr, srv, ss, req, qitem, serverId, dataHandle);
    Redirect(item, serverId, dataHandle);
  }

  method Redirect(item: array<byte>, serverId: u32, dataHandle: u32)
    requires DATA_HANDLE + 4 <= item.Length
    modifies item
    ensures item[..] == Put(Put(old(item[..]), SERVER_ID, Le32Bytes(serverId)), DATA_HANDLE, Le32Bytes(dataHandle))
  {
    hide Put, Le32Bytes;
    PutField(item, SERVER_ID, Le32Bytes(serverId));
    PutField(item, DATA_HANDLE, Le32Bytes(dataHandle));
  }

  lemma CookieKept(hdr: seq<byte>, srv: u32, ss: u32, req: Request, qitem: seq<byte>)
    requires |hdr| == HEADER_SIZE && FitsStripe(req, ss) && |qitem| == 8
    ensures var item := Stamped(RequestItem(hdr, srv, ss, req), qitem);
            |item| >= HEADER_SIZE && Word(item, DATA_SERVER_IDX_OFFSET) == Word(hdr, DATA_SERVER_IDX_OFFSET)
  {
    var item := RequestItem(hdr, srv, ss, req);
    RequestAccepted(hdr, srv, ss, req);
    hide Le32, Le32Bytes, Put, Packed, IsPdu, Command, MaxMemSize;
    StampElsewhere(item, qitem);
    PackedElsewhere(hdr, CommandOf(req), BodyOf(srv, ss, req), PayloadOf(req));
    SliceOfFront(item, |RequestImage(hdr, srv, ss, req)|, 44, 48);
  }

  lemma StampElsewhere(item: seq<byte>, qitem: seq<byte>)
    requires HEADER_SIZE <= |item| && |qitem| == 8
    ensures Stamped(item, qitem)[44..48] == item[44..48]
  {
    var st := Le32Bytes(HFS_TRANSMISSION_FAILED);
    PutElsewhere(item, STATUS_OFFSET, st, 44, 4);
    PutElsewhere(Put(item, STATUS_OFFSET, st), COOKIE_QITEM_OFFSET, qitem, 44, 4);
    hide Put, Le32Bytes;
  }

  lemma PackedElsewhere(hdr: seq<byte>, cmd: u32, body: seq<u32>, payload: seq<byte>)
    requires |hdr| == HEADER_SIZE && |payload| < TWO32
    ensures Packed(hdr, cmd, body, payload)[44..48] == hdr[44..48]
  {
    var (c, n) := (Le32Bytes(cmd), Le32Bytes(|payload|));
    PutElsewhere(hdr, COMMAND_OFFSET, c, 44, 4);
    PutElsewhere(Put(hdr, COMMAND_OFFSET, c), EXTENT_SIZE_OFFSET, n, 44, 4);
    hide Put, Le32Bytes, Words;
    var front := Put(Put(hdr, COMMAND_OFFSET, c), EXTENT_SIZE_OFFSET, n);
    assert (front + Words(body) + payload)[44..48] == front[44..48];
  }

  /** So the retry is a call like the first: the backup runs the same query under its own handle, and after
      a read the extent area of the buffer is as it was allocated when the reply comes. */
  lemma RetriedCall(hdr: seq<byte>, srv: u32, ss: u32, req: Request, qitem: seq<byte>, srv': u32, hdl': u32, d: Disk,
                    s: Framing.Conn, c: Framing.Conn)
    requires |hdr| == HEADER_SIZE && |qitem| == 8 && FitsStripe(req, ss) && (req.ReadStripe? || req.GetLength?)
    requires MaxMemSize(CommandOf(req), ss) < TWO32
    requires Framing.IsIdle(s) && Framing.IsIdle(c)
    requires qitem in c.pending && |c.pending[qitem]| == MaxMemSize(CommandOf(req), ss)
    ensures FitsStripe(StripedClient.Retarget(req, hdl'), ss)
    ensures var failed := Stamped(RequestItem(hdr, srv, ss, req), qitem);
            && DATA_HANDLE + 4 <= |failed|
            && var retried := Put(Put(failed, SERVER_ID, Le32Bytes(srv')), DATA_HANDLE, Le32Bytes(hdl'));
            && var sent := Stamped(retried, qitem);
            && var image := RequestImage(Stamped(Stamped(hdr, qitem), qitem), srv', ss,
                                         StripedClient.Retarget(req, hdl'));
            && PduLength(sent) == |image| <= |sent| && sent[..|image|] == image
            && (req.ReadStripe? ==> HEADER_SIZE + 4 * CommandWords(Command(sent)) <= |sent| &&
                                    READ_PAYLOAD <= |sent| && OnTheWire(sent)[READ_PAYLOAD..] == Zeros(ss))
    ensures Called(Stamped(hdr, qitem), srv', ss, StripedClient.Retarget(req, hdl'), qitem, d, s, c)
  {
    RetriedItem(hdr, srv, ss, req, qitem, srv', hdl');
    var req' := StripedClient.Retarget(req, hdl');
    assert CommandOf(req') == CommandOf(req);
    hide Put, RequestItem, RequestImage, Stamped, OnTheWire, Called, MaxMemSize, Command, PduLength, Le32Bytes,
         FitsStripe;
    StampedItem(Stamped(hdr, qitem), srv', ss, req', qitem);
    if req.ReadStripe? {
      SentArea(Stamped(hdr, qitem), srv', ss, req', qitem);
    }
    RemoteCall(Stamped(hdr, qitem), srv', ss, req', qitem, d, s, c);
  }
}
