/** The requests and replies that are not about stripes: each packet is its header, the fields of its body
    one after the other, and perhaps a payload (proto_common.h). What the receiver reads at the offsets of
    the fields, after the packet has gone through encoder, wire and pump, is what the sender put in. */
module Messages {
  import opened Arith
  import opened Bytes
  import opened Wire
  import Framing
  import Remote

  const HFS_MAX_FILE_NAME := 255

  // ---------------------------------------------------------------------------------------------
  // The header

  datatype Header = Header(
    protoMagic: u32,
    version: u32,
    command: u32,
    pduExtentSize: u32,
    status: u32,
    credentials: seq<u32>,
    cookies: seq<seq<byte>>)

  predicate IsHeader(h: Header) {
    |h.credentials| == 4 && |h.cookies| == 4 && forall k :: 0 <= k < 4 ==> |h.cookies[k]| == 8
  }

  /** HFS_PROTO_HEADER, packed. */
  function HeaderBytes(h: Header): (b: seq<byte>)
    requires IsHeader(h)
    ensures |b| == HEADER_SIZE
  {
    Remote.Words([h.protoMagic, h.version, h.command, h.pduExtentSize, h.status] + h.credentials) +
    (h.cookies[0] + h.cookies[1] + h.cookies[2] + h.cookies[3])
  }

  /** The fields that encoder, pumps and senders look at are those of the header. */
  lemma HeaderFields(h: Header)
    requires IsHeader(h)
    ensures var b := HeaderBytes(h);
            && Command(b) == h.command && ExtentSize(b) == h.pduExtentSize && Word(b, STATUS_OFFSET) == h.status
            && Cookie(b) == h.cookies[0]
            && b[Remote.DATA_SERVER_IDX_OFFSET..Remote.DATA_SERVER_IDX_OFFSET + 8] == h.cookies[1]
  {
    var ws := [h.protoMagic, h.version, h.command, h.pduExtentSize, h.status] + h.credentials;
    var rest := h.cookies[0] + h.cookies[1] + h.cookies[2] + h.cookies[3];
    hide Remote.Words, Le32;
    var b := HeaderBytes(h);
    assert b == [] + Remote.Words(ws) + rest;
    Remote.WordOf([], ws, rest, 2);
    Remote.WordOf([], ws, rest, 3);
    Remote.WordOf([], ws, rest, 4);
    assert b[36..44] == rest[..8] && b[44..52] == rest[8..16];
  }

  // ---------------------------------------------------------------------------------------------
  // Bodies

  /** HFS_DIRENT */
  datatype Dirent = Dirent(parent: u32, self: u32, serverId: u32, name: string, mode: u32)

  /** HFS_IATTR: the servers and the handles of up to 16 groups in two copies. */
  datatype Inode = Inode(
    self: u32,
    mode: u32,
    owner: u32,
    linkCount: u32,
    group: u32,
    aTime: u32,
    cTime: u32,
    mTime: u32,
    size: u32,
    stripeCnt: u32,
    rdev: u32,
    srvs: seq<u32>,
    handles: seq<u32>)

  datatype Message =
    | DsPing(cookie: u32)
    | DsPingReply(cookie: u32)
    | DsFreeHandle(serverId: u32, handle: u32)
    | DsFreeHandleReply(serverId: u32, handle: u32)
    | Ping(cookie: u32)
    | PingReply(cookie: u32)
    | AllocHandle(serverId: u32, handle: u32)
    | AllocHandleReply(serverId: u32, handle: u32)
    | FreeHandle(serverId: u32, handle: u32)
    | FreeHandleReply(serverId: u32, handle: u32)
    | ReadDir(handle: u32, offset: u32)
    | ReadDirReply(handle: u32, count: u32, rows: seq<byte>)
    | CreateDirent(dirent: Dirent)
    | CreateDirentReply(cookie: u32)
    | DeleteDirent(parent: u32, self: u32)
    | DeleteDirentReply(cookie: u32)
    | LookUp(parent: u32, serverId: u32, name: string)
    | LookUpReply(self: u32, serverId: u32)
    | GetAttr(handle: u32)
    | GetAttrReply(inode: Inode)
    | SetAttr(inode: Inode, mask: u32)
    | SetAttrReply(cookie: u32)
    | GetExtentSize(unused: u32)
    | GetExtentSizeReply(size: u32)
    | GetConfig(offset: u32)
    | GetConfigReply(count: u32, rows: seq<byte>)
    | LoginPhase1(user: seq<byte>)
    | LoginPhase1Reply(nonce: seq<byte>)
    | LoginPhase2(user: seq<byte>, nonce: seq<byte>)
    | LoginPhase2Reply(padding: u32)
    | ConfChangedRequest(padding: u32)
    | ConfChanged(padding: u32)

  function CommandOf(m: Message): u32 {
    match m
    case DsPing(_) => 0x01
    case DsPingReply(_) => 0x02
    case DsFreeHandle(_, _) => 0x05
    case DsFreeHandleReply(_, _) => 0x06
    case Ping(_) => 0x21
    case PingReply(_) => 0x22
    case AllocHandle(_, _) => 0x23
    case AllocHandleReply(_, _) => 0x24
    case FreeHandle(_, _) => 0x25
    case FreeHandleReply(_, _) => 0x26
    case ReadDir(_, _) => 0x27
    case ReadDirReply(_, _, _) => 0x28
    case CreateDirent(_) => 0x29
    case CreateDirentReply(_) => 0x2A
    case DeleteDirent(_, _) => 0x2B
    case DeleteDirentReply(_) => 0x2C
    case LookUp(_, _, _) => 0x2D
    case LookUpReply(_, _) => 0x2E
    case GetAttr(_) => 0x2F
    case GetAttrReply(_) => 0x30
    case SetAttr(_, _) => 0x31
    case SetAttrReply(_) => 0x32
    case GetExtentSize(_) => 0x33
    case GetExtentSizeReply(_) => 0x34
    case GetConfig(_) => 0x35
    case GetConfigReply(_, _) => 0x36
    case LoginPhase1(_) => 0x37
    case LoginPhase1Reply(_) => 0x38
    case LoginPhase2(_, _) => 0x39
    case LoginPhase2Reply(_) => 0x3A
    case ConfChangedRequest(_) => 0x51
    case ConfChanged(_) => 0x52
  }

  function InodeWords(i: Inode): seq<u32> {
    [i.self, i.mode, i.owner, i.linkCount, i.group, i.aTime, i.cTime, i.mTime, i.size, i.stripeCnt, i.rdev] +
    i.srvs + i.handles
  }

  /** The words at the start of the body. */
  function Front(m: Message): seq<u32> {
    match m
    case DsFreeHandle(serverId, handle) => [serverId, handle]
    case DsFreeHandleReply(serverId, handle) => [serverId, handle]
    case AllocHandle(serverId, handle) => [serverId, handle]
    case AllocHandleReply(serverId, handle) => [serverId, handle]
    case FreeHandle(serverId, handle) => [serverId, handle]
    case FreeHandleReply(serverId, handle) => [serverId, handle]
    case ReadDir(handle, offset) => [handle, offset]
    case ReadDirReply(handle, count, _) => [handle, count]
    case CreateDirent(d) => [d.parent, d.self, d.serverId]
    case DeleteDirent(parent, self) => [parent, self]
    case LookUp(parent, serverId, _) => [parent, serverId]
    case LookUpReply(self, serverId) => [self, serverId]
    case GetAttr(handle) => [handle]
    case GetAttrReply(inode) => InodeWords(inode)
    case SetAttr(inode, mask) => InodeWords(inode) + [mask]
    case GetExtentSize(unused) => [unused]
    case GetExtentSizeReply(size) => [size]
    case GetConfig(offset) => [offset]
    case GetConfigReply(count, _) => [count]
    case LoginPhase1(_) => []
    case LoginPhase1Reply(_) => []
    case LoginPhase2(_, _) => []
    case LoginPhase2Reply(padding) => [padding]
    case ConfChangedRequest(padding) => [padding]
    case ConfChanged(padding) => [padding]
    case _ => [m.cookie]
  }

  /** The bytes behind them: a name, a user, a number of eight bytes. */
  function Middle(m: Message): seq<byte> {
    match m
    case CreateDirent(d) => FixedText(d.name, HFS_MAX_FILE_NAME)
    case LookUp(_, _, name) => FixedText(name, HFS_MAX_FILE_NAME)
    case LoginPhase1(user) => user
    case LoginPhase1Reply(nonce) => nonce
    case LoginPhase2(user, nonce) => user + nonce
    case _ => []
  }

  /** A word behind a name. */
  function Back(m: Message): seq<u32> {
    if m.CreateDirent? then [m.dirent.mode] else []
  }

  function Body(m: Message): seq<byte> {
    Remote.Words(Front(m)) + Middle(m) + Remote.Words(Back(m))
  }

  predicate HasRows(m: Message) {
    m.ReadDirReply? || m.GetConfigReply?
  }

  function RowsOf(m: Message): seq<byte> {
    if HasRows(m) then m.rows else []
  }

  predicate IsInode(i: Inode) {
    |i.srvs| == 32 && |i.handles| == 32
  }

  /** The fields have their C sizes, names are C strings, and rows fill at most one stripe. */
  predicate IsMessage(m: Message, ss: u32) {
    && (m.GetAttrReply? || m.SetAttr? ==> IsInode(m.inode))
    && (m.CreateDirent? ==> IsText(m.dirent.name, HFS_MAX_FILE_NAME))
    && (m.LookUp? ==> IsText(m.name, HFS_MAX_FILE_NAME))
    && (m.LoginPhase1? || m.LoginPhase2? ==> |m.user| == 8)
    && (m.LoginPhase1Reply? || m.LoginPhase2? ==> |m.nonce| == 8)
    && |RowsOf(m)| <= ss
  }

  /** The packet of a message. Only a message with rows says how many bytes of them there are. */
  function Image(hdr: seq<byte>, m: Message): (image: seq<byte>)
    requires |hdr| == HEADER_SIZE && |RowsOf(m)| < TWO32
    ensures |image| == HEADER_SIZE + |Body(m)| + |RowsOf(m)|
  {
    var front := Put(hdr, COMMAND_OFFSET, Le32Bytes(CommandOf(m)));
    (if HasRows(m) then Put(front, EXTENT_SIZE_OFFSET, Le32Bytes(|m.rows|)) else front) + Body(m) + RowsOf(m)
  }

  // ---------------------------------------------------------------------------------------------
  // What the receiver reads

  function WordAt(b: seq<byte>, at: nat): u32 {
    if at + 4 <= |b| then Word(b, at) else 0
  }

  function BytesAt(b: seq<byte>, at: nat, len: nat): seq<byte> {
    if at + len <= |b| then b[at..at + len] else []
  }

  function WordsAt(b: seq<byte>, at: nat, n: nat): seq<u32> {
    seq(n, i requires 0 <= i < n => WordAt(b, at + 4 * i))
  }

  function InodeAt(b: seq<byte>): Inode {
    Inode(WordAt(b, 68), WordAt(b, 72), WordAt(b, 76), WordAt(b, 80), WordAt(b, 84), WordAt(b, 88), WordAt(b, 92),
          WordAt(b, 96), WordAt(b, 100), WordAt(b, 104), WordAt(b, 108), WordsAt(b, 112, 32), WordsAt(b, 240, 32))
  }

  /** The message in a buffer, by its command and the offsets of the fields. */
  function MessageIn(b: seq<byte>): Message
    requires HEADER_SIZE <= |b|
  {
    match Command(b) as int
    case 0x01 => DsPing(WordAt(b, 68))
    case 0x02 => DsPingReply(WordAt(b, 68))
    case 0x05 => DsFreeHandle(WordAt(b, 68), WordAt(b, 72))
    case 0x06 => DsFreeHandleReply(WordAt(b, 68), WordAt(b, 72))
    case 0x21 => Ping(WordAt(b, 68))
    case 0x22 => PingReply(WordAt(b, 68))
    case 0x23 => AllocHandle(WordAt(b, 68), WordAt(b, 72))
    case 0x24 => AllocHandleReply(WordAt(b, 68), WordAt(b, 72))
    case 0x25 => FreeHandle(WordAt(b, 68), WordAt(b, 72))
    case 0x26 => FreeHandleReply(WordAt(b, 68), WordAt(b, 72))
    case 0x27 => ReadDir(WordAt(b, 68), WordAt(b, 72))
    case 0x28 => ReadDirReply(WordAt(b, 68), WordAt(b, 72), BytesAt(b, 76, ExtentSize(b)))
    case 0x29 =>
      CreateDirent(Dirent(WordAt(b, 68), WordAt(b, 72), WordAt(b, 76), CString(BytesAt(b, 80, 255)), WordAt(b, 335)))
    case 0x2A => CreateDirentReply(WordAt(b, 68))
    case 0x2B => DeleteDirent(WordAt(b, 68), WordAt(b, 72))
    case 0x2C => DeleteDirentReply(WordAt(b, 68))
    case 0x2D => LookUp(WordAt(b, 68), WordAt(b, 72), CString(BytesAt(b, 76, 255)))
    case 0x2E => LookUpReply(WordAt(b, 68), WordAt(b, 72))
    case 0x2F => GetAttr(WordAt(b, 68))
    case 0x30 => GetAttrReply(InodeAt(b))
    case 0x31 => SetAttr(InodeAt(b), WordAt(b, 368))
    case 0x32 => SetAttrReply(WordAt(b, 68))
    case 0x33 => GetExtentSize(WordAt(b, 68))
    case 0x34 => GetExtentSizeReply(WordAt(b, 68))
    case 0x35 => GetConfig(WordAt(b, 68))
    case 0x36 => GetConfigReply(WordAt(b, 68), BytesAt(b, 72, ExtentSize(b)))
    case 0x37 => LoginPhase1(BytesAt(b, 68, 8))
    case 0x38 => LoginPhase1Reply(BytesAt(b, 68, 8))
    case 0x39 => LoginPhase2(BytesAt(b, 68, 8), BytesAt(b, 76, 8))
    case 0x3A => LoginPhase2Reply(WordAt(b, 68))
    case 0x51 => ConfChangedRequest(WordAt(b, 68))
    case _ => ConfChanged(WordAt(b, 68))
  }

  /** The buffer holds the fields of the message one after the other. */
  predicate Holds(b: seq<byte>, m: Message) {
    var (front, middle, back, rows) := (Front(m), Middle(m), Back(m), RowsOf(m));
    var at := HEADER_SIZE + 4 * |front|;
    var end := at + |middle| + 4 * |back|;
    && end + |rows| <= |b| && Command(b) == CommandOf(m) && (HasRows(m) ==> ExtentSize(b) == |rows|)
    && (forall k :: 0 <= k < |front| ==> WordAt(b, HEADER_SIZE + 4 * k) == front[k])
    && b[at..at + |middle|] == middle
    && (forall k :: 0 <= k < |back| ==> WordAt(b, at + |middle| + 4 * k) == back[k])
    && b[end..end + |rows|] == rows
  }

  lemma InodeRead(b: seq<byte>, i: Inode)
    requires IsInode(i) && HEADER_SIZE + 300 <= |b|
    requires forall k :: 0 <= k < 75 ==> WordAt(b, HEADER_SIZE + 4 * k) == InodeWords(i)[k]
    ensures InodeAt(b) == i
  {
    hide WordAt;
    var ws := InodeWords(i);
    forall k | 0 <= k < 32
      ensures WordAt(b, 112 + 4 * k) == i.srvs[k] && WordAt(b, 240 + 4 * k) == i.handles[k]
    {
      assert WordAt(b, HEADER_SIZE + 4 * (11 + k)) == ws[11 + k] == i.srvs[k];
      assert WordAt(b, HEADER_SIZE + 4 * (43 + k)) == ws[43 + k] == i.handles[k];
    }
    FirstWords(b, ws, 11);
  }

  /** The first words, at their offsets. */
  lemma FirstWords(b: seq<byte>, ws: seq<u32>, n: nat)
    requires n <= |ws| && n <= 11 && forall k :: 0 <= k < |ws| ==> WordAt(b, HEADER_SIZE + 4 * k) == ws[k]
    ensures (n > 0 ==> WordAt(b, 68) == ws[0]) && (n > 1 ==> WordAt(b, 72) == ws[1])
    ensures (n > 2 ==> WordAt(b, 76) == ws[2]) && (n > 3 ==> WordAt(b, 80) == ws[3])
    ensures (n > 4 ==> WordAt(b, 84) == ws[4]) && (n > 5 ==> WordAt(b, 88) == ws[5])
    ensures (n > 6 ==> WordAt(b, 92) == ws[6]) && (n > 7 ==> WordAt(b, 96) == ws[7])
    ensures (n > 8 ==> WordAt(b, 100) == ws[8]) && (n > 9 ==> WordAt(b, 104) == ws[9])
    ensures n > 10 ==> WordAt(b, 108) == ws[10]
  {
    hide WordAt;
    assert n > 0 ==> WordAt(b, HEADER_SIZE + 4 * 0) == ws[0];
    assert n > 1 ==> WordAt(b, HEADER_SIZE + 4 * 1) == ws[1];
    assert n > 2 ==> WordAt(b, HEADER_SIZE + 4 * 2) == ws[2];
    assert n > 3 ==> WordAt(b, HEADER_SIZE + 4 * 3) == ws[3];
    assert n > 4 ==> WordAt(b, HEADER_SIZE + 4 * 4) == ws[4];
    assert n > 5 ==> WordAt(b, HEADER_SIZE + 4 * 5) == ws[5];
    assert n > 6 ==> WordAt(b, HEADER_SIZE + 4 * 6) == ws[6];
    assert n > 7 ==> WordAt(b, HEADER_SIZE + 4 * 7) == ws[7];
    assert n > 8 ==> WordAt(b, HEADER_SIZE + 4 * 8) == ws[8];
    assert n > 9 ==> WordAt(b, HEADER_SIZE + 4 * 9) == ws[9];
    assert n > 10 ==> WordAt(b, HEADER_SIZE + 4 * 10) == ws[10];
  }

  /** The receiver reads the message that the buffer holds. */
  lemma Parsed(b: seq<byte>, m: Message, ss: u32)
    requires IsMessage(m, ss) && Holds(b, m)
    ensures MessageIn(b) == m
  {
    hide Word, Command, ExtentSize, MessageIn, Holds;
    match m
    case CreateDirent(_) => NameParsed(b, m);
    case LookUp(_, _, _) => NameParsed(b, m);
    case GetAttrReply(_) => InodeParsed(b, m);
    case SetAttr(_, _) => InodeParsed(b, m);
    case LoginPhase1(_) => LoginParsed(b, m);
    case LoginPhase1Reply(_) => LoginParsed(b, m);
    case LoginPhase2(_, _) => LoginParsed(b, m);
    case _ => WordsParsed(b, m);
  }

  lemma NameParsed(b: seq<byte>, m: Message)
    requires Holds(b, m)
    requires (m.CreateDirent? && IsText(m.dirent.name, HFS_MAX_FILE_NAME)) ||
             (m.LookUp? && IsText(m.name, HFS_MAX_FILE_NAME))
    ensures MessageIn(b) == m
  {
    hide WordAt, Command, ExtentSize, CString;
    var at := HEADER_SIZE + 4 * |Front(m)|;
    if m.CreateDirent? {
      TextRoundTrip(m.dirent.name, HFS_MAX_FILE_NAME);
      FirstWords(b, Front(m), 3);
      assert WordAt(b, at + |Middle(m)| + 4 * 0) == Back(m)[0];
    } else {
      TextRoundTrip(m.name, HFS_MAX_FILE_NAME);
      FirstWords(b, Front(m), 2);
    }
  }

  lemma InodeParsed(b: seq<byte>, m: Message)
    requires Holds(b, m) && (m.GetAttrReply? || m.SetAttr?) && IsInode(m.inode)
    ensures MessageIn(b) == m
  {
    hide WordAt, Command, ExtentSize, InodeAt, CString;
    assert forall k :: 0 <= k < 75 ==> InodeWords(m.inode)[k] == Front(m)[k];
    InodeRead(b, m.inode);
    if m.SetAttr? {
      assert WordAt(b, HEADER_SIZE + 4 * 75) == Front(m)[75];
    }
  }

  lemma LoginParsed(b: seq<byte>, m: Message)
    requires Holds(b, m)
    requires m.LoginPhase1? || m.LoginPhase2? ==> |m.user| == 8
    requires m.LoginPhase1Reply? || m.LoginPhase2? ==> |m.nonce| == 8
    requires m.LoginPhase1? || m.LoginPhase1Reply? || m.LoginPhase2?
    ensures MessageIn(b) == m
  {
    hide WordAt, Command, ExtentSize, InodeAt, CString;
    if m.LoginPhase2? {
      assert b[68..76] == b[68..84][..8] == m.user && b[76..84] == b[68..84][8..] == m.nonce;
    }
  }

  lemma WordsParsed(b: seq<byte>, m: Message)
    requires Holds(b, m) && Middle(m) == [] && |Front(m)| <= 2 && |Front(m)| > 0
    requires !m.LoginPhase1? && !m.LoginPhase1Reply? && !m.LoginPhase2? && !m.CreateDirent? && !m.LookUp?
    requires !m.GetAttrReply? && !m.SetAttr?
    ensures MessageIn(b) == m
  {
    hide WordAt, Command, ExtentSize, InodeAt, CString;
    FirstWords(b, Front(m), |Front(m)|);
  }

  // ---------------------------------------------------------------------------------------------
  // The way of a message

  /** The header of the packet. */
  function ImageHeader(hdr: seq<byte>, m: Message): (front: seq<byte>)
    requires |hdr| == HEADER_SIZE && |RowsOf(m)| < TWO32
    ensures |front| == HEADER_SIZE
  {
    var front := Put(hdr, COMMAND_OFFSET, Le32Bytes(CommandOf(m)));
    if HasRows(m) then Put(front, EXTENT_SIZE_OFFSET, Le32Bytes(|m.rows|)) else front
  }

  lemma HeaderOf(hdr: seq<byte>, m: Message)
    requires |hdr| == HEADER_SIZE && |RowsOf(m)| < TWO32
    ensures var front := ImageHeader(hdr, m);
            && Command(front) == CommandOf(m) && (HasRows(m) ==> ExtentSize(front) == |m.rows|)
            && Cookie(front) == Cookie(hdr)
  {
    hide Le32, Le32Bytes, CommandOf;
    var (c, n) := (Le32Bytes(CommandOf(m)), Le32Bytes(|RowsOf(m)|));
    var front := Put(hdr, COMMAND_OFFSET, c);
    assert front[8..12] == c && front[36..44] == hdr[36..44];
    Le32RoundTrip(CommandOf(m));
    if HasRows(m) {
      var sized := Put(front, EXTENT_SIZE_OFFSET, n);
      assert sized[8..12] == c && sized[12..16] == n && sized[36..44] == hdr[36..44];
      Le32RoundTrip(|m.rows|);
    }
  }

  lemma WordsLaid(top: seq<byte>, ws: seq<u32>, rest: seq<byte>)
    ensures forall k :: 0 <= k < |ws| ==> WordAt(top + Remote.Words(ws) + rest, |top| + 4 * k) == ws[k]
  {
    hide Remote.Words, Word;
    forall k | 0 <= k < |ws|
      ensures WordAt(top + Remote.Words(ws) + rest, |top| + 4 * k) == ws[k]
    {
      Remote.WordOf(top, ws, rest, k);
    }
  }

  /** Where the pieces of a packet lie. */
  lemma PiecesLaid(top: seq<byte>, front: seq<u32>, middle: seq<byte>, back: seq<u32>, rows: seq<byte>)
    ensures var image := top + (Remote.Words(front) + middle + Remote.Words(back)) + rows;
            var at := |top| + 4 * |front|;
            var end := at + |middle| + 4 * |back|;
            && |image| == end + |rows|
            && (forall k :: 0 <= k < |front| ==> WordAt(image, |top| + 4 * k) == front[k])
            && image[at..at + |middle|] == middle
            && (forall k :: 0 <= k < |back| ==> WordAt(image, at + |middle| + 4 * k) == back[k])
            && image[end..end + |rows|] == rows
  {
    hide Remote.Words, WordAt;
    var (f, b) := (Remote.Words(front), Remote.Words(back));
    var image := top + (f + middle + b) + rows;
    var (at, end) := (|top| + |f|, |top| + |f| + |middle| + |b|);
    assert image == top + f + (middle + b + rows);
    WordsLaid(top, front, middle + b + rows);
    assert image == (top + f + middle) + b + rows;
    WordsLaid(top + f + middle, back, rows);
    assert image == (top + f) + middle + (b + rows) && |top + f| == at;
    assert image[at..at + |middle|] == middle;
    assert image == (top + f + middle + b) + rows && |top + f + middle + b| == end;
    assert image[end..] == rows && image[end..end + |rows|] == image[end..];
  }

  lemma ImageHolds(hdr: seq<byte>, m: Message)
    requires |hdr| == HEADER_SIZE && |RowsOf(m)| < TWO32
    ensures Holds(Image(hdr, m), m) && Cookie(Image(hdr, m)) == Cookie(hdr)
  {
    hide Remote.Words, Le32Bytes, Front, Middle, Back, CommandOf, Put, Command, ExtentSize, Cookie, WordAt, PduLength;
    var image := Image(hdr, m);
    HeaderOf(hdr, m);
    assert image[..HEADER_SIZE] == ImageHeader(hdr, m);
    SameHeader(image, ImageHeader(hdr, m));
    PiecesLaid(ImageHeader(hdr, m), Front(m), Middle(m), Back(m), RowsOf(m));
  }

  /** A buffer that starts with the packet holds the message, too. */
  lemma FrontHolds(b: seq<byte>, image: seq<byte>, m: Message)
    requires Holds(image, m) && |image| <= |b| && b[..|image|] == image
    ensures Holds(b, m)
  {
    hide Front, Middle, Back, CommandOf, Word, Command, ExtentSize;
    Remote.FrontFields(b, image);
    var (front, middle, back, rows) := (Front(m), Middle(m), Back(m), RowsOf(m));
    var at := HEADER_SIZE + 4 * |front|;
    var end := at + |middle| + 4 * |back|;
    Remote.SliceOfFront(b, |image|, at, at + |middle|);
    Remote.SliceOfFront(b, |image|, end, end + |rows|);
    forall k | 0 <= k < |back|
      ensures WordAt(b, at + |middle| + 4 * k) == back[k]
    {
      assert WordAt(image, at + |middle| + 4 * k) == back[k];
    }
  }

  /** The size that the code has for a command is the size of the fields of its body, and it has a payload
      exactly if the message has rows. */
  lemma SizeOfFields(m: Message, ss: u32)
    requires IsMessage(m, ss)
    ensures GetCommandSize(CommandOf(m)) == |Body(m)| > 0
    ensures HasPayload(CommandOf(m)) <==> HasRows(m)
    ensures Framing.Unsolicited(CommandOf(m)) <==> m.ConfChanged?
  {
    BodyLength(m);
    hide Body, Front, Middle, Back, FixedText, CString;
  }

  lemma BodyLength(m: Message)
    requires IsMessage(m, 0xFFFF_FFFF)
    ensures |Body(m)| == GetCommandSize(CommandOf(m))
  {
    hide Remote.Words, FixedText, CString;
    assert |Body(m)| == 4 * |Front(m)| + |Middle(m)| + 4 * |Back(m)|;
    hide Body;
  }

  /** The other commands: those of the stripe requests have bodies too, eight have none, and the rest are not
      known. */
  lemma OtherCommands(cmd: u32)
    ensures GetCommandSize(cmd) == 0 <==> cmd as int in {0x0B, 0x0C, 0x0D, 0x0E, 0x11, 0x12, 0x13, 0x14}
    ensures GetCommandSize(cmd) == -1 <==>
            cmd == 0 || 0x15 <= cmd <= 0x20 || 0x3B <= cmd <= 0x50 || 0x53 <= cmd
  {
  }

  lemma ImageIsPdu(hdr: seq<byte>, m: Message, ss: u32)
    requires |hdr| == HEADER_SIZE && IsMessage(m, ss)
    ensures var image := Image(hdr, m);
            && IsPdu(image) && Command(image) == CommandOf(m) && GetCommandSize(Command(image)) > 0
            && (HasPayload(Command(image)) ==> ExtentSize(image) <= ss)
  {
    SizeOfFields(m, ss);
    hide GetCommandSize, HasPayload, Front, Middle, Back, Body, CommandOf, Command, ExtentSize, Cookie, Word, Put,
         Le32Bytes;
    ImageHolds(hdr, m);
  }

  /** Where each field is in the packet of a message of the namespace or of the server table. */
  predicate FieldsPlaced(b: seq<byte>, m: Message) {
    |b| >= 72 &&
    match m
    case LookUp(parent, serverId, name) =>
      && Word(b, 8) == 0x2D && |b| == 331 && Word(b, 68) == parent && Word(b, 72) == serverId
      && CString(b[76..331]) == name
    case LookUpReply(self, serverId) =>
      Word(b, 8) == 0x2E && |b| == 76 && Word(b, 68) == self && Word(b, 72) == serverId
    case CreateDirent(d) =>
      && Word(b, 8) == 0x29 && |b| == 339 && Word(b, 68) == d.parent && Word(b, 72) == d.self
      && Word(b, 76) == d.serverId && CString(b[80..335]) == d.name && Word(b, 335) == d.mode
    case DeleteDirent(parent, self) => Word(b, 8) == 0x2B && |b| == 76 && Word(b, 68) == parent && Word(b, 72) == self
    case AllocHandle(serverId, _) => Word(b, 8) == 0x23 && |b| == 76 && Word(b, 68) == serverId
    case AllocHandleReply(_, handle) => Word(b, 8) == 0x24 && |b| == 76 && Word(b, 72) == handle
    case GetAttr(handle) => Word(b, 8) == 0x2F && |b| == 72 && Word(b, 68) == handle
    case GetAttrReply(inode) => Word(b, 8) == 0x30 && |b| == 368 && InodePlaced(b, inode)
    case SetAttr(inode, mask) => Word(b, 8) == 0x31 && |b| == 372 && InodePlaced(b, inode) && Word(b, 368) == mask
    case ReadDir(handle, offset) => Word(b, 8) == 0x27 && |b| == 76 && Word(b, 68) == handle && Word(b, 72) == offset
    case ReadDirReply(handle, count, rows) =>
      && Word(b, 8) == 0x28 && |b| == 76 + |rows| && Word(b, 12) == |rows| && Word(b, 68) == handle
      && Word(b, 72) == count && b[76..] == rows
    case GetConfig(offset) => Word(b, 8) == 0x35 && |b| == 72 && Word(b, 68) == offset
    case GetConfigReply(count, rows) =>
      Word(b, 8) == 0x36 && |b| == 72 + |rows| && Word(b, 12) == |rows| && Word(b, 68) == count && b[72..] == rows
    case ConfChanged(_) => Word(b, 8) == 0x52 && |b| == 72
    case _ => true
  }

  predicate InodePlaced(b: seq<byte>, i: Inode) {
    && |b| >= 368 && |i.srvs| == |i.handles| == 32
    && Word(b, 68) == i.self && Word(b, 72) == i.mode && Word(b, 76) == i.owner && Word(b, 80) == i.linkCount
    && Word(b, 84) == i.group && Word(b, 88) == i.aTime && Word(b, 92) == i.cTime && Word(b, 96) == i.mTime
    && Word(b, 100) == i.size && Word(b, 104) == i.stripeCnt && Word(b, 108) == i.rdev
    && (forall k :: 0 <= k < 32 ==> Word(b, 112 + 4 * k) == i.srvs[k])
    && forall k :: 0 <= k < 32 ==> Word(b, 240 + 4 * k) == i.handles[k]
  }

  lemma PacketFields(hdr: seq<byte>, m: Message, ss: u32)
    requires |hdr| == HEADER_SIZE && IsMessage(m, ss)
    ensures FieldsPlaced(Image(hdr, m), m)
  {
    var b := Image(hdr, m);
    SizeOfFields(m, ss);
    ImageHolds(hdr, m);
    assert Word(b, 8) == CommandOf(m) && (HasRows(m) ==> Word(b, 12) == |m.rows|);
    hide Image, Body, IsText, FieldsPlaced, MessageIn, Word, CommandOf, GetCommandSize;
    Parsed(b, m, ss);
    if m.GetAttrReply? || m.SetAttr? {
      InodeReadPlaced(b, m);
    } else if m.LookUp? || m.CreateDirent? || HasRows(m) {
      LongReadPlaced(b, m);
    } else {
      WordsReadPlaced(b, m);
    }
  }

  /** A packet from which the message is read. */
  predicate Reads(b: seq<byte>, m: Message) {
    && |b| == HEADER_SIZE + GetCommandSize(CommandOf(m)) + |RowsOf(m)| && |b| > HEADER_SIZE
    && Word(b, 8) == CommandOf(m) && (HasRows(m) ==> Word(b, 12) == |m.rows|)
    && MessageIn(b) == m
  }

  lemma InodeReadPlaced(b: seq<byte>, m: Message)
    requires Reads(b, m) && (m.GetAttrReply? || m.SetAttr?)
    ensures FieldsPlaced(b, m)
  {
    hide Word;
    var i := InodeAt(b);
    forall k | 0 <= k < 32
      ensures Word(b, 112 + 4 * k) == i.srvs[k] && Word(b, 240 + 4 * k) == i.handles[k]
    {
      assert WordsAt(b, 112, 32)[k] == WordAt(b, 112 + 4 * k) && WordsAt(b, 240, 32)[k] == WordAt(b, 240 + 4 * k);
    }
  }

  lemma LongReadPlaced(b: seq<byte>, m: Message)
    requires Reads(b, m) && (m.LookUp? || m.CreateDirent? || HasRows(m))
    ensures FieldsPlaced(b, m)
  {
    hide Word, CString, InodePlaced, InodeAt;
  }

  lemma WordsReadPlaced(b: seq<byte>, m: Message)
    requires Reads(b, m) && !m.LookUp? && !m.CreateDirent? && !HasRows(m) && !m.GetAttrReply? && !m.SetAttr?
    ensures FieldsPlaced(b, m)
  {
    hide Word, CString, InodePlaced, InodeAt, BytesAt;
  }

  predicate IsRequest(m: Message) {
    CommandOf(m) % 2 == 1
  }

  /** A request at the server: its pump hands over one buffer, and the server reads from it the message that
      the client sent. */
  lemma RequestRead(hdr: seq<byte>, m: Message, ss: u32, c: Framing.Conn)
    requires |hdr| == HEADER_SIZE && IsMessage(m, ss) && IsRequest(m) && Framing.IsIdle(c)
    ensures var buffer := Framing.InFreshBuffer(Image(hdr, m), ss).image;
            && Remote.Delivers(Framing.Server, ss, c, Image(hdr, m), Framing.Packet(Cookie(hdr), buffer), c.pending)
            && |buffer| >= HEADER_SIZE && MessageIn(buffer) == m
  {
    hide Image, IsPdu, Command, ExtentSize, GetCommandSize, HasPayload, MaxMemSize, Framing.Feed, Encode,
         Framing.PacketFate, Cookie, MessageIn, Holds, Framing.FitsFresh, CommandOf, Body;
    var image := Image(hdr, m);
    ImageIsPdu(hdr, m, ss);
    ImageHolds(hdr, m);
    Framing.PacketOutcome(Framing.Server, ss, c, image);
    Framing.FreshBuffer(Framing.Server, ss, c, image);
    FitsItsBuffer(image, ss);
    var buffer := Framing.InFreshBuffer(image, ss).image;
    assert buffer[..|image|] == image;
    FrontHolds(buffer, image, m);
    Parsed(buffer, m, ss);
  }

  lemma FitsItsBuffer(image: seq<byte>, ss: u32)
    requires IsPdu(image) && (HasPayload(Command(image)) ==> ExtentSize(image) <= ss)
    ensures Framing.FitsFresh(image, ss)
  {
    hide IsPdu, Command, ExtentSize, MaxMemSize, HasPayload;
    Framing.StripeFitsBuffer(image, ss);
  }

  /** A notification at the client, likewise. */
  lemma NotificationRead(hdr: seq<byte>, m: Message, ss: u32, c: Framing.Conn)
    requires |hdr| == HEADER_SIZE && IsMessage(m, ss) && m.ConfChanged? && Framing.IsIdle(c)
    ensures var buffer := Framing.InFreshBuffer(Image(hdr, m), ss).image;
            && Remote.Delivers(Framing.Client, ss, c, Image(hdr, m), Framing.Packet(Cookie(hdr), buffer), c.pending)
            && |buffer| >= HEADER_SIZE && MessageIn(buffer) == m
  {
    SizeOfFields(m, ss);
    hide Image, IsPdu, Command, ExtentSize, GetCommandSize, HasPayload, MaxMemSize, Framing.Feed, Encode,
         Framing.PacketFate, Cookie, MessageIn, Holds, Framing.FitsFresh, CommandOf, Body;
    var image := Image(hdr, m);
    ImageIsPdu(hdr, m, ss);
    ImageHolds(hdr, m);
    Framing.PacketOutcome(Framing.Client, ss, c, image);
    Framing.FreshBuffer(Framing.Client, ss, c, image);
    FitsItsBuffer(image, ss);
    var buffer := Framing.InFreshBuffer(image, ss).image;
    assert buffer[..|image|] == image;
    FrontHolds(buffer, image, m);
    Parsed(buffer, m, ss);
  }

  /** A reply at the client: its pump stores it over the request that waits for it, takes that off the pending
      list, and the client reads the message that the server sent. */
  lemma ReplyRead(hdr: seq<byte>, m: Message, ss: u32, c: Framing.Conn)
    requires |hdr| == HEADER_SIZE && IsMessage(m, ss) && !IsRequest(m) && !m.ConfChanged? && Framing.IsIdle(c)
    requires Cookie(hdr) in c.pending && |c.pending[Cookie(hdr)]| == MaxMemSize(ToggleReqResp(CommandOf(m)), ss)
    ensures var buffer := Remote.Stored(Image(hdr, m), c.pending[Cookie(hdr)]);
            && Remote.Delivers(Framing.Client, ss, c, Image(hdr, m), Framing.Packet(Cookie(hdr), buffer),
                               c.pending - {Cookie(hdr)})
            && |buffer| >= HEADER_SIZE && MessageIn(buffer) == m
  {
    SizeOfFields(m, ss);
    ToggleInvolution(CommandOf(m), ss);
    hide Image, IsPdu, Command, ExtentSize, GetCommandSize, HasPayload, MaxMemSize, Framing.Feed, Encode,
         Framing.PacketFate, Cookie, MessageIn, Holds, CommandOf, ToggleReqResp, Body, Framing.Unsolicited;
    var image := Image(hdr, m);
    ImageIsPdu(hdr, m, ss);
    ImageHolds(hdr, m);
    Framing.ReplyFitsRequest(image, ToggleReqResp(CommandOf(m)), ss);
    Framing.PacketOutcome(Framing.Client, ss, c, image);
    Framing.FirstReceived(ss, c, image);
    var buffer := Remote.Stored(image, c.pending[Cookie(hdr)]);
    assert buffer[..|image|] == image;
    FrontHolds(buffer, image, m);
    Parsed(buffer, m, ss);
  }
}
