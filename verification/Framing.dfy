/** The byte-at-a-time connection state machines of the server (requests) and of the client (replies).
    Both run the same stages; they differ in where the buffer of a packet comes from. */
module Framing {
  import opened Arith
  import opened Bytes
  import opened Wire

  datatype Stage = Waiting | Header | Body | Extent

  /** The server allocates a fresh zeroed buffer for every packet. The client does so for unsolicited
      packets only; a reply is stored over the request it answers, which its cookie names. */
  datatype Role = Server | Client

  type Cookie8 = seq<byte>

  datatype Packet = Packet(cookie: Cookie8, image: seq<byte>)

  datatype Conn = Conn(
    stage: Stage,
    bytesReadOff: nat,
    bounceHdr: seq<byte>,
    commandSize: int,
    item: Packet,
    pending: map<Cookie8, seq<byte>>,
    delivered: seq<Packet>)

  /** `Overrun`: the C code would write outside the packet's buffer. `Stranger`: a reply names no
      pending request. */
  datatype Fault = ProtocolError | Overrun | Stranger

  datatype Progress = Live(conn: Conn) | Dead(fault: Fault)

  const NO_ITEM := Packet([], [])

  predicate IsIdle(c: Conn) {
    c.stage == Waiting && c.bytesReadOff == 0 && |c.bounceHdr| == HEADER_SIZE
  }

  predicate Unsolicited(cmd: u32) {
    cmd == CMD_RESP_MDS_FS_CONF_CHANGED
  }

  predicate Allocates(role: Role, hdr: seq<byte>)
    requires HEADER_SIZE <= |hdr|
  {
    role == Server || Unsolicited(Command(hdr))
  }

  /** The buffer for the packet that this header announces. */
  function BufferFor(role: Role, ss: nat, c: Conn, hdr: seq<byte>): (r: (seq<byte>, bool))
    requires |hdr| == HEADER_SIZE
    ensures r.1 ==> |r.0| >= HEADER_SIZE
  {
    if Allocates(role, hdr) then
      var size := MaxMemSize(Command(hdr), ss);
      if size < HEADER_SIZE then ([], false) else (Zeros(size), true)
    else if Wire.Cookie(hdr) in c.pending && |c.pending[Wire.Cookie(hdr)]| >= HEADER_SIZE then
      (c.pending[Wire.Cookie(hdr)], true)
    else ([], false)
  }

  lemma SameBuffer(role: Role, ss: nat, c: Conn, c': Conn, hdr: seq<byte>)
    requires |hdr| == HEADER_SIZE && c.pending == c'.pending
    ensures BufferFor(role, ss, c, hdr) == BufferFor(role, ss, c', hdr)
  {
  }

  /** A complete packet: hand it over, take a reply off the pending list, and start afresh. */
  function Deliver(role: Role, c: Conn): Conn {
    c.(stage := Waiting,
       bytesReadOff := 0,
       commandSize := 0,
       item := NO_ITEM,
       pending := if role == Client && c.item.cookie in c.pending && |c.bounceHdr| == HEADER_SIZE &&
                     !Unsolicited(Command(c.bounceHdr))
                  then c.pending - {c.item.cookie} else c.pending,
       delivered := c.delivered + [c.item])
  }

  function StoreHeader(role: Role, ss: nat, c: Conn, b: byte): Progress
    requires |c.bounceHdr| == HEADER_SIZE
  {
    if c.bytesReadOff >= HEADER_SIZE then Live(c.(stage := Header))
    else
      var raw := c.bounceHdr[c.bytesReadOff := b];
      var off := c.bytesReadOff + 1;
      var next := c.(stage := Header, bounceHdr := raw, bytesReadOff := off);
      if off != HEADER_SIZE then Live(next) else CompleteHeader(role, ss, next)
  }

  /** The last byte of the header is in: decode it and find the buffer of its packet. */
  function CompleteHeader(role: Role, ss: nat, c: Conn): Progress
    requires |c.bounceHdr| == HEADER_SIZE
  {
    var hdr := Swap(c.bounceHdr, 0, HEADER_SIZE / 4);
    var (buffer, ok) := BufferFor(role, ss, c, hdr);
    if !ok then Dead(if Allocates(role, hdr) then ProtocolError else Stranger)
    else if GetCommandSize(Command(hdr)) == -1 then Dead(ProtocolError)
    else Live(c.(stage := Body,
                 bounceHdr := hdr,
                 commandSize := GetCommandSize(Command(hdr)),
                 item := Packet(Wire.Cookie(hdr), Put(buffer, 0, hdr))))
  }

  function StoreBody(role: Role, c: Conn, b: byte): Progress
    requires |c.bounceHdr| == HEADER_SIZE
  {
    if c.bytesReadOff < HEADER_SIZE || c.commandSize <= 0 then Dead(ProtocolError)
    else if c.bytesReadOff >= HEADER_SIZE + c.commandSize then Live(c)
    else if c.bytesReadOff >= |c.item.image| then Dead(Overrun)
    else
      var image := c.item.image[c.bytesReadOff := b];
      var off := c.bytesReadOff + 1;
      var cmd := Command(c.bounceHdr);
      if off != HEADER_SIZE + c.commandSize then Live(c.(item := c.item.(image := image), bytesReadOff := off))
      else if HEADER_SIZE + 4 * CommandWords(cmd) > |image| then Dead(Overrun)
      else
        var next := c.(item := c.item.(image := Swap(image, HEADER_SIZE, CommandWords(cmd))), bytesReadOff := off);
        if HasPayload(cmd) && ExtentSize(c.bounceHdr) != 0 then Live(next.(stage := Extent))
        else Live(Deliver(role, next))
  }

  function StoreExtent(role: Role, c: Conn, b: byte): Progress
    requires |c.bounceHdr| == HEADER_SIZE
  {
    if c.bytesReadOff < HEADER_SIZE || c.commandSize <= 0 then Dead(ProtocolError)
    else if c.bytesReadOff >= HEADER_SIZE + c.commandSize + ExtentSize(c.bounceHdr) then Live(c)
    else if c.bytesReadOff >= |c.item.image| then Dead(Overrun)
    else
      var next := c.(item := c.item.(image := c.item.image[c.bytesReadOff := b]), bytesReadOff := c.bytesReadOff + 1);
      if next.bytesReadOff != HEADER_SIZE + c.commandSize + ExtentSize(c.bounceHdr) then Live(next)
      else Live(Deliver(role, next))
  }

  /** One byte through the state machine. */
  function Step(role: Role, ss: nat, c: Conn, b: byte): Progress
    requires |c.bounceHdr| == HEADER_SIZE
  {
    match c.stage
    case Waiting => if c.bytesReadOff != 0 then Dead(ProtocolError) else StoreHeader(role, ss, c, b)
    case Header => StoreHeader(role, ss, c, b)
    case Body => StoreBody(role, c, b)
    case Extent => StoreExtent(role, c, b)
  }

  lemma StepKeepsHeader(role: Role, ss: nat, c: Conn, b: byte)
    requires |c.bounceHdr| == HEADER_SIZE
    ensures Step(role, ss, c, b).Live? ==> |Step(role, ss, c, b).conn.bounceHdr| == HEADER_SIZE
  {
    hide BufferFor, Swap, GetCommandSize, Command, ExtentSize, HasPayload, CommandWords;
  }

  /** A run of received bytes. */
  function Feed(role: Role, ss: nat, p: Progress, s: seq<byte>): (r: Progress)
    requires p.Live? ==> |p.conn.bounceHdr| == HEADER_SIZE
    ensures r.Live? ==> |r.conn.bounceHdr| == HEADER_SIZE
  {
    if s == [] then p
    else
      var q := Feed(role, ss, p, s[..|s| - 1]);
      if q.Dead? then q
      else
        StepKeepsHeader(role, ss, q.conn, s[|s| - 1]);
        Step(role, ss, q.conn, s[|s| - 1])
  }

  lemma {:induction false} FeedAppend(role: Role, ss: nat, p: Progress, s: seq<byte>, t: seq<byte>)
    requires p.Live? ==> |p.conn.bounceHdr| == HEADER_SIZE
    ensures Feed(role, ss, p, s + t) == Feed(role, ss, Feed(role, ss, p, s), t)
  {
    hide Step;
    if t == [] {
      assert s + t == s;
    } else {
      var m := |t| - 1;
      FeedAppend(role, ss, p, s, t[..m]);
      assert (s + t)[..|s + t| - 1] == s + t[..m];
    }
  }

  lemma FeedNext(role: Role, ss: nat, p: Progress, wire: seq<byte>, at: nat)
    requires p.Live? ==> |p.conn.bounceHdr| == HEADER_SIZE
    requires at < |wire| && Feed(role, ss, p, wire[..at]).Live?
    ensures Feed(role, ss, p, wire[..at + 1]) == Step(role, ss, Feed(role, ss, p, wire[..at]).conn, wire[at])
  {
    hide Step;
    assert wire[..at + 1][..at] == wire[..at];
  }

  lemma {:induction false} FeedDead(role: Role, ss: nat, f: Fault, s: seq<byte>)
    ensures Feed(role, ss, Dead(f), s) == Dead(f)
  {
    if s != [] {
      FeedDead(role, ss, f, s[..|s| - 1]);
    }
  }

  function Concat(chunks: seq<seq<byte>>): seq<byte> {
    if chunks == [] then [] else Concat(chunks[..|chunks| - 1]) + chunks[|chunks| - 1]
  }

  // ---------------------------------------------------------------------------------------------
  // One packet through the machine

  /** The connection has a buffer for this packet, however long the packet is. */
  predicate Announced(role: Role, ss: nat, c: Conn, image: seq<byte>) {
    && IsPdu(image)
    && GetCommandSize(Command(image)) > 0
    && BufferFor(role, ss, c, image[..HEADER_SIZE]).1
  }

  /** Size of that buffer. */
  function Room(role: Role, ss: nat, c: Conn, image: seq<byte>): nat
    requires HEADER_SIZE <= |image|
  {
    |BufferFor(role, ss, c, image[..HEADER_SIZE]).0|
  }

  /** The packet fits into its buffer. */
  predicate Accepts(role: Role, ss: nat, c: Conn, image: seq<byte>) {
    Announced(role, ss, c, image) && |image| <= Room(role, ss, c, image)
  }

  /** The connection after the packet: it is idle again and has handed over the packet, in its buffer. */
  function AfterPacket(role: Role, ss: nat, c: Conn, image: seq<byte>): Conn
    requires HEADER_SIZE <= |image| <= |BufferFor(role, ss, c, image[..HEADER_SIZE]).0|
  {
    var buffer := BufferFor(role, ss, c, image[..HEADER_SIZE]).0;
    Deliver(role, c.(bounceHdr := image[..HEADER_SIZE],
                     item := Packet(Wire.Cookie(image), image + buffer[|image|..])))
  }

  lemma {:induction false} HeaderPhase(role: Role, ss: nat, c: Conn, wire: seq<byte>, j: nat)
    requires IsIdle(c) && 0 < j < HEADER_SIZE <= |wire|
    ensures Feed(role, ss, Live(c), wire[..j]) ==
            Live(c.(stage := Header, bounceHdr := wire[..j] + c.bounceHdr[j..], bytesReadOff := j))
  {
    hide BufferFor, Swap, GetCommandSize, Command, ExtentSize, HasPayload, CommandWords;
    assert wire[..j][..j - 1] == wire[..j - 1];
    if j == 1 {
      assert wire[..j][..0] == [];
    } else {
      HeaderPhase(role, ss, c, wire, j - 1);
    }
    assert (wire[..j - 1] + c.bounceHdr[j - 1..])[j - 1 := wire[j - 1]] == wire[..j] + c.bounceHdr[j..];
  }

  /** The connection once the header is complete and `j` bytes of the rest have been stored. */
  function Storing(role: Role, ss: nat, c: Conn, image: seq<byte>, stage: Stage, off: nat, stored: seq<byte>): Conn
    requires IsPdu(image) && |stored| <= |BufferFor(role, ss, c, image[..HEADER_SIZE]).0|
  {
    var buffer := BufferFor(role, ss, c, image[..HEADER_SIZE]).0;
    c.(stage := stage,
       bounceHdr := image[..HEADER_SIZE],
       bytesReadOff := off,
       commandSize := GetCommandSize(Command(image)),
       item := Packet(Wire.Cookie(image), stored + buffer[|stored|..]))
  }

  lemma HeaderDone(role: Role, ss: nat, c: Conn, image: seq<byte>)
    requires IsIdle(c) && IsPdu(image) && BufferFor(role, ss, c, image[..HEADER_SIZE]).1
    ensures Feed(role, ss, Live(c), Encode(image)[..HEADER_SIZE]) ==
            Live(Storing(role, ss, c, image, Body, HEADER_SIZE, image[..HEADER_SIZE]))
  {
    hide SwapIndex, GetCommandSize, Command, ExtentSize, HasPayload, CommandWords, MaxMemSize, Encode, Wire.Cookie;
    var wire, j := Encode(image), HEADER_SIZE - 1;
    HeaderPhase(role, ss, c, wire, j);
    assert wire[..HEADER_SIZE][..j] == wire[..j];
    var raw := (wire[..j] + c.bounceHdr[j..])[j := wire[j]];
    assert raw == wire[..HEADER_SIZE];
    EncodedHeader(image);
    SameHeader(image[..HEADER_SIZE], image);
    var at := c.(stage := Header, bounceHdr := wire[..j] + c.bounceHdr[j..], bytesReadOff := j);
    assert BufferFor(role, ss, at, image[..HEADER_SIZE]) == BufferFor(role, ss, c, image[..HEADER_SIZE]);
  }

  /** A header for which there is no buffer drops the connection. */
  lemma HeaderRefused(role: Role, ss: nat, c: Conn, image: seq<byte>)
    requires IsIdle(c) && IsPdu(image) && !BufferFor(role, ss, c, image[..HEADER_SIZE]).1
    ensures Feed(role, ss, Live(c), Encode(image)[..HEADER_SIZE]) ==
            Dead(if Allocates(role, image[..HEADER_SIZE]) then ProtocolError else Stranger)
  {
    hide SwapIndex, GetCommandSize, Command, ExtentSize, HasPayload, CommandWords, MaxMemSize, Encode, Wire.Cookie;
    var wire, j := Encode(image), HEADER_SIZE - 1;
    HeaderPhase(role, ss, c, wire, j);
    assert wire[..HEADER_SIZE][..j] == wire[..j];
    assert (wire[..j] + c.bounceHdr[j..])[j := wire[j]] == wire[..HEADER_SIZE];
    EncodedHeader(image);
    var at := c.(stage := Header, bounceHdr := wire[..j] + c.bounceHdr[j..], bytesReadOff := j);
    SameBuffer(role, ss, at.(stage := Header, bounceHdr := wire[..HEADER_SIZE], bytesReadOff := HEADER_SIZE), c,
               image[..HEADER_SIZE]);
    SameBuffer(role, ss, at, c, image[..HEADER_SIZE]);
  }

  /** Decoding the front of the wire image gives the header. */
  lemma EncodedHeader(image: seq<byte>)
    requires IsPdu(image)
    ensures Swap(Encode(image)[..HEADER_SIZE], 0, HEADER_SIZE / 4) == image[..HEADER_SIZE]
  {
    hide SwapIndex, GetCommandSize, HasPayload, Command, ExtentSize;
    var words := CommandWords(Command(image));
    WordsFit(Command(image));
    var body := Swap(image, HEADER_SIZE, words);
    SwapPrefix(body, 0, HEADER_SIZE / 4, HEADER_SIZE);
    SwapKeepsFront(image, words);
    SwapTwice(image[..HEADER_SIZE], 0, HEADER_SIZE / 4);
  }

  /** The body travels word-swapped, the payload as it is. */
  lemma EncodedRest(image: seq<byte>)
    requires IsPdu(image)
    ensures var size := GetCommandSize(Command(image));
            0 <= size && HEADER_SIZE + size <= |image| &&
            Swap(image[..HEADER_SIZE] + Encode(image)[HEADER_SIZE..HEADER_SIZE + size], HEADER_SIZE,
                 CommandWords(Command(image)))
              == image[..HEADER_SIZE + size] &&
            Encode(image)[HEADER_SIZE + size..] == image[HEADER_SIZE + size..]
  {
    hide SwapIndex, GetCommandSize, HasPayload, Command, ExtentSize;
    var size, words := GetCommandSize(Command(image)), CommandWords(Command(image));
    KnownSize(Command(image));
    WordsFit(Command(image));
    var body := Swap(image, HEADER_SIZE, words);
    SwapOutside(body, 0, HEADER_SIZE / 4);
    SwapOutside(image, HEADER_SIZE, words);
    SwapKeepsFront(image, words);
    assert image[..HEADER_SIZE] + Encode(image)[HEADER_SIZE..HEADER_SIZE + size] == body[..HEADER_SIZE + size];
    SwapTwice(image, HEADER_SIZE, words);
    SwapPrefix(body, HEADER_SIZE, words, HEADER_SIZE + size);
  }

  lemma SwapOutside(s: seq<byte>, from: nat, words: nat)
    requires from + 4 * words <= |s|
    ensures Swap(s, from, words)[from + 4 * words..] == s[from + 4 * words..]
    ensures Swap(s, from, words)[..from] == s[..from]
  {
  }

  lemma {:induction false} BodyPhase(role: Role, ss: nat, c: Conn, image: seq<byte>, j: nat)
    requires IsIdle(c) && Announced(role, ss, c, image) && j < GetCommandSize(Command(image))
    requires HEADER_SIZE + j <= Room(role, ss, c, image)
    ensures HEADER_SIZE + j <= |Encode(image)|
    ensures Feed(role, ss, Live(c), Encode(image)[..HEADER_SIZE + j]) ==
            Live(Storing(role, ss, c, image, Body, HEADER_SIZE + j,
                         image[..HEADER_SIZE] + Encode(image)[HEADER_SIZE..HEADER_SIZE + j]))
  {
    hide SwapIndex, Swap, GetCommandSize, Command, ExtentSize, HasPayload, CommandWords, BufferFor, Encode, Wire.Cookie;
    var wire, at := Encode(image), HEADER_SIZE + j;
    if j == 0 {
      HeaderDone(role, ss, c, image);
      assert image[..HEADER_SIZE] + wire[HEADER_SIZE..at] == image[..HEADER_SIZE];
    } else {
      BodyPhase(role, ss, c, image, j - 1);
      assert wire[..at][..at - 1] == wire[..at - 1];
      StoreOne(BufferFor(role, ss, c, image[..HEADER_SIZE]).0, image[..HEADER_SIZE] + wire[HEADER_SIZE..at - 1],
               wire[at - 1]);
      assert image[..HEADER_SIZE] + wire[HEADER_SIZE..at - 1] + [wire[at - 1]] ==
             image[..HEADER_SIZE] + wire[HEADER_SIZE..at];
    }
  }

  lemma StoreOne(buffer: seq<byte>, stored: seq<byte>, b: byte)
    requires |stored| < |buffer|
    ensures (stored + buffer[|stored|..])[|stored| := b] == stored + [b] + buffer[|stored| + 1..]
  {
  }

  lemma DeliverStored(role: Role, ss: nat, c: Conn, image: seq<byte>, stage: Stage)
    requires IsIdle(c) && Accepts(role, ss, c, image)
    ensures Deliver(role, Storing(role, ss, c, image, stage, |image|, image)) == AfterPacket(role, ss, c, image)
  {
    hide GetCommandSize, Command, ExtentSize, HasPayload, CommandWords, BufferFor, Wire.Cookie;
  }

  /** The last byte of the body completes and decodes it. */
  lemma BodyStep(role: Role, ss: nat, c: Conn, image: seq<byte>, full: seq<byte>)
    requires IsIdle(c) && Announced(role, ss, c, image)
    requires HEADER_SIZE + GetCommandSize(Command(image)) <= Room(role, ss, c, image)
    requires var size := GetCommandSize(Command(image));
      |full| == HEADER_SIZE + size <= |image| && Swap(full, HEADER_SIZE, CommandWords(Command(image))) ==
        image[..HEADER_SIZE + size]
    ensures var at := HEADER_SIZE + GetCommandSize(Command(image));
      Step(role, ss, Storing(role, ss, c, image, Body, at - 1, full[..at - 1]), full[at - 1]) ==
      if HasPayload(Command(image)) && ExtentSize(image) != 0 then
         Live(Storing(role, ss, c, image, Extent, at, image[..at]))
      else Live(Deliver(role, Storing(role, ss, c, image, Body, at, image[..at])))
  {
    hide SwapIndex, GetCommandSize, Command, ExtentSize, HasPayload, BufferFor, Encode, Wire.Cookie, Deliver,
         AfterPacket;
    var (at, cmd) := (HEADER_SIZE + GetCommandSize(Command(image)), Command(image));
    var buffer := BufferFor(role, ss, c, image[..HEADER_SIZE]).0;
    StoreOne(buffer, full[..at - 1], full[at - 1]);
    assert full[..at - 1] + [full[at - 1]] == full;
    SameHeader(image[..HEADER_SIZE], image);
    WordsFit(cmd);
    SwapFront(full, buffer[at..], HEADER_SIZE, CommandWords(cmd));
  }

  /** The body is complete and decoded. */
  lemma BodyDone(role: Role, ss: nat, c: Conn, image: seq<byte>)
    requires IsIdle(c) && Announced(role, ss, c, image)
    requires HEADER_SIZE + GetCommandSize(Command(image)) <= Room(role, ss, c, image)
    ensures var size := GetCommandSize(Command(image));
            Feed(role, ss, Live(c), Encode(image)[..HEADER_SIZE + size]) ==
            if HasPayload(Command(image)) && ExtentSize(image) != 0 then
              Live(Storing(role, ss, c, image, Extent, HEADER_SIZE + size, image[..HEADER_SIZE + size]))
            else Live(AfterPacket(role, ss, c, image))
  {
    hide SwapIndex, Swap, GetCommandSize, Command, ExtentSize, HasPayload, CommandWords, BufferFor, Encode, Wire.Cookie,
         Step;
    var (wire, size) := (Encode(image), GetCommandSize(Command(image)));
    var at := HEADER_SIZE + size;
    BodyPhase(role, ss, c, image, size - 1);
    EncodedRest(image);
    FeedNext(role, ss, Live(c), wire, at - 1);
    var full := image[..HEADER_SIZE] + wire[HEADER_SIZE..at];
    assert full[..at - 1] == image[..HEADER_SIZE] + wire[HEADER_SIZE..at - 1];
    BodyStep(role, ss, c, image, full);
    if |image| == at {
      assert image[..at] == image;
      DeliverStored(role, ss, c, image, Body);
    }
  }

  lemma SwapFront(s: seq<byte>, rest: seq<byte>, from: nat, words: nat)
    requires from + 4 * words <= |s|
    ensures Swap(s + rest, from, words) == Swap(s, from, words) + rest
  {
    hide SwapIndex;
  }

  lemma {:induction false} ExtentPhase(role: Role, ss: nat, c: Conn, image: seq<byte>, at: nat)
    requires IsIdle(c) && Announced(role, ss, c, image) && HasPayload(Command(image))
    requires HEADER_SIZE + GetCommandSize(Command(image)) <= at < |image| && at <= Room(role, ss, c, image)
    ensures Feed(role, ss, Live(c), Encode(image)[..at]) == Live(Storing(role, ss, c, image, Extent, at, image[..at]))
  {
    hide SwapIndex, Swap, GetCommandSize, Command, ExtentSize, HasPayload, CommandWords, BufferFor, Encode, Wire.Cookie,
         Feed, Storing;
    var size := GetCommandSize(Command(image));
    if at == HEADER_SIZE + size {
      BodyDone(role, ss, c, image);
    } else {
      ExtentPhase(role, ss, c, image, at - 1);
      ExtentByte(role, ss, c, image, at - 1);
    }
  }

  lemma ExtentStep(role: Role, ss: nat, c: Conn, image: seq<byte>, at: nat)
    requires IsIdle(c) && Announced(role, ss, c, image) && HasPayload(Command(image))
    requires HEADER_SIZE + GetCommandSize(Command(image)) <= at < |image| && at < Room(role, ss, c, image)
    ensures Step(role, ss, Storing(role, ss, c, image, Extent, at, image[..at]), image[at]) ==
            var next := Storing(role, ss, c, image, Extent, at + 1, image[..at + 1]);
            Live(if at + 1 < |image| then next else Deliver(role, next))
  {
    hide SwapIndex, Swap, GetCommandSize, Command, ExtentSize, HasPayload, CommandWords, BufferFor, Encode, Wire.Cookie,
         Deliver, AfterPacket;
    var buffer := BufferFor(role, ss, c, image[..HEADER_SIZE]).0;
    StoreOne(buffer, image[..at], image[at]);
    assert image[..at] + [image[at]] == image[..at + 1];
    SameHeader(image[..HEADER_SIZE], image);
  }

  /** One payload byte. */
  lemma ExtentByte(role: Role, ss: nat, c: Conn, image: seq<byte>, at: nat)
    requires IsIdle(c) && Announced(role, ss, c, image) && HasPayload(Command(image))
    requires HEADER_SIZE + GetCommandSize(Command(image)) <= at < |image| && at < Room(role, ss, c, image)
    requires Feed(role, ss, Live(c), Encode(image)[..at]) == Live(Storing(role, ss, c, image, Extent, at, image[..at]))
    ensures Feed(role, ss, Live(c), Encode(image)[..at + 1]) ==
            if at + 1 < |image| then Live(Storing(role, ss, c, image, Extent, at + 1, image[..at + 1]))
            else Live(AfterPacket(role, ss, c, image))
  {
    var (wire, from) := (Encode(image), HEADER_SIZE + GetCommandSize(Command(image)));
    EncodedRest(image);
    assert wire[at] == image[at] by {
      assert wire[at] == wire[from..][at - from] && image[at] == image[from..][at - from];
    }
    FeedNext(role, ss, Live(c), wire, at);
    ExtentStep(role, ss, c, image, at);
    if at + 1 == |image| {
      assert image[..at + 1] == image;
      DeliverStored(role, ss, c, image, Extent);
    }
    hide Step, Storing, AfterPacket, Deliver, BufferFor, Command, GetCommandSize, HasPayload, Encode;
  }

  /** A packet that the connection accepts is delivered exactly as it was before encoding, in its
      buffer, when its last byte arrives. */
  lemma PacketDelivered(role: Role, ss: nat, c: Conn, image: seq<byte>)
    requires IsIdle(c) && Accepts(role, ss, c, image)
    ensures Feed(role, ss, Live(c), Encode(image)) == Live(AfterPacket(role, ss, c, image))
    ensures IsIdle(AfterPacket(role, ss, c, image))
  {
    hide SwapIndex, Swap, GetCommandSize, Command, ExtentSize, HasPayload, CommandWords, BufferFor, Encode, Wire.Cookie,
         Feed, Storing;
    var wire := Encode(image);
    assert wire[..|image|] == wire;
    if HasPayload(Command(image)) && ExtentSize(image) != 0 {
      ExtentPhase(role, ss, c, image, |image| - 1);
      ExtentByte(role, ss, c, image, |image| - 1);
    } else {
      BodyDone(role, ss, c, image);
    }
  }

  /** Where the buffer ends before the packet does, the byte that has no room is the last one looked at. */
  lemma RoomEnds(role: Role, ss: nat, c: Conn, image: seq<byte>)
    requires IsIdle(c) && Announced(role, ss, c, image) && Room(role, ss, c, image) < |image|
    ensures Feed(role, ss, Live(c), Encode(image)[..Room(role, ss, c, image) + 1]) == Dead(Overrun)
  {
    hide SwapIndex, Swap, GetCommandSize, Command, HasPayload, CommandWords, BufferFor, Encode, Wire.Cookie, Feed, Step;
    var (wire, room) := (Encode(image), Room(role, ss, c, image));
    SameHeader(image[..HEADER_SIZE], image);
    if room < HEADER_SIZE + GetCommandSize(Command(image)) {
      BodyPhase(role, ss, c, image, room - HEADER_SIZE);
      FeedNext(role, ss, Live(c), wire, room);
      NoRoom(role, ss, Feed(role, ss, Live(c), wire[..room]).conn, wire[room]);
    } else {
      ExtentPhase(role, ss, c, image, room);
      FeedNext(role, ss, Live(c), wire, room);
      NoRoom(role, ss, Feed(role, ss, Live(c), wire[..room]).conn, wire[room]);
    }
  }

  lemma NoRoom(role: Role, ss: nat, c: Conn, b: byte)
    requires |c.bounceHdr| == HEADER_SIZE <= c.bytesReadOff == |c.item.image| && 0 < c.commandSize
    requires c.stage.Body? ==> c.bytesReadOff < HEADER_SIZE + c.commandSize
    requires c.stage.Extent? ==> c.bytesReadOff < HEADER_SIZE + c.commandSize + ExtentSize(c.bounceHdr)
    requires c.stage.Body? || c.stage.Extent?
    ensures Step(role, ss, c, b) == Dead(Overrun)
  {
  }

  /** What becomes of one packet with a body. */
  function PacketFate(role: Role, ss: nat, c: Conn, image: seq<byte>): (r: Progress)
    requires IsIdle(c) && IsPdu(image)
    ensures r.Live? ==> IsIdle(r.conn)
  {
    var (buffer, ok) := BufferFor(role, ss, c, image[..HEADER_SIZE]);
    if !ok then Dead(if Allocates(role, image[..HEADER_SIZE]) then ProtocolError else Stranger)
    else if |image| > |buffer| then Dead(Overrun)
    else Live(AfterPacket(role, ss, c, image))
  }

  /** Exactly when a packet is delivered, and exactly when the pump writes outside the buffer: neither pump
      compares the announced payload with the buffer, so a packet that has one either fits or runs over it. */
  lemma PacketOutcome(role: Role, ss: nat, c: Conn, image: seq<byte>)
    requires IsIdle(c) && IsPdu(image) && GetCommandSize(Command(image)) > 0
    ensures Feed(role, ss, Live(c), Encode(image)) == PacketFate(role, ss, c, image)
  {
    hide GetCommandSize, Command, BufferFor, Encode, Feed, AfterPacket, Allocates;
    if Accepts(role, ss, c, image) {
      PacketDelivered(role, ss, c, image);
    } else {
      var wire := Encode(image);
      var n := if Announced(role, ss, c, image) then Room(role, ss, c, image) + 1 else HEADER_SIZE;
      if Announced(role, ss, c, image) {
        RoomEnds(role, ss, c, image);
      } else {
        HeaderRefused(role, ss, c, image);
      }
      var fault := Feed(role, ss, Live(c), wire[..n]).fault;
      FeedAppend(role, ss, Live(c), wire[..n], wire[n..]);
      FeedDead(role, ss, fault, wire[n..]);
      assert wire[..n] + wire[n..] == wire;
    }
  }

  // ---------------------------------------------------------------------------------------------
  // Streams of packets

  predicate AllPdus(images: seq<seq<byte>>) {
    forall k :: 0 <= k < |images| ==> IsPdu(images[k])
  }

  function EncodeAll(images: seq<seq<byte>>): seq<byte>
    requires AllPdus(images)
  {
    if images == [] then [] else Encode(images[0]) + EncodeAll(images[1..])
  }

  /** Every packet has a body. */
  predicate AllBodies(images: seq<seq<byte>>)
    requires AllPdus(images)
  {
    forall k :: 0 <= k < |images| ==> GetCommandSize(Command(images[k])) > 0
  }

  /** What becomes of a stream of packets: one after the other, until one is refused. */
  function Fate(role: Role, ss: nat, c: Conn, images: seq<seq<byte>>): (r: Progress)
    requires IsIdle(c) && AllPdus(images)
    ensures r.Live? ==> IsIdle(r.conn)
    decreases |images|
  {
    if images == [] then Live(c)
    else
      var p := PacketFate(role, ss, c, images[0]);
      if p.Dead? then p else Fate(role, ss, p.conn, images[1..])
  }

  lemma {:induction false} StreamOutcome(role: Role, ss: nat, c: Conn, images: seq<seq<byte>>)
    requires IsIdle(c) && AllPdus(images) && AllBodies(images)
    ensures Feed(role, ss, Live(c), EncodeAll(images)) == Fate(role, ss, c, images)
    decreases |images|
  {
    hide Encode, GetCommandSize, IsPdu, PacketFate, Command;
    if images != [] {
      PacketOutcome(role, ss, c, images[0]);
      var p := PacketFate(role, ss, c, images[0]);
      FeedAppend(role, ss, Live(c), Encode(images[0]), EncodeAll(images[1..]));
      if p.Live? {
        StreamOutcome(role, ss, p.conn, images[1..]);
      } else {
        FeedDead(role, ss, p.fault, EncodeAll(images[1..]));
      }
    }
  }

  /** The packet in a fresh buffer of the size that its command calls for. */
  function InFreshBuffer(image: seq<byte>, ss: nat): Packet
    requires HEADER_SIZE <= |image|
  {
    Packet(Wire.Cookie(image), image + Zeros(Max(0, MaxMemSize(Command(image), ss) - |image|)))
  }

  /** The packet fits into such a buffer. */
  predicate FitsFresh(image: seq<byte>, ss: nat)
    requires HEADER_SIZE <= |image|
  {
    |image| <= MaxMemSize(Command(image), ss)
  }

  /** Requests: a stream of them is delivered once each, in order, and the machine is idle again, exactly
      when each fits into its buffer; otherwise the first that does not runs over its buffer. */
  lemma {:induction false} RequestsDelivered(ss: nat, c: Conn, images: seq<seq<byte>>)
    requires IsIdle(c) && AllPdus(images) && AllBodies(images)
    ensures Fate(Server, ss, c, images).Live? <==> forall k :: 0 <= k < |images| ==> FitsFresh(images[k], ss)
    ensures var r := Fate(Server, ss, c, images);
            if r.Dead? then r.fault == Overrun
            else
              r.conn.pending == c.pending &&
              r.conn.delivered == c.delivered +
                seq(|images|, k requires 0 <= k < |images| => InFreshBuffer(images[k], ss))
    decreases |images|
  {
    hide GetCommandSize, Command, IsPdu, PacketFate, FitsFresh, InFreshBuffer;
    if images != [] {
      FreshBuffer(Server, ss, c, images[0]);
      var p := PacketFate(Server, ss, c, images[0]);
      if p.Live? {
        RequestsDelivered(ss, p.conn, images[1..]);
      }
    }
  }

  lemma FreshBuffer(role: Role, ss: nat, c: Conn, image: seq<byte>)
    requires IsIdle(c) && IsPdu(image) && (role == Server || Unsolicited(Command(image)))
    ensures PacketFate(role, ss, c, image).Live? <==> FitsFresh(image, ss)
    ensures var p := PacketFate(role, ss, c, image);
            if p.Dead? then p.fault == Overrun
            else p.conn.delivered == c.delivered + [InFreshBuffer(image, ss)] && p.conn.pending == c.pending
  {
    hide Command, ExtentSize, HasPayload, Wire.Cookie, MaxMemSize;
    SameHeader(image[..HEADER_SIZE], image);
    PayloadCommand(Command(image), ss);
    var size := MaxMemSize(Command(image), ss);
    if FitsFresh(image, ss) {
      assert Zeros(size)[|image|..] == Zeros(size - |image|);
    }
  }

  /** A reply stored over the request that waits for it. */
  function InRequest(image: seq<byte>, pending: map<Cookie8, seq<byte>>): Packet
    requires HEADER_SIZE <= |image|
  {
    var cookie := Wire.Cookie(image);
    Packet(cookie, image + if cookie in pending && |image| <= |pending[cookie]| then pending[cookie][|image|..] else [])
  }

  /** The packet as the client hands it over. */
  function Received(image: seq<byte>, pending: map<Cookie8, seq<byte>>, ss: nat): Packet
    requires HEADER_SIZE <= |image|
  {
    if Unsolicited(Command(image)) then InFreshBuffer(image, ss) else InRequest(image, pending)
  }

  function AllReceived(images: seq<seq<byte>>, pending: map<Cookie8, seq<byte>>, ss: nat): seq<Packet>
    requires AllPdus(images)
  {
    seq(|images|, k requires 0 <= k < |images| => Received(images[k], pending, ss))
  }

  /** The request that this packet answers is pending, and the packet fits over it. */
  predicate Answers(image: seq<byte>, pending: map<Cookie8, seq<byte>>)
    requires HEADER_SIZE <= |image|
  {
    Wire.Cookie(image) in pending && |image| <= |pending[Wire.Cookie(image)]|
  }

  /** Packet `k` is a notification, or a reply that fits over its request and is the first to answer it. */
  predicate Expected(images: seq<seq<byte>>, k: nat, pending: map<Cookie8, seq<byte>>)
    requires AllPdus(images) && k < |images|
  {
    Unsolicited(Command(images[k])) || (Answers(images[k], pending) && Wire.Cookie(images[k]) !in Answered(images[..k]))
  }

  /** The cookies of the replies among the packets. */
  function Answered(images: seq<seq<byte>>): set<Cookie8>
    requires AllPdus(images)
  {
    set k | 0 <= k < |images| && !Unsolicited(Command(images[k])) :: Wire.Cookie(images[k])
  }

  /** Replies and notifications in any order: they are handed over in the order of arrival, each reply
      completes exactly the request its cookie names, once, and the requests that were not answered stay
      pending. This is so exactly when every packet is expected; otherwise the connection is dropped. */
  lemma {:induction false} RepliesDelivered(ss: nat, c: Conn, images: seq<seq<byte>>)
    requires IsIdle(c) && AllPdus(images) && AllBodies(images)
    ensures Fate(Client, ss, c, images).Live? <==> forall k :: 0 <= k < |images| ==> Expected(images, k, c.pending)
    ensures var r := Fate(Client, ss, c, images);
            r.Live? ==>
              r.conn.pending == c.pending - Answered(images) &&
              r.conn.delivered == c.delivered + AllReceived(images, c.pending, ss)
    decreases |images|
  {
    hide GetCommandSize, Command, IsPdu, PacketFate, Wire.Cookie, Answers, Unsolicited, Received, AllReceived, Answered,
         Expected;
    if images == [] {
      NothingReceived(images, c.pending, ss);
    } else {
      FirstReceived(ss, c, images[0]);
      FirstExpected(images, c.pending);
      var p := PacketFate(Client, ss, c, images[0]);
      if p.Live? {
        RepliesDelivered(ss, p.conn, images[1..]);
        RestExpected(images, c.pending, p.conn.pending, ss);
      }
    }
  }

  lemma NothingReceived(images: seq<seq<byte>>, pending: map<Cookie8, seq<byte>>, ss: nat)
    requires images == []
    ensures Answered(images) == {} && AllReceived(images, pending, ss) == []
  {
  }

  lemma FirstExpected(images: seq<seq<byte>>, pending: map<Cookie8, seq<byte>>)
    requires AllPdus(images) && images != []
    ensures Expected(images, 0, pending) <==> Unsolicited(Command(images[0])) || Answers(images[0], pending)
  {
    assert images[..0] == [];
  }

  lemma FirstReceived(ss: nat, c: Conn, image: seq<byte>)
    requires IsIdle(c) && IsPdu(image)
    ensures PacketFate(Client, ss, c, image).Live? <==> Unsolicited(Command(image)) || Answers(image, c.pending)
    ensures var p := PacketFate(Client, ss, c, image);
            p.Live? ==>
              p.conn.delivered == c.delivered + [Received(image, c.pending, ss)] &&
              p.conn.pending == if Unsolicited(Command(image)) then c.pending else c.pending - {Wire.Cookie(image)}
  {
    hide GetCommandSize, Command, ExtentSize, HasPayload, Wire.Cookie, MaxMemSize, InFreshBuffer;
    SameHeader(image[..HEADER_SIZE], image);
    if Unsolicited(Command(image)) {
      FreshBuffer(Client, ss, c, image);
      NotificationFits(image, ss);
    }
  }

  lemma NotificationFits(image: seq<byte>, ss: nat)
    requires IsPdu(image) && Unsolicited(Command(image))
    ensures FitsFresh(image, ss)
  {
    hide Command;
  }

  /** After the first packet the others are expected, and handed over, as before. */
  lemma RestExpected(images: seq<seq<byte>>, pending: map<Cookie8, seq<byte>>, rest: map<Cookie8, seq<byte>>, ss: nat)
    requires AllPdus(images) && images != []
    requires rest == if Unsolicited(Command(images[0])) then pending else pending - {Wire.Cookie(images[0])}
    ensures AllPdus(images[1..])
    ensures (forall k :: 1 <= k < |images| ==> Expected(images, k, pending)) <==>
            (forall k :: 0 <= k < |images[1..]| ==> Expected(images[1..], k, rest))
    ensures (forall k :: 1 <= k < |images| ==> Expected(images, k, pending)) ==>
              AllReceived(images, pending, ss) == [Received(images[0], pending, ss)] +
              AllReceived(images[1..], rest, ss)
    ensures pending - Answered(images) == rest - Answered(images[1..])
  {
    hide Command, GetCommandSize, PduLength, Wire.Cookie, Unsolicited, Expected, Received, Answered;
    forall k | 1 <= k < |images|
      ensures Expected(images, k, pending) <==> Expected(images[1..], k - 1, rest)
      ensures Expected(images, k, pending) ==> Received(images[k], rest, ss) == Received(images[k], pending, ss)
    {
      ExpectedNext(images, k - 1, pending, rest, ss);
    }
    forall k | 0 <= k < |images[1..]|
      ensures Expected(images[1..], k, rest) <==> Expected(images, k + 1, pending)
    {
      ExpectedNext(images, k, pending, rest, ss);
    }
    AnsweredNext(images, |images| - 1);
    assert images[..|images|] == images && images[1..][..|images| - 1] == images[1..];
  }

  lemma ExpectedNext(images: seq<seq<byte>>, k: nat, pending: map<Cookie8, seq<byte>>, rest: map<Cookie8, seq<byte>>,
                     ss: nat)
    requires AllPdus(images) && k + 1 < |images|
    requires rest == if Unsolicited(Command(images[0])) then pending else pending - {Wire.Cookie(images[0])}
    ensures AllPdus(images[1..])
    ensures Expected(images[1..], k, rest) <==> Expected(images, k + 1, pending)
    ensures Expected(images, k + 1, pending) ==>
              Received(images[k + 1], rest, ss) == Received(images[k + 1], pending, ss)
  {
    hide Command, IsPdu, Wire.Cookie, Unsolicited, InFreshBuffer;
    AnsweredNext(images, k);
  }

  lemma AnsweredNext(images: seq<seq<byte>>, k: nat)
    requires AllPdus(images) && k + 1 <= |images|
    ensures AllPdus(images[1..])
    ensures Answered(images[..k + 1]) ==
            Answered(images[1..][..k]) + if Unsolicited(Command(images[0])) then {} else {Wire.Cookie(images[0])}
  {
    hide Command, IsPdu, Wire.Cookie, Unsolicited;
    var (a, b) := (images[..k + 1], images[1..][..k]);
    assert forall j :: 0 <= j < k ==> b[j] == a[j + 1];
    assert forall j :: 0 < j <= k ==> a[j] == b[j - 1];
  }

  // ---------------------------------------------------------------------------------------------
  // Requests registered while the stream runs

  /** What happens at the client's reader: a packet arrives, or a request becomes pending. */
  datatype Event = Arrive(image: seq<byte>) | Register(cookie: Cookie8, buffer: seq<byte>)

  predicate AllArrivals(events: seq<Event>) {
    forall k :: 0 <= k < |events| && events[k].Arrive? ==>
      IsPdu(events[k].image) && GetCommandSize(Command(events[k].image)) > 0
  }

  function FeedEvent(ss: nat, p: Progress, e: Event): (r: Progress)
    requires p.Live? ==> |p.conn.bounceHdr| == HEADER_SIZE
    requires e.Arrive? ==> IsPdu(e.image)
    ensures r.Live? ==> |r.conn.bounceHdr| == HEADER_SIZE
  {
    match e
    case Arrive(image) => Feed(Client, ss, p, Encode(image))
    case Register(cookie, buffer) =>
      if p.Dead? then p else Live(p.conn.(pending := p.conn.pending[cookie := buffer]))
  }

  function FeedEvents(ss: nat, p: Progress, events: seq<Event>): (r: Progress)
    requires p.Live? ==> |p.conn.bounceHdr| == HEADER_SIZE
    requires AllArrivals(events)
    ensures r.Live? ==> |r.conn.bounceHdr| == HEADER_SIZE
  {
    if events == [] then p
    else
      var m := |events| - 1;
      FeedEvent(ss, FeedEvents(ss, p, events[..m]), events[m])
  }

  /** The requests that are pending after these events, if every reply was expected: a cookie that has been
      answered may be registered again. */
  function PendingAfter(pending: map<Cookie8, seq<byte>>, events: seq<Event>): map<Cookie8, seq<byte>>
    requires AllArrivals(events)
  {
    if events == [] then pending
    else
      var m := |events| - 1;
      var before := PendingAfter(pending, events[..m]);
      match events[m]
      case Arrive(image) => if Unsolicited(Command(image)) then before else before - {Wire.Cookie(image)}
      case Register(cookie, buffer) => before[cookie := buffer]
  }

  /** A packet that arrives is a notification, or a reply that fits over a request that is pending then. */
  predicate ExpectedAt(events: seq<Event>, k: nat, pending: map<Cookie8, seq<byte>>)
    requires AllArrivals(events) && k < |events|
  {
    events[k].Arrive? ==>
      Unsolicited(Command(events[k].image)) || Answers(events[k].image, PendingAfter(pending, events[..k]))
  }

  /** The packets handed over, each reply in the buffer of the request that is pending then. */
  function HandedOver(pending: map<Cookie8, seq<byte>>, events: seq<Event>, ss: nat): seq<Packet>
    requires AllArrivals(events)
  {
    if events == [] then []
    else
      var m := |events| - 1;
      var before := HandedOver(pending, events[..m], ss);
      match events[m]
      case Arrive(image) => before + [Received(image, PendingAfter(pending, events[..m]), ss)]
      case Register(_, _) => before
  }

  /** With requests registered between the packets, in any order, also under a cookie that was used before:
      the packets are handed over in the order of arrival, each reply to the request that is pending under
      its cookie then, exactly when every packet is expected; otherwise the connection is dropped. */
  lemma {:induction false} EventsDelivered(ss: nat, c: Conn, events: seq<Event>)
    requires IsIdle(c) && AllArrivals(events)
    ensures FeedEvents(ss, Live(c), events).Live? <==>
            forall k :: 0 <= k < |events| ==> ExpectedAt(events, k, c.pending)
    ensures var r := FeedEvents(ss, Live(c), events);
            r.Live? ==>
              && IsIdle(r.conn) && r.conn.pending == PendingAfter(c.pending, events)
              && r.conn.delivered == c.delivered + HandedOver(c.pending, events, ss)
  {
    if events != [] {
      var m := |events| - 1;
      var (before, e) := (events[..m], events[m]);
      EventsDelivered(ss, c, before);
      var p := FeedEvents(ss, Live(c), before);
      EventDelivered(ss, p, e);
      hide Feed, FeedEvent, GetCommandSize, Command, IsPdu, Encode, Unsolicited, Answers, Received, PacketFate,
           ExpectedAt;
      ExpectedPrefix(events, c.pending);
    }
  }

  lemma ExpectedPrefix(events: seq<Event>, pending: map<Cookie8, seq<byte>>)
    requires AllArrivals(events) && events != []
    ensures var (m, before) := (|events| - 1, events[..|events| - 1]);
            && AllArrivals(before)
            && ((forall k :: 0 <= k < |events| ==> ExpectedAt(events, k, pending)) <==>
                (forall k :: 0 <= k < m ==> ExpectedAt(before, k, pending)) &&
                (events[m].Arrive? ==>
                   Unsolicited(Command(events[m].image)) || Answers(events[m].image, PendingAfter(pending, before))))
  {
    hide GetCommandSize, Command, PduLength, Unsolicited, Answers, PendingAfter;
    var m := |events| - 1;
    var before := events[..m];
    forall k | 0 <= k < m
      ensures ExpectedAt(events, k, pending) <==> ExpectedAt(before, k, pending)
    {
      assert before[..k] == events[..k];
    }
    assert ExpectedAt(events, m, pending) <==> (events[m].Arrive? ==>
      Unsolicited(Command(events[m].image)) || Answers(events[m].image, PendingAfter(pending, before)));
    hide ExpectedAt;
  }

  lemma EventDelivered(ss: nat, p: Progress, e: Event)
    requires p.Live? ==> IsIdle(p.conn)
    requires e.Arrive? ==> IsPdu(e.image) && GetCommandSize(Command(e.image)) > 0
    ensures FeedEvent(ss, p, e).Live? <==>
            p.Live? && (e.Arrive? ==> Unsolicited(Command(e.image)) || Answers(e.image, p.conn.pending))
    ensures var q := FeedEvent(ss, p, e);
            q.Live? ==>
              && IsIdle(q.conn)
              && q.conn.delivered == p.conn.delivered +
                   (if e.Arrive? then [Received(e.image, p.conn.pending, ss)] else [])
              && q.conn.pending ==
                   (match e
                    case Arrive(image) =>
                      if Unsolicited(Command(image)) then p.conn.pending else p.conn.pending - {Wire.Cookie(image)}
                    case Register(cookie, buffer) => p.conn.pending[cookie := buffer])
  {
    hide Feed, GetCommandSize, Command, IsPdu, Encode, Unsolicited, Answers, Received, PacketFate, Wire.Cookie;
    if p.Dead? {
      if e.Arrive? {
        FeedDead(Client, ss, p.fault, Encode(e.image));
      }
    } else if e.Arrive? {
      PacketOutcome(Client, ss, p.conn, e.image);
      FirstReceived(ss, p.conn, e.image);
    }
  }

  // ---------------------------------------------------------------------------------------------
  // What is not delivered

  /** A command without a body is never completed: the next byte, whatever it is, drops the connection. */
  lemma EmptyBodyRejected(role: Role, ss: nat, c: Conn, image: seq<byte>, b: byte)
    requires IsIdle(c) && IsPdu(image) && GetCommandSize(Command(image)) == 0
    requires BufferFor(role, ss, c, image[..HEADER_SIZE]).1
    ensures Feed(role, ss, Live(c), Encode(image)[..HEADER_SIZE]).Live?
    ensures Feed(role, ss, Live(c), Encode(image)[..HEADER_SIZE]).conn.delivered == c.delivered
    ensures Feed(role, ss, Live(c), Encode(image)[..HEADER_SIZE] + [b]) == Dead(ProtocolError)
  {
    hide SwapIndex, Swap, GetCommandSize, Command, ExtentSize, HasPayload, CommandWords, BufferFor, Encode;
    HeaderDone(role, ss, c, image);
    var s := Encode(image)[..HEADER_SIZE] + [b];
    assert s[..|s| - 1] == Encode(image)[..HEADER_SIZE];
  }

  /** The longest payload for which a buffer sized for this command has room: one stripe and what the
      longer of the two bodies leaves. */
  function PayloadRoom(cmd: u32, ss: nat): int {
    var bodies := BodiesOf(RequestOf(cmd));
    if bodies.None? then 0 else ss + Max(bodies.req, bodies.resp) - GetCommandSize(cmd)
  }

  /** A notification whose body never comes takes the first four bytes that do come for it: whatever is sent
      next is read from its fifth byte on. */
  lemma OutOfStep(ss: nat, c: Conn, image: seq<byte>, wire: seq<byte>) returns (taken: seq<byte>)
    requires IsIdle(c) && IsPdu(image) && Unsolicited(Command(image)) && |wire| >= 4
    ensures IsPdu(taken) && taken[..HEADER_SIZE] == image[..HEADER_SIZE]
    ensures taken[HEADER_SIZE..] == [wire[3], wire[2], wire[1], wire[0]]
    ensures Feed(Client, ss, Live(c), Encode(image)[..HEADER_SIZE] + wire) ==
            Feed(Client, ss, Live(AfterPacket(Client, ss, c, taken)), wire[4..])
  {
    hide Command, GetCommandSize, HasPayload, PduLength, ExtentSize, Encode, Feed, AfterPacket, PacketFate, MaxMemSize,
         Unsolicited, Swap, CommandWords, FitsFresh;
    taken := image[..HEADER_SIZE] + [wire[3], wire[2], wire[1], wire[0]];
    NotificationSize(image);
    assert taken[..HEADER_SIZE] == image[..HEADER_SIZE];
    SameHeader(taken, image);
    TakenWire(image, taken, wire);
    NotificationFits(taken, ss);
    FreshBuffer(Client, ss, c, taken);
    PacketOutcome(Client, ss, c, taken);
    FateLive(Client, ss, c, taken);
    assert Encode(image)[..HEADER_SIZE] + wire == Encode(taken) + wire[4..];
    FeedAppend(Client, ss, Live(c), Encode(taken), wire[4..]);
  }

  lemma NotificationSize(image: seq<byte>)
    requires IsPdu(image) && Unsolicited(Command(image))
    ensures GetCommandSize(Command(image)) == 4 && !HasPayload(Command(image)) && |image| == HEADER_SIZE + 4
    ensures CommandWords(Command(image)) == 1
  {
    hide Command;
  }

  lemma BodySwapped(s: seq<byte>, word: seq<byte>)
    requires |s| == HEADER_SIZE + 4 && |word| == 4 && s[HEADER_SIZE..] == [word[3], word[2], word[1], word[0]]
    ensures Swap(s, HEADER_SIZE, 1)[HEADER_SIZE..] == word
  {
    var (b, n) := (Swap(s, HEADER_SIZE, 1), HEADER_SIZE);
    assert s[n] == s[n..][0] && s[n + 1] == s[n..][1] && s[n + 2] == s[n..][2] && s[n + 3] == s[n..][3];
    assert b[n] == word[0] && b[n + 1] == word[1] && b[n + 2] == word[2] && b[n + 3] == word[3];
  }

  lemma TakenWire(image: seq<byte>, taken: seq<byte>, wire: seq<byte>)
    requires IsPdu(image) && IsPdu(taken) && |taken| == |image| == HEADER_SIZE + 4 && |wire| >= 4
    requires taken[..HEADER_SIZE] == image[..HEADER_SIZE] && CommandWords(Command(image)) == 1
    requires taken[HEADER_SIZE..] == [wire[3], wire[2], wire[1], wire[0]]
    ensures Encode(taken) == Encode(image)[..HEADER_SIZE] + wire[..4]
  {
    hide SwapIndex, GetCommandSize, HasPayload, Le32, Word;
    SameHeader(taken, image);
    var (a, b) := (Swap(image, HEADER_SIZE, 1), Swap(taken, HEADER_SIZE, 1));
    SwapPrefix(a, 0, HEADER_SIZE / 4, HEADER_SIZE);
    SwapPrefix(b, 0, HEADER_SIZE / 4, HEADER_SIZE);
    SwapOutside(image, HEADER_SIZE, 1);
    SwapOutside(taken, HEADER_SIZE, 1);
    SwapOutside(b, 0, HEADER_SIZE / 4);
    BodySwapped(taken, wire[..4]);
    hide Swap, Command, IsPdu;
    assert Encode(taken) == Encode(taken)[..HEADER_SIZE] + Encode(taken)[HEADER_SIZE..];
  }

  /** Capacity: a packet fits the buffer sized for its command, in either direction, exactly when its
      payload stays within that room. */
  lemma FitsExactly(image: seq<byte>, ss: nat)
    requires IsPdu(image)
    ensures |image| <= MaxMemSize(Command(image), ss) <==>
            HasPayload(Command(image)) ==> ExtentSize(image) <= PayloadRoom(Command(image), ss)
  {
    hide Command, ExtentSize;
    PayloadCommand(Command(image), ss);
  }

  /** Exactly when a packet makes the receiver write outside a buffer it has allocated for it. */
  lemma FreshOverrun(role: Role, ss: nat, c: Conn, image: seq<byte>)
    requires IsIdle(c) && IsPdu(image) && GetCommandSize(Command(image)) > 0
    requires role == Server || Unsolicited(Command(image))
    ensures Feed(role, ss, Live(c), Encode(image)) == Dead(Overrun) <==>
            HasPayload(Command(image)) && ExtentSize(image) > PayloadRoom(Command(image), ss)
  {
    hide Command, ExtentSize, Feed, PacketFate, Encode, PayloadRoom;
    PacketOutcome(role, ss, c, image);
    FreshBuffer(role, ss, c, image);
    FitsExactly(image, ss);
  }

  /** Exactly when a reply makes the client write outside the buffer of the request it answers. */
  lemma ReplyOverrun(ss: nat, c: Conn, image: seq<byte>, request: u32)
    requires IsIdle(c) && IsPdu(image) && GetCommandSize(Command(image)) > 0 && !Unsolicited(Command(image))
    requires GetCommandSize(request) != -1 && Command(image) == ToggleReqResp(request)
    requires Wire.Cookie(image) in c.pending && |c.pending[Wire.Cookie(image)]| == MaxMemSize(request, ss)
    ensures Feed(Client, ss, Live(c), Encode(image)) == Dead(Overrun) <==>
            HasPayload(Command(image)) && ExtentSize(image) > PayloadRoom(Command(image), ss)
  {
    PacketOutcome(Client, ss, c, image);
    ToggleInvolution(request, ss);
    FitsExactly(image, ss);
    PayloadCommand(request, ss);
    SameHeader(image[..HEADER_SIZE], image);
    hide Command, ExtentSize, Feed, Encode, PayloadRoom, GetCommandSize, HasPayload, MaxMemSize, Wire.Cookie;
  }

  /** A write request of this many payload bytes, all zero. */
  function ZeroWrite(size: u32): (image: seq<byte>)
    ensures IsPdu(image) && Command(image) == CMD_REQ_DS_WRITE_STRIPE && ExtentSize(image) == size
  {
    var image := Put(Put(Zeros(HEADER_SIZE + 24 + size), COMMAND_OFFSET, Le32Bytes(CMD_REQ_DS_WRITE_STRIPE)),
                     EXTENT_SIZE_OFFSET, Le32Bytes(size));
    Le32RoundTrip(CMD_REQ_DS_WRITE_STRIPE);
    Le32RoundTrip(size);
    assert image[8..12] == Le32Bytes(CMD_REQ_DS_WRITE_STRIPE) && image[12..16] == Le32Bytes(size);
    image
  }

  /** With stripes of 1024 bytes, a write request with 1025 bytes of payload is such a packet. */
  lemma OversizedWrite(c: Conn)
    requires IsIdle(c)
    ensures Feed(Server, 1024, Live(c), Encode(ZeroWrite(1024))) == Live(AfterPacket(Server, 1024, c, ZeroWrite(1024)))
    ensures Feed(Server, 1024, Live(c), Encode(ZeroWrite(1025))) == Dead(Overrun)
  {
    hide Feed, Encode, ZeroWrite, AfterPacket, PacketFate;
    FreshOverrun(Server, 1024, c, ZeroWrite(1025));
    FitsExactly(ZeroWrite(1024), 1024);
    FreshBuffer(Server, 1024, c, ZeroWrite(1024));
    PacketOutcome(Server, 1024, c, ZeroWrite(1024));
    FateLive(Server, 1024, c, ZeroWrite(1024));
  }

  lemma FateLive(role: Role, ss: nat, c: Conn, image: seq<byte>)
    requires IsIdle(c) && IsPdu(image) && PacketFate(role, ss, c, image).Live?
    ensures Accepts(role, ss, c, image) || GetCommandSize(Command(image)) <= 0
    ensures PacketFate(role, ss, c, image).conn == AfterPacket(role, ss, c, image)
  {
  }

  lemma PayloadCommand(cmd: u32, ss: nat)
    requires GetCommandSize(cmd) != -1
    ensures var bodies := BodiesOf(RequestOf(cmd));
            && bodies.Bodies? && 0 <= GetCommandSize(cmd) <= Max(bodies.req, bodies.resp)
            && MaxMemSize(cmd, ss) >= HEADER_SIZE + Max(bodies.req, bodies.resp)
            && (HasPayload(cmd) ==> MaxMemSize(cmd, ss) == HEADER_SIZE + Max(bodies.req, bodies.resp) + ss)
  {
    KnownCommand(cmd);
  }

  /** In particular every producer that keeps its payload within one stripe is safe. */
  lemma StripeFitsBuffer(image: seq<byte>, ss: nat)
    requires IsPdu(image) && (HasPayload(Command(image)) ==> ExtentSize(image) <= ss)
    ensures |image| <= MaxMemSize(Command(image), ss)
  {
    hide Command, ExtentSize;
    PayloadCommand(Command(image), ss);
  }

  /** The reply to a request always finds room in the buffer that was allocated for the request. */
  lemma ReplyFitsRequest(image: seq<byte>, request: u32, ss: nat)
    requires IsPdu(image) && GetCommandSize(request) != -1 && Command(image) == ToggleReqResp(request)
    requires HasPayload(Command(image)) ==> ExtentSize(image) <= ss
    ensures |image| <= MaxMemSize(request, ss)
  {
    hide Command, ExtentSize, MaxMemSize, GetCommandSize, HasPayload;
    ToggleInvolution(request, ss);
    StripeFitsBuffer(image, ss);
  }

  // ---------------------------------------------------------------------------------------------
  // The state machine as the code runs it

  class Connection {
    const role: Role
    const ss: nat
    var inStage: Stage
    var bytesReadOff: nat
    var bounceHdr: array<byte>
    var commandSize: int
    var itemCookie: Cookie8
    var item: array<byte>
    var pending: map<Cookie8, seq<byte>>
    var delivered: seq<Packet>

    ghost predicate Valid()
      reads this
    {
      bounceHdr.Length == HEADER_SIZE && item != bounceHdr
    }

    ghost function St(): (c: Conn)
      reads this, bounceHdr, item
    {
      Conn(inStage, bytesReadOff, bounceHdr[..], commandSize, Packet(itemCookie, item[..]), pending, delivered)
    }

    constructor (role: Role, ss: nat, pending: map<Cookie8, seq<byte>>)
      ensures Valid() && fresh(bounceHdr) && fresh(item)
      ensures this.role == role && this.ss == ss && this.pending == pending && delivered == []
      ensures IsIdle(St())
    {
      this.role, this.ss := role, ss;
      inStage, bytesReadOff, commandSize := Waiting, 0, 0;
      bounceHdr := new byte[HEADER_SIZE](_ => 0);
      itemCookie, item := [], new byte[0];
      this.pending, delivered := pending, [];
    }

    /** Hand the packet over and reset the state machine. */
    method Complete()
      requires Valid()
      modifies this
      ensures Valid() && bounceHdr == old(bounceHdr) && fresh(item)
      ensures St() == Deliver(role, old(St()))
    {
      hide Command;
      delivered := delivered + [Packet(itemCookie, item[..])];
      if role == Client && itemCookie in pending && !Unsolicited(Command(bounceHdr[..])) {
        pending := pending - {itemCookie};
      }
      inStage, bytesReadOff, commandSize := Waiting, 0, 0;
      itemCookie, item := [], new byte[0];
    }

    /** Header stage; a complete header selects the buffer of the packet. */
    method HeaderByte(b: byte) returns (ok: bool, fault: Fault)
      requires Valid()
      modifies this, bounceHdr
      ensures Valid() && bounceHdr == old(bounceHdr) && (item == old(item) || fresh(item))
      ensures StoreHeader(role, ss, old(St()), b) == if ok then Live(St()) else Dead(fault)
    {
      hide CompleteHeader;
      ok, fault := true, ProtocolError;
      inStage := Header;
      if bytesReadOff >= HEADER_SIZE {
        return;
      }
      bounceHdr[bytesReadOff] := b;
      bytesReadOff := bytesReadOff + 1;
      assert bounceHdr[..] == old(bounceHdr[..])[old(bytesReadOff) := b];
      if bytesReadOff == HEADER_SIZE {
        ok, fault := TakeHeader();
      }
    }

    method TakeHeader() returns (ok: bool, fault: Fault)
      requires Valid()
      modifies this, bounceHdr
      ensures Valid() && bounceHdr == old(bounceHdr) && (item == old(item) || fresh(item))
      ensures CompleteHeader(role, ss, old(St())) == if ok then Live(St()) else Dead(fault)
    {
      hide Swap, SwapIndex, Command, GetCommandSize, Put, Wire.Cookie, BufferFor;
      ok, fault := true, ProtocolError;
      ghost var c := St();
      DecodeProtoHeader(bounceHdr);
      var hdr := bounceHdr[..];
      var buffer, found := SelectBuffer(hdr);
      SameBuffer(role, ss, St(), c, hdr);
      if !found {
        return false, if role == Server || Unsolicited(Command(hdr)) then ProtocolError else Stranger;
      }
      PutField(buffer, 0, hdr);
      if GetCommandSize(Command(hdr)) == -1 {
        return false, ProtocolError;
      }
      itemCookie, item := Wire.Cookie(hdr), buffer;
      commandSize := GetCommandSize(Command(hdr));
      inStage := Body;
    }

    /** A fresh zeroed buffer, or the buffer of the request that the cookie names. */
    method SelectBuffer(hdr: seq<byte>) returns (buffer: array<byte>, found: bool)
      requires |hdr| == HEADER_SIZE
      ensures fresh(buffer)
      ensures BufferFor(role, ss, St(), hdr) == if found then (buffer[..], true) else ([], false)
    {
      hide Command, MaxMemSize, Wire.Cookie;
      buffer, found := new byte[0], false;
      if role == Server || Unsolicited(Command(hdr)) {
        var size := MaxMemSize(Command(hdr), ss);
        if size >= HEADER_SIZE {
          buffer, found := new byte[size](_ => 0), true;
          assert buffer[..] == Zeros(size);
        }
      } else if Wire.Cookie(hdr) in pending && |pending[Wire.Cookie(hdr)]| >= HEADER_SIZE {
        var image := pending[Wire.Cookie(hdr)];
        buffer, found := new byte[|image|](i requires 0 <= i < |image| => image[i]), true;
        assert buffer[..] == image;
      }
    }

    /** The next byte of the packet goes to its place in the buffer. */
    method StoreByte(b: byte)
      requires Valid() && bytesReadOff < item.Length
      modifies this`bytesReadOff, item
      ensures Valid() && bounceHdr[..] == old(bounceHdr[..])
      ensures St() == old(St().(item := St().item.(image := St().item.image[bytesReadOff := b]),
                                bytesReadOff := bytesReadOff + 1))
    {
      item[bytesReadOff] := b;
      bytesReadOff := bytesReadOff + 1;
      assert item[..] == old(item[..])[old(bytesReadOff) := b];
    }

    method BodyByte(b: byte) returns (ok: bool, fault: Fault)
      requires Valid()
      modifies this, item
      ensures Valid() && bounceHdr == old(bounceHdr) && bounceHdr[..] == old(bounceHdr[..]) &&
              (item == old(item) || fresh(item))
      ensures StoreBody(role, old(St()), b) == if ok then Live(St()) else Dead(fault)
    {
      hide Swap, SwapIndex, Command, GetCommandSize, HasPayload, ExtentSize, CommandWords, Deliver;
      ok, fault := true, ProtocolError;
      if bytesReadOff < HEADER_SIZE || commandSize <= 0 {
        return false, ProtocolError;
      }
      if bytesReadOff >= HEADER_SIZE + commandSize {
        return;
      }
      if bytesReadOff >= item.Length {
        return false, Overrun;
      }
      StoreByte(b);
      if bytesReadOff != HEADER_SIZE + commandSize {
        return;
      }
      var cmd := Command(bounceHdr[..]);
      if HEADER_SIZE + 4 * CommandWords(cmd) > item.Length {
        return false, Overrun;
      }
      var known := DecodeCommandBuffer(item, cmd);
      if HasPayload(cmd) && ExtentSize(bounceHdr[..]) != 0 {
        inStage := Extent;
      } else {
        Complete();
      }
    }

    method ExtentByte(b: byte) returns (ok: bool, fault: Fault)
      requires Valid()
      modifies this, item
      ensures Valid() && bounceHdr == old(bounceHdr) && bounceHdr[..] == old(bounceHdr[..]) &&
              (item == old(item) || fresh(item))
      ensures StoreExtent(role, old(St()), b) == if ok then Live(St()) else Dead(fault)
    {
      hide Command, ExtentSize, Deliver;
      ok, fault := true, ProtocolError;
      if bytesReadOff < HEADER_SIZE || commandSize <= 0 {
        return false, ProtocolError;
      }
      var total := HEADER_SIZE + commandSize + ExtentSize(bounceHdr[..]);
      if bytesReadOff >= total {
        return;
      }
      if bytesReadOff >= item.Length {
        return false, Overrun;
      }
      StoreByte(b);
      if bytesReadOff == total {
        Complete();
      }
    }

    /** Feed one received chunk; false when the connection has to be dropped. */
    method PumpBytesToConnSM(buffer: seq<byte>) returns (ok: bool, fault: Fault)
      requires Valid()
      modifies this, bounceHdr, item
      ensures Valid() && bounceHdr == old(bounceHdr) && (item == old(item) || fresh(item))
      ensures Feed(role, ss, Live(old(St())), buffer) == if ok then Live(St()) else Dead(fault)
    {
      hide StoreHeader, StoreBody, StoreExtent;
      ok, fault := true, ProtocolError;
      ghost var start := St();
      assert buffer[..0] == [];
      for i := 0 to |buffer|
        invariant ok && Valid() && bounceHdr == old(bounceHdr) && (item == old(item) || fresh(item))
        invariant Feed(role, ss, Live(start), buffer[..i]) == Live(St())
      {
        ghost var c := St();
        assert buffer[..i + 1][..i] == buffer[..i];
        match inStage {
          case Waiting =>
            if bytesReadOff != 0 {
              ok, fault := false, ProtocolError;
            } else {
              ok, fault := HeaderByte(buffer[i]);
            }
          case Header =>
            ok, fault := HeaderByte(buffer[i]);
          case Body =>
            ok, fault := BodyByte(buffer[i]);
          case Extent =>
            ok, fault := ExtentByte(buffer[i]);
        }
        assert Step(role, ss, c, buffer[i]) == if ok then Live(St()) else Dead(fault);
        if !ok {
          FeedAppend(role, ss, Live(start), buffer[..i + 1], buffer[i + 1..]);
          FeedDead(role, ss, fault, buffer[i + 1..]);
          assert buffer == buffer[..i + 1] + buffer[i + 1..];
          return;
        }
      }
      assert buffer[..|buffer|] == buffer;
    }

    /** Receive a stream in whatever chunks the socket hands out, until it is dropped. */
    method Receive(chunks: seq<seq<byte>>) returns (ok: bool, fault: Fault)
      requires Valid()
      modifies this, bounceHdr, item
      ensures Valid() && bounceHdr == old(bounceHdr) && (item == old(item) || fresh(item))
      ensures Feed(role, ss, Live(old(St())), Concat(chunks)) == if ok then Live(St()) else Dead(fault)
    {
      hide Step;
      ok, fault := true, ProtocolError;
      ghost var start := St();
      assert chunks[..0] == [];
      for i := 0 to |chunks|
        invariant Valid() && bounceHdr == old(bounceHdr) && (item == old(item) || fresh(item))
        invariant Feed(role, ss, Live(start), Concat(chunks[..i])) == if ok then Live(St()) else Dead(fault)
      {
        assert chunks[..i + 1][..i] == chunks[..i];
        FeedAppend(role, ss, Live(start), Concat(chunks[..i]), chunks[i]);
        if ok {
          ok, fault := PumpBytesToConnSM(chunks[i]);
        } else {
          FeedDead(role, ss, fault, chunks[i]);
        }
      }
      assert chunks[..|chunks|] == chunks;
    }
  }

  /** Requests sent back to back and received in arbitrary chunks: the server's reader hands over exactly
      these requests, in order, and waits for the next one, unless one of them is too long for its buffer. */
  method ReceiveRequests(conn: Connection, images: seq<seq<byte>>, chunks: seq<seq<byte>>)
    returns (ok: bool, fault: Fault)
    requires conn.Valid() && conn.role == Server && IsIdle(conn.St())
    requires AllPdus(images) && AllBodies(images) && Concat(chunks) == EncodeAll(images)
    modifies conn, conn.bounceHdr, conn.item
    ensures ok <==> forall k :: 0 <= k < |images| ==> FitsFresh(images[k], conn.ss)
    ensures !ok ==> fault == Overrun
    ensures ok ==>
              IsIdle(conn.St()) && conn.delivered ==
              old(conn.delivered) + seq(|images|, k requires 0 <= k < |images| => InFreshBuffer(images[k], conn.ss))
  {
    hide Feed, FitsFresh, InFreshBuffer, IsPdu, EncodeAll, Fate, AllBodies;
    StreamOutcome(Server, conn.ss, conn.St(), images);
    RequestsDelivered(conn.ss, conn.St(), images);
    ok, fault := conn.Receive(chunks);
  }

  /** Likewise for replies and notifications at the client. */
  method ReceiveReplies(conn: Connection, images: seq<seq<byte>>, chunks: seq<seq<byte>>)
    returns (ok: bool, fault: Fault)
    requires conn.Valid() && conn.role == Client && IsIdle(conn.St())
    requires AllPdus(images) && AllBodies(images) && Concat(chunks) == EncodeAll(images)
    modifies conn, conn.bounceHdr, conn.item
    ensures ok <==> forall k :: 0 <= k < |images| ==> Expected(images, k, old(conn.pending))
    ensures ok ==>
              IsIdle(conn.St()) &&
              conn.pending == old(conn.pending) - Answered(images) &&
              conn.delivered == old(conn.delivered) + AllReceived(images, old(conn.pending), conn.ss)
  {
    hide Feed, Expected, AllReceived, IsPdu, EncodeAll, Fate, Answered, AllBodies;
    StreamOutcome(Client, conn.ss, conn.St(), images);
    RepliesDelivered(conn.ss, conn.St(), images);
    ok, fault := conn.Receive(chunks);
  }

  /** And with requests registered by the workers between the packets. */
  method ReceiveEvents(conn: Connection, events: seq<Event>, arrivals: seq<seq<seq<byte>>>)
    returns (ok: bool, fault: Fault)
    requires conn.Valid() && conn.role == Client && IsIdle(conn.St()) && AllArrivals(events)
    requires |arrivals| == |events|
    requires forall k :: 0 <= k < |events| && events[k].Arrive? ==> Concat(arrivals[k]) == Encode(events[k].image)
    modifies conn, conn.bounceHdr, conn.item
    ensures ok <==> forall k :: 0 <= k < |events| ==> ExpectedAt(events, k, old(conn.pending))
    ensures ok ==>
              IsIdle(conn.St()) && conn.pending == PendingAfter(old(conn.pending), events) &&
              conn.delivered == old(conn.delivered) + HandedOver(old(conn.pending), events, conn.ss)
  {
    hide Feed, ExpectedAt, HandedOver, PendingAfter, IsPdu, Encode, GetCommandSize, Command, Concat;
    ok, fault := true, ProtocolError;
    ghost var start := conn.St();
    EventsDelivered(conn.ss, start, events);
    var i := 0;
    while i < |events| && ok
      invariant 0 <= i <= |events| && conn.Valid() && conn.role == Client
      invariant conn.bounceHdr == old(conn.bounceHdr) && (conn.item == old(conn.item) || fresh(conn.item))
      invariant AllArrivals(events[..i])
      invariant FeedEvents(conn.ss, Live(start), events[..i]) == if ok then Live(conn.St()) else Dead(fault)
    {
      assert events[..i + 1][..i] == events[..i] && events[..i + 1][i] == events[i];
      match events[i] {
        case Arrive(_) =>
          ok, fault := conn.Receive(arrivals[i]);
        case Register(cookie, buffer) =>
          conn.pending := conn.pending[cookie := buffer];
      }
      i := i + 1;
    }
    assert events[..|events|] == events;
    if !ok {
      StaysDropped(conn.ss, start, events, i, fault);
    }
  }

  lemma {:induction false} StaysDropped(ss: nat, c: Conn, events: seq<Event>, n: nat, fault: Fault)
    requires IsIdle(c) && AllArrivals(events) && n <= |events| && AllArrivals(events[..n])
    requires FeedEvents(ss, Live(c), events[..n]) == Dead(fault)
    ensures FeedEvents(ss, Live(c), events) == Dead(fault)
    decreases |events|
  {
    hide Feed, IsPdu, Encode, GetCommandSize, Command;
    if n == |events| {
      assert events[..n] == events;
    } else {
      var m := |events| - 1;
      assert events[..m][..n] == events[..n];
      StaysDropped(ss, c, events[..m], n, fault);
      if events[m].Arrive? {
        FeedDead(Client, ss, fault, Encode(events[m].image));
      }
    }
  }
}
