/** The packet that carries a page of the server table: the reply to GET_CONFIG (proto_common.h,
    hercules_mds_cmds.c), with the rows that the metadata server copies into it (FsConfig). */
module ConfigPages {
  import opened Arith
  import opened Bytes
  import opened Wire
  import opened FsConfig
  import Framing
  import Remote

  const CMD_REQ_MDS_GET_CONFIG: u32 := 0x35
  const PAGE_ROWS := 72

  function Name(row: ServerInfo, i: nat): string {
    if i < |row.names| then row.names[i] else ""
  }

  /** HFS_SERVER_INFO, packed. */
  function RowBytes(row: ServerInfo): (b: seq<byte>)
    ensures |b| == SERVER_INFO_SIZE
  {
    FixedText(Name(row, 0), 90) + FixedText(Name(row, 1), 16) +
    FixedText(Name(row, 2), 10) + FixedText(Name(row, 3), 4) +
    FixedText(Name(row, 4), 255) + FixedText(Name(row, 5), 255) + FixedText(Name(row, 6), 255) +
    Le32Bytes(row.serverIdx) + Le32Bytes(row.role)
  }

  /** What the client finds in a row: the names as C strings, and the two words. */
  function RowIn(b: seq<byte>): ServerInfo
    requires |b| == 893
  {
    ServerInfo([CString(b[0..90]), CString(b[90..106]), CString(b[106..116]), CString(b[116..120]),
                CString(b[120..375]), CString(b[375..630]), CString(b[630..885])], Word(b, 885), Word(b, 889))
  }

  /** The names fit their fields. */
  predicate IsRow(row: ServerInfo) {
    && |row.names| == 7
    && IsText(row.names[0], 90) && IsText(row.names[1], 16) && IsText(row.names[2], 10) && IsText(row.names[3], 4)
    && IsText(row.names[4], 255) && IsText(row.names[5], 255) && IsText(row.names[6], 255)
  }

  /** A row is read back as it was stored. */
  lemma RowRead(row: ServerInfo)
    requires IsRow(row)
    ensures RowIn(RowBytes(row)) == row
  {
    RowPieces(row);
    TextRoundTrip(row.names[0], 90);
    TextRoundTrip(row.names[1], 16);
    TextRoundTrip(row.names[2], 10);
    TextRoundTrip(row.names[3], 4);
    TextRoundTrip(row.names[4], 255);
    TextRoundTrip(row.names[5], 255);
    TextRoundTrip(row.names[6], 255);
    hide CString, FixedText, RowBytes, Le32, Le32Bytes;
    Le32RoundTrip(row.serverIdx);
    Le32RoundTrip(row.role);
  }

  lemma RowPieces(row: ServerInfo)
    requires |row.names| == 7
    ensures var b := RowBytes(row);
            && b[0..90] == FixedText(row.names[0], 90) && b[90..106] == FixedText(row.names[1], 16)
            && b[106..116] == FixedText(row.names[2], 10) && b[116..120] == FixedText(row.names[3], 4)
            && b[120..375] == FixedText(row.names[4], 255) && b[375..630] == FixedText(row.names[5], 255)
            && b[630..885] == FixedText(row.names[6], 255)
            && b[885..889] == Le32Bytes(row.serverIdx) && b[889..893] == Le32Bytes(row.role)
  {
    hide FixedText, Le32Bytes;
  }

  function Rows(page: seq<ServerInfo>): (b: seq<byte>)
    ensures |b| == |page| * SERVER_INFO_SIZE
  {
    if page == [] then [] else RowBytes(page[0]) + Rows(page[1..])
  }

  lemma {:induction false} RowAt(page: seq<ServerInfo>, k: nat)
    requires k < |page|
    ensures (k + 1) * SERVER_INFO_SIZE <= |Rows(page)|
    ensures Rows(page)[k * SERVER_INFO_SIZE..(k + 1) * SERVER_INFO_SIZE] == RowBytes(page[k])
    decreases k
  {
    hide RowBytes;
    if k > 0 {
      var (n, first, rest) := (SERVER_INFO_SIZE, RowBytes(page[0]), Rows(page[1..]));
      RowAt(page[1..], k - 1);
      assert (first + rest)[k * n..(k + 1) * n] == rest[(k - 1) * n..k * n];
    }
  }

  /** The reply to GET_CONFIG that carries these rows. */
  function PageImage(hdr: seq<byte>, page: seq<ServerInfo>): (image: seq<byte>)
    requires |hdr| == HEADER_SIZE && |page| * SERVER_INFO_SIZE < TWO32
  {
    Remote.Packed(hdr, CMD_RESP_MDS_GET_CONFIG, [|page|], Rows(page))
  }

  /** A page as the metadata server fills it fits the buffer of the request, which is the client's too, and
      carries each of its rows at its place. */
  lemma PageSent(hdr: seq<byte>, table: seq<ServerInfo>, offset: nat, ss: u32)
    requires |hdr| == HEADER_SIZE && offset <= |table|
    ensures var rows := PageAt(table, ss, offset);
            var page := seq(|rows|, k requires 0 <= k < |rows| => ToNet(rows[k]));
            && |page| * SERVER_INFO_SIZE < TWO32
            && var image := PageImage(hdr, page);
            && IsPdu(image) && GetCommandSize(Command(image)) > 0 &&
            Command(image) == ToggleReqResp(CMD_REQ_MDS_GET_CONFIG)
            && |image| <= MaxMemSize(CMD_REQ_MDS_GET_CONFIG, ss)
            && Word(image, HEADER_SIZE) == |rows|
            && forall k: nat :: k < |rows| ==>
                 && RowInPage(image, k) == RowBytes(ToNet(table[offset + k]))
                 && (IsRow(table[offset + k]) ==> ToHost(RowIn(RowInPage(image, k))) == table[offset + k])
                 && RowInPage(image, k)[885..893] ==
                      Wire.BigEndian(table[offset + k].serverIdx) + Wire.BigEndian(table[offset + k].role)
  {
    hide ToNet, ToHost, RowIn, IsRow, Wire.BigEndian, RowBytes, Le32, Le32Bytes, Rows, RowInPage, Remote.Packed;
    var rows := PageAt(table, ss, offset);
    var page := seq(|rows|, k requires 0 <= k < |rows| => ToNet(rows[k]));
    PageFits(table, ss, offset);
    Remote.PackedFields(hdr, CMD_RESP_MDS_GET_CONFIG, [|page|], Rows(page));
    var image := PageImage(hdr, page);
    assert Word(image, HEADER_SIZE + 4 * 0) == [|page|][0];
    Framing.ReplyFitsRequest(image, CMD_REQ_MDS_GET_CONFIG, ss);
    forall k: nat | k < |rows|
      ensures RowInPage(image, k) == RowBytes(ToNet(table[offset + k]))
      ensures IsRow(table[offset + k]) ==> ToHost(RowIn(RowInPage(image, k))) == table[offset + k]
      ensures RowInPage(image, k)[885..893] ==
                Wire.BigEndian(table[offset + k].serverIdx) + Wire.BigEndian(table[offset + k].role)
    {
      PageRow(image, page, k);
      RowFetched(table[offset + k]);
      WordsOfRow(table[offset + k]);
    }
  }

  /** The client's copy of a row, in host order, is the row of the table. */
  lemma RowFetched(row: ServerInfo)
    ensures IsRow(row) ==> ToHost(RowIn(RowBytes(ToNet(row)))) == row
  {
    hide RowIn, RowBytes;
    if IsRow(row) {
      RowRead(ToNet(row));
      SwapBytesTwice(row.serverIdx);
      SwapBytesTwice(row.role);
    }
  }

  /** The two words of a row travel with their highest byte first. */
  lemma WordsOfRow(row: ServerInfo)
    ensures RowBytes(ToNet(row))[885..893] == Wire.BigEndian(row.serverIdx) + Wire.BigEndian(row.role)
  {
    FsConfig.BigEndian(row.serverIdx);
    FsConfig.BigEndian(row.role);
    hide FixedText, SwapBytes, Le32Bytes;
    var b := RowBytes(ToNet(row));
    assert b[885..893] == Le32Bytes(SwapBytes(row.serverIdx)) + Le32Bytes(SwapBytes(row.role));
  }

  /** Bytes of row `k` in the packet. */
  function RowInPage(image: seq<byte>, k: nat): seq<byte> {
    var at := PAGE_ROWS + k * SERVER_INFO_SIZE;
    if at + SERVER_INFO_SIZE <= |image| then image[at..at + SERVER_INFO_SIZE] else []
  }

  lemma PageRow(image: seq<byte>, page: seq<ServerInfo>, k: nat)
    requires |image| >= PAGE_ROWS && image[PAGE_ROWS..] == Rows(page) && k < |page|
    ensures RowInPage(image, k) == RowBytes(page[k])
  {
    hide Rows, RowBytes;
    RowAt(page, k);
    var n := SERVER_INFO_SIZE;
    assert image[PAGE_ROWS..][k * n..(k + 1) * n] == image[PAGE_ROWS + k * n..PAGE_ROWS + (k + 1) * n];
  }
}
