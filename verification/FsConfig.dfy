/** The paged fetch of the server table: the cursor of dbGetSrvrListing on the metadata server
    (hercules_db_lib.c) and the loop of hfsReadFSConfigFromServer on the client (utils_config.c). The
    result of the query is a sequence of rows, the same for every request. */
module FsConfig {
  import opened Arith
  import Bytes

  const HFS_MAX_MDS_CNT := 16
  const HFS_MAX_DS_CNT := 32

  /** sizeof(HFS_SERVER_INFO), packed: strings of 90, 16, 10, 4, 255, 255 and 255 bytes, two words. */
  const SERVER_INFO_SIZE := 893

  const SERVER_CONFIG_ROLE_MDS: u32 := 0
  const SERVER_CONFIG_ROLE_DS: u32 := 1

  datatype ServerInfo = ServerInfo(names: seq<string>, serverIdx: u32, role: u32)

  const UNSET := ServerInfo([], 0, 0)

  datatype DbStatus = Success | NoSuchRecord

  /** `htonl` and `ntohl` on a little-endian host. */
  function SwapBytes(x: u32): u32 {
    x % 256 * 0x100_0000 + x / 0x100 % 256 * 0x1_0000 + x / 0x1_0000 % 256 * 0x100 + x / 0x100_0000
  }

  lemma Digits(x: int, a: int, b: int, c: int, d: int)
    requires 0 <= a < 256 && 0 <= b < 256 && 0 <= c < 256 && 0 <= d < 256
    requires x == a + b * 0x100 + c * 0x1_0000 + d * 0x100_0000
    ensures x % 256 == a && x / 0x100 % 256 == b && x / 0x1_0000 % 256 == c && x / 0x100_0000 == d
  {
    assert x / 0x100 == b + c * 0x100 + d * 0x1_0000;
    assert x / 0x1_0000 == c + d * 0x100;
  }

  lemma SwapBytesTwice(x: u32)
    ensures SwapBytes(SwapBytes(x)) == x
  {
    var (a, b, c, d) := (x % 256, x / 0x100 % 256, x / 0x1_0000 % 256, x / 0x100_0000);
    assert x == a + b * 0x100 + c * 0x1_0000 + d * 0x100_0000 by {
      assert x / 0x100 == (x / 0x100) / 256 * 256 + b && (x / 0x100) / 256 == x / 0x1_0000;
      assert x / 0x1_0000 == (x / 0x1_0000) / 256 * 256 + c && (x / 0x1_0000) / 256 == d;
    }
    Digits(SwapBytes(x), d, c, b, a);
  }

  /** The word is stored with its highest byte first. */
  lemma BigEndian(x: u32)
    ensures Bytes.Le32Bytes(SwapBytes(x)) == [x / 0x100_0000, x / 0x1_0000 % 256, x / 0x100 % 256, x % 256]
  {
    var (a, b, c, d) := (x % 256, x / 0x100 % 256, x / 0x1_0000 % 256, x / 0x100_0000);
    Digits(SwapBytes(x), d, c, b, a);
  }

  function ToNet(row: ServerInfo): ServerInfo {
    row.(serverIdx := SwapBytes(row.serverIdx), role := SwapBytes(row.role))
  }

  /** The rows that one reply carries. */
  function PageAt(table: seq<ServerInfo>, size: nat, offset: nat): seq<ServerInfo>
    requires offset <= |table|
  {
    table[offset..Min(offset + size / SERVER_INFO_SIZE, |table|)]
  }

  /** A page never outgrows the payload area of the reply that carries it. */
  lemma PageFits(table: seq<ServerInfo>, size: nat, offset: nat)
    requires offset <= |table|
    ensures |PageAt(table, size, offset)| * SERVER_INFO_SIZE <= size
  {
    MulMono(|PageAt(table, size, offset)|, size / SERVER_INFO_SIZE, SERVER_INFO_SIZE);
  }

  /** dbGetSrvrListing: skip `offset` rows, then fill the page with what follows, in network order. */
  method GetSrvrListing(table: seq<ServerInfo>, size: nat, offset: nat)
    returns (status: DbStatus, copied: seq<ServerInfo>)
    ensures status == if offset <= |table| then Success else NoSuchRecord
    ensures offset <= |table| ==> |copied| == |PageAt(table, size, offset)|
    ensures offset <= |table| ==> forall k :: 0 <= k < |copied| ==> copied[k] == ToNet(table[offset + k])
    ensures offset > |table| ==> copied == []
  {
    copied := [];
    var cursor, i, fetched := 0, 0, false;
    while i < offset
      invariant i <= offset && cursor == i <= |table|
      invariant fetched <==> i > 0
    {
      fetched := cursor < |table|;
      if !fetched {
        break;
      }
      cursor := cursor + 1;
      i := i + 1;
    }
    if offset > 0 && !fetched {
      return NoSuchRecord, copied;
    }
    assert cursor == offset;
    i := 0;
    while i < size / SERVER_INFO_SIZE
      invariant 0 <= i <= size / SERVER_INFO_SIZE && |copied| == i && cursor == offset + i <= |table|
      invariant forall k :: 0 <= k < i ==> copied[k] == ToNet(table[offset + k])
    {
      if cursor == |table| {
        return Success, copied;
      }
      copied := copied + [ToNet(table[cursor])];
      cursor := cursor + 1;
      i := i + 1;
    }
    status := Success;
  }

  /** The rows of one role, in the order of the table. */
  function OfRole(table: seq<ServerInfo>, role: u32): (r: seq<ServerInfo>)
    ensures |r| <= |table|
  {
    if table == [] then []
    else
      var n := |table| - 1;
      OfRole(table[..n], role) + if table[n].role == role then [table[n]] else []
  }

  predicate KnownRole(row: ServerInfo) {
    row.role == SERVER_CONFIG_ROLE_MDS || row.role == SERVER_CONFIG_ROLE_DS
  }

  predicate KnownRoles(table: seq<ServerInfo>) {
    forall k :: 0 <= k < |table| ==> KnownRole(table[k])
  }

  lemma OfRoleNext(done: seq<ServerInfo>, row: ServerInfo, role: u32)
    ensures OfRole(done + [row], role) == OfRole(done, role) + if row.role == role then [row] else []
  {
    assert (done + [row])[..|done|] == done;
  }

  /** The arrays of the context have room for the servers of the table. */
  predicate Fits(table: seq<ServerInfo>) {
    && |OfRole(table, SERVER_CONFIG_ROLE_MDS)| <= HFS_MAX_MDS_CNT
    && |OfRole(table, SERVER_CONFIG_ROLE_DS)| <= HFS_MAX_DS_CNT
  }

  lemma {:induction false} FitsPrefix(table: seq<ServerInfo>, n: nat)
    requires Fits(table) && n <= |table|
    ensures Fits(table[..n])
    decreases |table|
  {
    if n < |table| {
      var m := |table| - 1;
      FitsPrefix(table[..m], n);
      assert table[..m][..n] == table[..n];
    } else {
      assert table[..n] == table;
    }
  }

  /** Every row is collected, once: the two arrays together hold the table. */
  lemma {:induction false} CollectedOnce(table: seq<ServerInfo>)
    requires KnownRoles(table)
    ensures multiset(OfRole(table, SERVER_CONFIG_ROLE_MDS)) + multiset(OfRole(table, SERVER_CONFIG_ROLE_DS)) ==
            multiset(table)
  {
    if table != [] {
      var (n, x) := (|table| - 1, table[|table| - 1]);
      CollectedOnce(table[..n]);
      assert table == table[..n] + [x];
      CollectedNext(table[..n], x);
    }
  }

  lemma CollectedNext(done: seq<ServerInfo>, x: ServerInfo)
    requires KnownRole(x)
    requires multiset(OfRole(done, SERVER_CONFIG_ROLE_MDS)) + multiset(OfRole(done, SERVER_CONFIG_ROLE_DS)) ==
             multiset(done)
    ensures multiset(OfRole(done + [x], SERVER_CONFIG_ROLE_MDS)) + multiset(OfRole(done + [x], SERVER_CONFIG_ROLE_DS))
         == multiset(done + [x])
  {
    OfRoleNext(done, x, SERVER_CONFIG_ROLE_MDS);
    OfRoleNext(done, x, SERVER_CONFIG_ROLE_DS);
    hide OfRole;
    var (mds, ds) := (OfRole(done, SERVER_CONFIG_ROLE_MDS), OfRole(done, SERVER_CONFIG_ROLE_DS));
    if x.role == SERVER_CONFIG_ROLE_MDS {
      assert OfRole(done + [x], SERVER_CONFIG_ROLE_DS) == ds;
      assert multiset(mds + [x]) + multiset(ds) == multiset(done) + multiset{x};
    } else {
      assert OfRole(done + [x], SERVER_CONFIG_ROLE_MDS) == mds;
      assert multiset(mds) + multiset(ds + [x]) == multiset(done) + multiset{x};
    }
  }

  const MDS_FIRST_IDX := 0
  const DS_FIRST_IDX := 0

  /** What a lookup by index returns; `Outside` is a pointer outside the array of records. */
  datatype ServerRef = NullPointer | Record(info: ServerInfo) | Outside

  /** HFS_FS_CTX: the servers known so far, by role. */
  class FsContext {
    const mdserver: array<ServerInfo>
    const dserver: array<ServerInfo>
    var mdsCount: nat
    var dsCount: nat
    var totalServer: nat

    ghost predicate Valid()
      reads this
    {
      && mdserver != dserver && mdserver.Length == HFS_MAX_MDS_CNT && dserver.Length == HFS_MAX_DS_CNT
      && mdsCount <= HFS_MAX_MDS_CNT && dsCount <= HFS_MAX_DS_CNT
    }

    ghost predicate Holds(table: seq<ServerInfo>)
      reads this, mdserver, dserver
    {
      && Valid() && mdsCount + dsCount == |table|
      && mdserver[..mdsCount] == OfRole(table, SERVER_CONFIG_ROLE_MDS)
      && dserver[..dsCount] == OfRole(table, SERVER_CONFIG_ROLE_DS)
      && (forall k :: mdsCount <= k < mdserver.Length ==> mdserver[k] == UNSET)
      && (forall k :: dsCount <= k < dserver.Length ==> dserver[k] == UNSET)
    }

    constructor ()
      ensures Holds([]) && fresh(mdserver) && fresh(dserver)
    {
      mdserver := new ServerInfo[HFS_MAX_MDS_CNT](_ => UNSET);
      dserver := new ServerInfo[HFS_MAX_DS_CNT](_ => UNSET);
      mdsCount, dsCount, totalServer := 0, 0, 0;
    }

    /** Copies the entry of one row to the array of its role; an unknown role is refused. */
    method Collect(entry: ServerInfo, ghost done: seq<ServerInfo>) returns (ok: bool)
      requires Holds(done) && Fits(done + [entry])
      modifies this, mdserver, dserver
      ensures ok <==> KnownRole(entry)
      ensures ok ==> Holds(done + [entry])
      ensures totalServer == old(totalServer)
    {
      OfRoleNext(done, entry, SERVER_CONFIG_ROLE_MDS);
      OfRoleNext(done, entry, SERVER_CONFIG_ROLE_DS);
      hide OfRole;
      if entry.role == SERVER_CONFIG_ROLE_MDS {
        mdserver[mdsCount] := entry;
        mdsCount := mdsCount + 1;
        assert mdserver[..mdsCount] == mdserver[..mdsCount - 1] + [entry];
      } else if entry.role == SERVER_CONFIG_ROLE_DS {
        dserver[dsCount] := entry;
        dsCount := dsCount + 1;
        assert dserver[..dsCount] == dserver[..dsCount - 1] + [entry];
      } else {
        return false;
      }
      ok := true;
    }

    method CountServers(ghost table: seq<ServerInfo>)
      requires Holds(table)
      modifies `totalServer
      ensures Holds(table) && totalServer == |table|
    {
      totalServer := mdsCount + dsCount;
    }

    /** hfsGetMDSFromServIdx: the record of every fetched server, but not the null pointer for the first
        index that has none. */
    method GetMDSFromServIdx(idx: int, ghost table: seq<ServerInfo>) returns (r: ServerRef)
      requires Holds(table)
      ensures var servers := OfRole(table, 0);
              && (r == NullPointer <==> idx > |servers|)
              && (0 <= idx < |servers| ==> r == Record(servers[idx]))
              && (idx == |servers| ==> r == if idx < 16 then Record(UNSET) else Outside)
              && (idx < 0 ==> r == Outside)
    {
      hide OfRole;
      assert mdsCount == |OfRole(table, SERVER_CONFIG_ROLE_MDS)|;
      if idx > mdsCount {
        return NullPointer;
      }
      r := if 0 <= idx - MDS_FIRST_IDX < mdserver.Length then Record(mdserver[idx - MDS_FIRST_IDX]) else Outside;
    }

    /** hfsGetDSFromServIdx, likewise. */
    method GetDSFromServIdx(idx: int, ghost table: seq<ServerInfo>) returns (r: ServerRef)
      requires Holds(table)
      ensures var servers := OfRole(table, 1);
              && (r == NullPointer <==> idx > |servers|)
              && (0 <= idx < |servers| ==> r == Record(servers[idx]))
              && (idx == |servers| ==> r == if idx < 32 then Record(UNSET) else Outside)
              && (idx < 0 ==> r == Outside)
    {
      hide OfRole;
      assert dsCount == |OfRole(table, SERVER_CONFIG_ROLE_DS)|;
      if idx > dsCount {
        return NullPointer;
      }
      r := if 0 <= idx - DS_FIRST_IDX < dserver.Length then Record(dserver[idx - DS_FIRST_IDX]) else Outside;
    }
  }

  function ToHost(entry: ServerInfo): ServerInfo {
    entry.(serverIdx := SwapBytes(entry.serverIdx), role := SwapBytes(entry.role))
  }

  /** What a page is, seen by the client. */
  predicate Carries(page: seq<ServerInfo>, rows: seq<ServerInfo>) {
    |page| == |rows| && forall k :: 0 <= k < |page| ==> page[k] == ToNet(rows[k])
  }

  lemma CarriesLength(page: seq<ServerInfo>, rows: seq<ServerInfo>)
    requires Carries(page, rows)
    ensures |page| == |rows|
  {
  }

  lemma CarriesAt(page: seq<ServerInfo>, rows: seq<ServerInfo>, k: nat)
    requires Carries(page, rows) && k < |page|
    ensures ToHost(page[k]) == rows[k]
  {
    SwapBytesTwice(rows[k].serverIdx);
    SwapBytesTwice(rows[k].role);
  }

  /** The copy loop over one page. */
  method CollectPage(ctx: FsContext, page: seq<ServerInfo>, ghost rows: seq<ServerInfo>, ghost done: seq<ServerInfo>)
    returns (ok: bool)
    requires ctx.Holds(done) && Fits(done + rows) && Carries(page, rows)
    modifies ctx, ctx.mdserver, ctx.dserver
    ensures ok <==> KnownRoles(rows)
    ensures ok ==> ctx.Holds(done + rows)
  {
    hide ToHost, Carries, Fits, KnownRole, FsContext.Holds;
    CarriesLength(page, rows);
    var i := 0;
    assert done + rows[..0] == done;
    while i < |page|
      invariant 0 <= i <= |page| && ctx.Holds(done + rows[..i])
      invariant KnownRoles(rows[..i])
    {
      CarriesAt(page, rows, i);
      assert done + rows[..i] + [rows[i]] == done + rows[..i + 1] == (done + rows)[..|done| + i + 1];
      FitsPrefix(done + rows, |done| + i + 1);
      var known := ctx.Collect(ToHost(page[i]), done + rows[..i]);
      if !known {
        return false;
      }
      assert rows[..i + 1] == rows[..i] + [rows[i]];
      i := i + 1;
    }
    assert rows[..i] == rows;
    ok := true;
  }

  /** One request and its reply: the page from where the client stands. */
  method FetchPage(ctx: FsContext, table: seq<ServerInfo>, extentSize: nat, ghost done: nat)
    returns (ok: bool, returned: nat)
    requires done <= |table| && ctx.Holds(table[..done]) && Fits(table) && KnownRoles(table[..done])
    modifies ctx, ctx.mdserver, ctx.dserver
    ensures ok ==> returned == Min(extentSize / SERVER_INFO_SIZE, |table| - done)
    ensures ok ==> KnownRoles(table[..done + returned]) && ctx.Holds(table[..done + returned])
    ensures !ok ==> !KnownRoles(table) && extentSize >= SERVER_INFO_SIZE
  {
    hide OfRole, Fits, KnownRole, ToNet;
    ok, returned := false, 0;
    var status, entries := GetSrvrListing(table, extentSize, ctx.mdsCount + ctx.dsCount);
    if status != Success {
      return;
    }
    ghost var rows := PageAt(table, extentSize, done);
    assert table[..done + |entries|] == table[..done] + rows;
    FitsPrefix(table, done + |entries|);
    ok := CollectPage(ctx, entries, rows, table[..done]);
    returned := |entries|;
    if !ok {
      UnknownInside(table, done, rows);
    }
  }

  /** After `requests` full pages. */
  predicate FullPages(done: nat, requests: nat, page: nat) {
    done == requests * page
  }

  lemma NextPage(done: nat, requests: nat, page: nat)
    requires FullPages(done, requests, page)
    ensures FullPages(done + page, requests + 1, page)
  {
    assert (requests + 1) * page == requests * page + page;
  }

  /** Requests until a page is not full: one more than there are full pages. */
  function RequestsFor(rows: nat, page: nat): nat
    requires page > 0
  {
    rows / page + 1
  }

  lemma LastPage(done: nat, requests: nat, page: nat, last: nat)
    requires FullPages(done, requests, page) && last < page
    ensures RequestsFor(done + last, page) == requests + 1
  {
    DivModUnique(done + last, page, requests, last);
  }

  /** hfsReadFSConfigFromServer: asks for page after page, starting each where the last one ended, until
      one is not full. It succeeds exactly if every row has a role that the client knows, and has then
      collected the whole table, each role in order, also when the last page is exactly full.

      A page that cannot hold a single row ends the loop at once, with nothing collected. */
  method ReadFSConfigFromServer(table: seq<ServerInfo>, extentSize: nat) returns (ctx: FsContext?, requests: nat)
    requires Fits(table)
    ensures extentSize >= SERVER_INFO_SIZE ==> (ctx != null <==> KnownRoles(table))
    ensures extentSize < SERVER_INFO_SIZE ==> ctx != null && ctx.Holds([]) && ctx.totalServer == 0
    ensures extentSize >= SERVER_INFO_SIZE && ctx != null ==>
              fresh(ctx) && ctx.Holds(table) && ctx.totalServer == |table| &&
              requests == RequestsFor(|table|, extentSize / SERVER_INFO_SIZE)
  {
    var page := extentSize / SERVER_INFO_SIZE;
    assert FullPages(0, 0, page) && KnownRoles(table[..0]);
    hide OfRole, Fits, KnownRole, KnownRoles, ToNet, FullPages, RequestsFor, FsContext.Holds;
    var c := new FsContext();
    requests := 0;
    ghost var done := 0;
    assert table[..0] == [];
    while true
      invariant fresh(c) && fresh(c.mdserver) && fresh(c.dserver)
      invariant done <= |table| && c.Holds(table[..done])
      invariant FullPages(done, requests, page) && (page == 0 ==> done == 0)
      invariant KnownRoles(table[..done])
      decreases |table| - done
    {
      var ok, returned := FetchPage(c, table, extentSize, done);
      requests := requests + 1;
      if !ok {
        return null, requests;
      }
      done := done + returned;
      if returned != page || returned == 0 {
        if page > 0 {
          LastPage(done - returned, requests - 1, page, returned);
          assert done == |table| && table[..done] == table;
        }
        break;
      }
      NextPage(done - page, requests - 1, page);
    }
    c.CountServers(table[..done]);
    ctx := c;
  }

  lemma UnknownInside(table: seq<ServerInfo>, n: nat, rows: seq<ServerInfo>)
    requires n + |rows| <= |table| && rows == table[n..n + |rows|] && !KnownRoles(rows)
    ensures !KnownRoles(table)
  {
    var k :| 0 <= k < |rows| && !KnownRole(rows[k]);
    assert rows[k] == table[n + k];
  }
}
