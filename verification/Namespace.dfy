/** The namespace of the metadata servers: path resolution and creation on the client (hfs_namei,
    hfs_create in hercules_client_lib.c) over directory rows that are spread over several databases
    (dbLookUp, dbAllocMetaDataHandle, dbAddDirent in hercules_db_lib.c). A primary and its backup are
    one database; a row is found by its exact name. */
module Namespace {
  import opened Arith

  const HFS_ROOT_HANDLE: u32 := 0x10
  const HFS_ROOT_SERVER_IDX := 0

  datatype Option<T> = None | Some(value: T)

  /** What a directory entry points to: handles are counted by each server for itself. */
  datatype Inode = Inode(server: nat, handle: u32)

  const ROOT := Inode(HFS_ROOT_SERVER_IDX, HFS_ROOT_HANDLE)

  datatype Dirent = Dirent(parent: u32, self: u32, server: nat, name: string)

  /** One metadata server: the inode table and the namespace table, rows in the order of insertion. */
  datatype Db = Db(inodes: seq<u32>, dirents: seq<Dirent>)

  // ---------------------------------------------------------------------------------------------
  // Paths

  function TokenEnd(s: string): (k: nat)
    ensures k <= |s|
    ensures forall i :: 0 <= i < k ==> s[i] != '/'
    ensures k < |s| ==> s[k] == '/'
  {
    if s == [] || s[0] == '/' then 0 else 1 + TokenEnd(s[1..])
  }

  /** The names between the slashes of a path. */
  function Components(s: string): seq<string>
    decreases |s|
  {
    if s == [] then []
    else if s[0] == '/' then Components(s[1..])
    else [s[..TokenEnd(s)]] + Components(s[TokenEnd(s)..])
  }

  /** `strtok_r` with a slash for delimiter. */
  method StrTok(s: string) returns (token: Option<string>, rest: string)
    ensures token.None? ==> Components(s) == [] && rest == ""
    ensures token.Some? ==> Components(s) == [token.value] + Components(rest)
    ensures (token, rest) == Token(s)
    ensures token.Some? ==> |rest| < |s|
  {
    var i := 0;
    while i < |s| && s[i] == '/'
      invariant 0 <= i <= |s| && Components(s) == Components(s[i..]) && Token(s) == Token(s[i..])
    {
      assert s[i..][1..] == s[i + 1..];
      i := i + 1;
    }
    var t := s[i..];
    if t == [] {
      return None, [];
    }
    var k := 0;
    while k < |t| && t[k] != '/'
      invariant 0 <= k <= TokenEnd(t)
    {
      k := k + 1;
    }
    assert k == TokenEnd(t);
    token := Some(t[..k]);
    rest := if k == |t| then [] else t[k + 1..];
    if k < |t| {
      assert t[k..][1..] == t[k + 1..];
    }
  }

  function Token(s: string): (Option<string>, string)
    decreases |s|
  {
    if s == [] then (None, [])
    else if s[0] == '/' then Token(s[1..])
    else var k := TokenEnd(s); (Some(s[..k]), if k == |s| then [] else s[k + 1..])
  }

  lemma {:induction false} TokenShorter(s: string)
    ensures Token(s).0.Some? ==> |Token(s).1| < |s|
    decreases |s|
  {
    if s != [] && s[0] == '/' {
      TokenShorter(s[1..]);
    }
  }

  /** The resolver asks for one more name than there is. */
  function NullAtEnd(s: string): bool
    decreases |s|
  {
    TokenShorter(s);
    var (token, rest) := Token(s);
    token.None? || (rest != [] && NullAtEnd(rest))
  }

  /** Splitting off the last name. */
  lemma {:induction false} ComponentsAppend(p: string, f: string)
    requires f != [] && '/' !in f && (p == [] || p[|p| - 1] == '/')
    ensures Components(p + f) == Components(p) + [f]
    decreases |p|
  {
    if p == [] {
      assert TokenEnd(f) == |f|;
      assert p + f == f && f[..|f|] == f && f[|f|..] == [];
    } else if p[0] == '/' {
      assert (p + f)[1..] == p[1..] + f;
      ComponentsAppend(p[1..], f);
    } else {
      var k := TokenEnd(p);
      TokenEndUnique(p + f, k);
      assert (p + f)[..k] == p[..k] && (p + f)[k..] == p[k..] + f;
      ComponentsAppend(p[k..], f);
    }
  }

  lemma {:induction false} TokenEndUnique(s: string, k: nat)
    requires k < |s| && s[k] == '/' && forall i :: 0 <= i < k ==> s[i] != '/'
    ensures TokenEnd(s) == k
  {
    if k > 0 {
      TokenEndUnique(s[1..], k - 1);
    }
  }

  // ---------------------------------------------------------------------------------------------
  // Rows

  /** The first row that the lookup query finds. */
  function FirstMatch(rows: seq<Dirent>, parent: u32, name: string): (r: Option<Dirent>)
    ensures r.Some? ==> r.value in rows && r.value.parent == parent && r.value.name == name
    ensures r.None? ==> forall d :: d in rows ==> !(d.parent == parent && d.name == name)
  {
    if rows == [] then None
    else if rows[0].parent == parent && rows[0].name == name then Some(rows[0])
    else FirstMatch(rows[1..], parent, name)
  }

  lemma {:induction false} FirstMatchAppend(rows: seq<Dirent>, d: Dirent, parent: u32, name: string)
    ensures FirstMatch(rows + [d], parent, name) ==
            if FirstMatch(rows, parent, name).Some? then FirstMatch(rows, parent, name)
            else if d.parent == parent && d.name == name then Some(d) else None
  {
    if rows == [] {
      assert rows + [d] == [d];
    } else {
      assert (rows + [d])[1..] == rows[1..] + [d];
      FirstMatchAppend(rows[1..], d, parent, name);
    }
  }

  /** One name looked up in one directory, on the server of the directory. */
  function Child(dbs: seq<Db>, at: Inode, name: string): Option<Inode> {
    if at.server >= |dbs| then None
    else match FirstMatch(dbs[at.server].dirents, at.handle, name)
         case None => None
         case Some(d) => Some(Inode(d.server, d.self))
  }

  function Walk(dbs: seq<Db>, at: Inode, names: seq<string>): Option<Inode>
    decreases |names|
  {
    if names == [] then Some(at)
    else match Child(dbs, at, names[0])
         case None => None
         case Some(c) => Walk(dbs, c, names[1..])
  }

  lemma {:induction false} WalkLast(dbs: seq<Db>, at: Inode, names: seq<string>)
    requires names != []
    decreases |names|
    ensures var n := |names| - 1;
      Walk(dbs, at, names) ==
      match Walk(dbs, at, names[..n]) { case None => None case Some(p) => Child(dbs, p, names[n]) }
  {
    var n := |names| - 1;
    if n > 0 && Child(dbs, at, names[0]).Some? {
      assert names[1..][..n - 1] == names[..n][1..];
      WalkLast(dbs, Child(dbs, at, names[0]).value, names[1..]);
    } else if n == 0 {
      assert names[1..] == [];
    }
  }

  // ---------------------------------------------------------------------------------------------
  // The tree

  /** The rows that formatting puts into every server, for the root and its two dots, are not looked at
      by paths of proper names. */
  predicate Proper(name: string) {
    name != "." && name != ".." && name != "/"
  }

  predicate Plain(names: seq<string>) {
    forall k :: 0 <= k < |names| ==> Proper(names[k])
  }

  /** A row of a server under a proper name. */
  predicate IsRow(dbs: seq<Db>, s: nat, d: Dirent) {
    s < |dbs| && d in dbs[s].dirents && Proper(d.name)
  }

  predicate RowOk(dbs: seq<Db>, s: nat, d: Dirent) {
    IsRow(dbs, s, d) ==>
      d.parent in dbs[s].inodes && d.server < |dbs| && d.self in dbs[d.server].inodes && d.self != HFS_ROOT_HANDLE
  }

  /** Two rows for one inode are the same entry of the same directory. */
  predicate OneName(dbs: seq<Db>, s: nat, d: Dirent, t: nat, e: Dirent) {
    IsRow(dbs, s, d) && IsRow(dbs, t, e) && d.server == e.server && d.self == e.self ==>
      s == t && d.parent == e.parent && d.name == e.name
  }

  /** Every server knows its root, rows lead from inodes to inodes, and no inode has two names. */
  ghost predicate Tree(dbs: seq<Db>) {
    && dbs != []
    && (forall s :: 0 <= s < |dbs| ==> HFS_ROOT_HANDLE in dbs[s].inodes)
    && (forall s, d :: RowOk(dbs, s, d))
    && (forall s, d, t, e :: OneName(dbs, s, d, t, e))
  }

  /** The row behind one step of a path. */
  function RowOf(dbs: seq<Db>, at: Inode, name: string): (d: Dirent)
    requires Child(dbs, at, name).Some?
    ensures d in dbs[at.server].dirents && d.parent == at.handle && d.name == name
    ensures Child(dbs, at, name) == Some(Inode(d.server, d.self))
  {
    FirstMatch(dbs[at.server].dirents, at.handle, name).value
  }

  /** An inode other than the root is reached by one step only. */
  lemma OneStep(dbs: seq<Db>, x: Inode, m: string, y: Inode, n: string)
    requires Tree(dbs) && Proper(m) && Proper(n)
    requires Child(dbs, x, m).Some? && Child(dbs, x, m) == Child(dbs, y, n)
    ensures x == y && m == n
  {
    var (d, e) := (RowOf(dbs, x, m), RowOf(dbs, y, n));
    assert IsRow(dbs, x.server, d) && IsRow(dbs, y.server, e);
    assert OneName(dbs, x.server, d, y.server, e);
  }

  lemma NotTheRoot(dbs: seq<Db>, at: Inode, name: string)
    requires Tree(dbs) && Proper(name)
    ensures Child(dbs, at, name) != Some(ROOT)
  {
    if Child(dbs, at, name).Some? {
      var d := RowOf(dbs, at, name);
      assert IsRow(dbs, at.server, d) && RowOk(dbs, at.server, d);
    }
  }

  /** No two paths lead to one inode. */
  lemma {:induction false} PathUnique(dbs: seq<Db>, p: seq<string>, q: seq<string>)
    requires Tree(dbs) && Plain(p) && Plain(q)
    requires Walk(dbs, ROOT, p).Some? && Walk(dbs, ROOT, p) == Walk(dbs, ROOT, q)
    ensures p == q
    decreases |p| + |q|
  {
    hide Tree, Child, Proper;
    if p == [] && q == [] {
    } else if p == [] {
      var _ := LastStep(dbs, q);
    } else if q == [] {
      var _ := LastStep(dbs, p);
    } else {
      var x := LastStep(dbs, p);
      var y := LastStep(dbs, q);
      var (m, n) := (|p| - 1, |q| - 1);
      OneStep(dbs, x, p[m], y, q[n]);
      PathUnique(dbs, p[..m], q[..n]);
      assert p == p[..m] + [p[m]] && q == q[..n] + [q[n]];
    }
  }

  lemma LastStep(dbs: seq<Db>, names: seq<string>) returns (x: Inode)
    requires Tree(dbs) && Plain(names) && names != [] && Walk(dbs, ROOT, names).Some?
    ensures Walk(dbs, ROOT, names[..|names| - 1]) == Some(x)
    ensures Child(dbs, x, names[|names| - 1]) == Walk(dbs, ROOT, names) != Some(ROOT)
  {
    WalkLast(dbs, ROOT, names);
    x := Walk(dbs, ROOT, names[..|names| - 1]).value;
    NotTheRoot(dbs, x, names[|names| - 1]);
  }

  /** What a create does to the databases: a new inode on one server, its row in its parent's. */
  function AddInode(dbs: seq<Db>, child: Inode): seq<Db>
    requires child.server < |dbs|
  {
    dbs[child.server := dbs[child.server].(inodes := dbs[child.server].inodes + [child.handle])]
  }

  function AddRow(dbs: seq<Db>, parent: Inode, name: string, child: Inode): seq<Db>
    requires parent.server < |dbs|
  {
    var d := Dirent(parent.handle, child.handle, child.server, name);
    dbs[parent.server := dbs[parent.server].(dirents := dbs[parent.server].dirents + [d])]
  }

  lemma SameRows(dbs: seq<Db>, child: Inode, at: Inode, name: string)
    requires child.server < |dbs|
    ensures Child(AddInode(dbs, child), at, name) == Child(dbs, at, name)
  {
  }

  lemma {:induction false} SameWalk(dbs: seq<Db>, child: Inode, at: Inode, names: seq<string>)
    requires child.server < |dbs|
    ensures Walk(AddInode(dbs, child), at, names) == Walk(dbs, at, names)
    decreases |names|
  {
    hide Child, AddInode;
    if names != [] {
      SameRows(dbs, child, at, names[0]);
      if Child(dbs, at, names[0]).Some? {
        SameWalk(dbs, child, Child(dbs, at, names[0]).value, names[1..]);
      }
    }
  }

  lemma ChildAfter(dbs: seq<Db>, parent: Inode, name: string, child: Inode, at: Inode, n: string)
    requires parent.server < |dbs|
    ensures Child(AddRow(dbs, parent, name, child), at, n) ==
            if Child(dbs, at, n).Some? then Child(dbs, at, n) else if at == parent && n == name then Some(child)
            else None
  {
    if at.server == parent.server {
      FirstMatchAppend(dbs[at.server].dirents, Dirent(parent.handle, child.handle, child.server, name), at.handle, n);
    }
  }

  /** No row knows this inode. */
  ghost predicate Unknown(dbs: seq<Db>, child: Inode) {
    forall at, n :: Proper(n) ==> Child(dbs, at, n) != Some(child) && Child(dbs, child, n) == None
  }

  lemma FreshInode(dbs: seq<Db>, child: Inode)
    requires Tree(dbs) && child.server < |dbs| && child.handle !in dbs[child.server].inodes
    ensures Unknown(dbs, child)
  {
    forall at, n | Proper(n)
      ensures Child(dbs, at, n) != Some(child) && Child(dbs, child, n) == None
    {
      if Child(dbs, at, n).Some? {
        assert IsRow(dbs, at.server, RowOf(dbs, at, n)) && RowOk(dbs, at.server, RowOf(dbs, at, n));
      }
      if Child(dbs, child, n).Some? {
        assert IsRow(dbs, child.server, RowOf(dbs, child, n)) && RowOk(dbs, child.server, RowOf(dbs, child, n));
      }
    }
  }

  /** Resolution after a create: what resolved before resolves to the same, and of what did not only the
      parent's path with the new name does. */
  lemma {:induction false} WalkAfter(dbs: seq<Db>, parent: Inode, name: string, child: Inode, at: Inode,
                                     names: seq<string>)
    requires parent.server < |dbs| && Unknown(dbs, child) && child != parent && at != child && Plain(names)
    requires Child(dbs, parent, name) == None
    ensures Walk(AddRow(dbs, parent, name, child), at, names) ==
            if Walk(dbs, at, names).Some? then Walk(dbs, at, names)
            else if Walk(dbs, at, names[..|names| - 1]) == Some(parent) && names[|names| - 1] == name then Some(child)
            else None
    decreases |names|
  {
    hide Child, AddRow, Proper;
    if names != [] {
      var (x, rest) := (names[0], names[1..]);
      ChildAfter(dbs, parent, name, child, at, x);
      assert Child(dbs, at, x) != Some(child);
      if Child(dbs, at, x).Some? {
        WalkAfter(dbs, parent, name, child, Child(dbs, at, x).value, rest);
        if rest != [] {
          assert names[..|names| - 1][1..] == rest[..|rest| - 1];
        }
      } else if rest != [] {
        ChildAfter(dbs, parent, name, child, child, rest[0]);
        assert Child(dbs, child, rest[0]) == None;
      }
    }
  }

  function After(dbs: seq<Db>, parent: Inode, name: string, child: Inode): seq<Db>
    requires parent.server < |dbs| && child.server < |dbs|
  {
    AddRow(AddInode(dbs, child), parent, name, child)
  }

  lemma TreeAfter(dbs: seq<Db>, parent: Inode, name: string, child: Inode)
    requires Tree(dbs) && parent.server < |dbs| && parent.handle in dbs[parent.server].inodes
    requires child.server < |dbs| && child.handle !in dbs[child.server].inodes
    ensures Tree(After(dbs, parent, name, child))
  {
    var t := After(dbs, parent, name, child);
    var row := Dirent(parent.handle, child.handle, child.server, name);
    forall s, d
      ensures RowOk(t, s, d)
    {
      assert RowOk(dbs, s, d);
    }
    forall s, d, u, e
      ensures OneName(t, s, d, u, e)
    {
      assert OneName(dbs, s, d, u, e) && RowOk(dbs, s, d) && RowOk(dbs, u, e);
    }
  }

  lemma WalkInTree(dbs: seq<Db>, names: seq<string>)
    requires Tree(dbs) && Plain(names) && Walk(dbs, ROOT, names).Some?
    ensures var x := Walk(dbs, ROOT, names).value; x.server < |dbs| && x.handle in dbs[x.server].inodes
  {
    if names != [] {
      var p := LastStep(dbs, names);
      var d := RowOf(dbs, p, names[|names| - 1]);
      assert IsRow(dbs, p.server, d) && RowOk(dbs, p.server, d);
    }
  }

  // ---------------------------------------------------------------------------------------------
  // What the databases stand for: a map from paths to inodes

  function PathAt(paths: map<seq<string>, Inode>, names: seq<string>): Option<Inode> {
    if names in paths then Some(paths[names]) else None
  }

  ghost predicate Refines(dbs: seq<Db>, paths: map<seq<string>, Inode>) {
    forall names :: Plain(names) ==> Walk(dbs, ROOT, names) == PathAt(paths, names)
  }

  /** A create adds one path and changes no other, whatever servers it involves. */
  lemma CreateRefines(dbs: seq<Db>, paths: map<seq<string>, Inode>, names: seq<string>, name: string, child: Inode)
    requires Tree(dbs) && Refines(dbs, paths) && Plain(names + [name])
    requires names in paths && names + [name] !in paths
    requires child.server < |dbs| && child.handle !in dbs[child.server].inodes
    requires paths[names].server < |dbs|
    ensures Refines(After(dbs, paths[names], name, child), paths[names + [name] := child])
  {
    var parent := paths[names];
    var path := names + [name];
    assert path[..|path| - 1] == names && Plain(names) && Proper(name) by {
      assert forall k :: 0 <= k < |names| ==> names[k] == path[k];
      assert path[|names|] == name;
    }
    assert Walk(dbs, ROOT, names) == Some(parent) && Walk(dbs, ROOT, path) == None;
    WalkLast(dbs, ROOT, path);
    WalkInTree(dbs, names);
    FreshInode(dbs, child);
    var mid := AddInode(dbs, child);
    assert Unknown(mid, child) by {
      forall at, n | Proper(n) ensures Child(mid, at, n) != Some(child) && Child(mid, child, n) == None {
        SameRows(dbs, child, at, n);
        SameRows(dbs, child, child, n);
      }
    }
    SameRows(dbs, child, parent, name);
    forall q | Plain(q)
      ensures Walk(After(dbs, parent, name, child), ROOT, q) == PathAt(paths[path := child], q)
    {
      SameWalk(dbs, child, ROOT, q);
      WalkAfter(mid, parent, name, child, ROOT, q);
      OnlyThatPath(dbs, paths, names, name, q);
      if q != [] {
        SameWalk(dbs, child, ROOT, q[..|q| - 1]);
      }
    }
  }

  lemma OnlyThatPath(dbs: seq<Db>, paths: map<seq<string>, Inode>, names: seq<string>, name: string, q: seq<string>)
    requires Tree(dbs) && Refines(dbs, paths) && Plain(names) && names in paths && Plain(q)
    ensures q != [] && Walk(dbs, ROOT, q[..|q| - 1]) == Some(paths[names]) && q[|q| - 1] == name <==>
            q == names + [name]
  {
    assert Walk(dbs, ROOT, names) == Some(paths[names]);
    if q != [] && Walk(dbs, ROOT, q[..|q| - 1]) == Some(paths[names]) {
      PathUnique(dbs, q[..|q| - 1], names);
      assert q == q[..|q| - 1] + [q[|q| - 1]];
    }
    if q == names + [name] {
      assert q[..|q| - 1] == names;
    }
  }

  // ---------------------------------------------------------------------------------------------
  // The client's operations

  /** The outcome of hfs_namei; `NullName` is its lookup of the null pointer that `strtok_r` returns when
      there is no further name. */
  datatype Found = Found(inode: Inode) | NotFound | NullName

  /** What hfs_namei finds, for any string at all. */
  function Resolve(dbs: seq<Db>, name: string): Found {
    if name == "/" then Found(ROOT)
    else match Walk(dbs, ROOT, Components(name))
         case None => NotFound
         case Some(x) => if NullAtEnd(name) then NullName else Found(x)
  }

  lemma ResolveOnMap(dbs: seq<Db>, paths: map<seq<string>, Inode>, name: string)
    requires Refines(dbs, paths) && Plain(Components(name)) && (name == "/" || !NullAtEnd(name))
    ensures Resolve(dbs, name) == if Components(name) in paths then Found(paths[Components(name)]) else NotFound
  {
    if name == "/" {
      RootHasNoNames();
    }
    assert Walk(dbs, ROOT, Components(name)) == PathAt(paths, Components(name));
  }

  /** `RequestFailed`: a metadata server refused one of the three requests that make the entry. */
  datatype CreateStatus = Created | BadPath | NoDataHandles | NullParent | RequestFailed

  /** Which of the three requests fails, and is not executed: the inode, its attributes, or the row. */
  datatype Failure = NoFailure | InodeFails | AttributesFail | RowFails

  predicate IsSeparator(c: char) {
    c == '/' || c == '\\'
  }

  predicate DoubledAt(path: string, i: nat)
    requires i + 1 < |path|
  {
    path[i] == '/' && path[i + 1] == '/'
  }

  /** A path as the kernel hands it over: no doubled slash, none at the end, no dots. */
  predicate CleanPath(path: string) {
    && (forall i: nat :: i + 1 < |path| ==> !DoubledAt(path, i))
    && Plain(Components(path))
    && path != [] && path[|path| - 1] != '/'
  }

  predicate LastSeparatorAt(path: string, i: int) {
    -1 <= i < |path| && (i >= 0 ==> IsSeparator(path[i])) && forall k :: i < k < |path| ==> !IsSeparator(path[k])
  }

  /** The last separator of the path, of either kind, is a slash. */
  predicate SlashLast(path: string) {
    exists i :: 0 <= i < |path| && LastSeparatorAt(path, i) && path[i] == '/'
  }

  /** No name holds a backslash. */
  predicate NoBackslash(names: seq<string>) {
    forall k :: 0 <= k < |names| ==> '\\' !in names[k]
  }

  function ParentOf(names: seq<string>): seq<string> {
    if names == [] then [] else names[..|names| - 1]
  }

  /** What hfs_create answers, given the paths there are. A backslash in the new name is taken for the end
      of the directory's path, and no directory has such a name. */
  function CreateOutcome(paths: map<seq<string>, Inode>, path: string, isDir: bool, dataOk: bool,
                         failure: Failure): CreateStatus {
    if |path| <= 1 || !SlashLast(path) then BadPath
    else if ParentOf(Components(path)) !in paths then BadPath
    else if !isDir && !dataOk then NoDataHandles
    else if failure != NoFailure then RequestFailed
    else Created
  }

  /** So of the paths whose parent exists exactly those are created whose own name has no backslash. */
  lemma CreatedExactly(paths: map<seq<string>, Inode>, path: string)
    requires CleanPath(path) && |path| > 1 && '/' in path && ParentOf(Components(path)) in paths
    ensures Components(path) != []
    ensures CreateOutcome(paths, path, true, true, NoFailure) == Created <==>
            '\\' !in Components(path)[|Components(path)| - 1]
  {
    var j := LastSlash(path, |path|);
    hide CleanPath, Components, SlashLast, LastSeparatorAt, ParentOf, Plain;
    CleanEnd(path);
    NoSlashIn(path, j + 1, |path|);
    assert path[j + 1..|path|] == path[j + 1..];
    var (dir, name) := (path[..j + 1], path[j + 1..]);
    assert path == dir + name;
    SplitNames(dir, name);
    SlashLastExactly(path, j);
  }

  lemma CleanEnd(path: string)
    requires CleanPath(path)
    ensures path != [] && path[|path| - 1] != '/' && Plain(Components(path))
  {
  }

  lemma SlashLastExactly(path: string, j: nat)
    requires j < |path| && path[j] == '/' && '/' !in path[j + 1..]
    ensures SlashLast(path) <==> '\\' !in path[j + 1..]
  {
    var name := path[j + 1..];
    if '\\' !in name {
      forall k | j < k < |path|
        ensures !IsSeparator(path[k])
      {
        assert path[k] == name[k - (j + 1)] && name[k - (j + 1)] in name;
      }
      assert LastSeparatorAt(path, j);
    } else {
      var k :| 0 <= k < |name| && name[k] == '\\';
      assert IsSeparator(path[j + 1 + k]);
      forall i | 0 <= i < |path| && LastSeparatorAt(path, i)
        ensures path[i] != '/'
      {
        assert i >= j + 1 + k;
        assert path[i] == name[i - (j + 1)] && name[i - (j + 1)] in name;
      }
    }
  }

  /** Place of the last slash before `end`, or -1. */
  lemma {:induction false} LastSlash(path: string, end: nat) returns (j: int)
    requires end <= |path|
    ensures -1 <= j < end && (j >= 0 ==> path[j] == '/') && forall k :: j < k < end ==> path[k] != '/'
  {
    if end == 0 {
      j := -1;
    } else if path[end - 1] == '/' {
      j := end - 1;
    } else {
      j := LastSlash(path, end - 1);
    }
  }

  lemma NoSlashIn(path: string, from: nat, to: nat)
    requires from <= to <= |path| && forall k :: from <= k < to ==> path[k] != '/'
    ensures '/' !in path[from..to]
  {
    var s := path[from..to];
    forall k | 0 <= k < |s|
      ensures s[k] != '/'
    {
      assert s[k] == path[from + k];
    }
  }

  /** A file `a\b` in the root directory, say, cannot be created. */
  lemma BackslashRefused(paths: map<seq<string>, Inode>)
    requires [] in paths
    ensures CleanPath("/a\\b") && Components("/a\\b") == ["a\\b"] && ParentOf(Components("/a\\b")) in paths
    ensures CreateOutcome(paths, "/a\\b", true, true, NoFailure) == BadPath
  {
    var path := "/a\\b";
    var name := path[1..];
    RootHasNoNames();
    assert path == "/" + name && name == "a\\b";
    ComponentsAppend("/", name);
    assert path[1..] == name && '/' !in name && name[1] == '\\';
    SlashLastExactly(path, 0);
  }

  /** The tables after a create: the handle goes to the inode table of the child's server, the row to the
      namespace table of the parent's, and nothing else changes. */
  predicate EntryAdded(was: seq<Db>, now: seq<Db>, parent: Inode, name: string, child: Inode) {
    && |now| == |was|
    && (forall s :: 0 <= s < |was| ==>
          now[s].inodes == was[s].inodes + if s == child.server then [child.handle] else [])
    && (forall s :: 0 <= s < |was| ==>
          now[s].dirents == was[s].dirents +
                            if s == parent.server then [Dirent(parent.handle, child.handle, child.server, name)]
                               else [])
  }

  lemma AfterAdds(dbs: seq<Db>, parent: Inode, name: string, child: Inode)
    requires parent.server < |dbs| && child.server < |dbs|
    ensures EntryAdded(dbs, After(dbs, parent, name, child), parent, name, child)
  {
  }

  class MdsCluster {
    var dbs: seq<Db>
    ghost var paths: map<seq<string>, Inode>

    ghost predicate Valid()
      reads this
    {
      Tree(dbs) && Refines(dbs, paths) && forall names :: names in paths ==> Plain(names) && NoBackslash(names)
    }

    /** dbFormatMDS on every server. */
    constructor (servers: nat)
      requires servers > 0
      ensures Valid() && |dbs| == servers && paths == map[[] := Inode(0, 0x10)]
      ensures forall s :: 0 <= s < |dbs| ==> dbs[s].inodes == [0x10]
    {
      dbs := seq(servers, i requires 0 <= i < servers => Formatted(i));
      paths := map[[] := ROOT];
      new;
      FormattedTree(dbs);
    }

    /** hfs_namei: name after name, each looked up on the server of the directory found so far. */
    method Namei(name: string) returns (r: Found)
      ensures r == Resolve(dbs, name)
    {
      if |name| == 1 && name[0] == '/' {
        return Found(ROOT);
      }
      var at, prev := ROOT, name;
      while true
        invariant Walk(dbs, ROOT, Components(name)) == Walk(dbs, at, Components(prev))
        invariant NullAtEnd(name) == NullAtEnd(prev)
        decreases |prev|
      {
        var token, rest := StrTok(prev);
        if token.None? {
          return NullName;
        }
        assert Components(prev)[1..] == Components(rest);
        var child := Child(dbs, at, token.value);
        if child.None? {
          return NotFound;
        }
        at, prev := child.value, rest;
        if prev == [] {
          break;
        }
      }
      r := Found(at);
    }

    method LastSeparator(path: string) returns (i: int)
      ensures LastSeparatorAt(path, i)
    {
      i := |path| - 1;
      while i >= 0 && !IsSeparator(path[i])
        invariant -1 <= i < |path|
        invariant forall k :: i < k < |path| ==> !IsSeparator(path[k])
      {
        i := i - 1;
      }
    }

    /** dbAllocMetaDataHandle: one more than the greatest handle of the inode table, and its inode. */
    method AllocMetaDataHandle(server: nat) returns (handle: u32)
      requires Valid() && server < |dbs| && forall h :: h in dbs[server].inodes ==> h < TWO31 - 1
      modifies this`dbs
      ensures handle > 0 && handle - 1 in old(dbs)[server].inodes
      ensures forall h :: h in old(dbs)[server].inodes ==> h < handle
      ensures dbs == AddInode(old(dbs), Inode(server, handle))
    {
      var inodes := dbs[server].inodes;
      var max := inodes[0];
      for i := 1 to |inodes|
        invariant max in inodes && forall k :: 0 <= k < i ==> inodes[k] <= max
      {
        if inodes[i] > max {
          max := inodes[i];
        }
      }
      handle := max + 1;
      dbs := AddInode(dbs, Inode(server, handle));
    }

    /** The tail of hfs_create: an inode on one server, its attributes, then its row on the server of the
        parent. What fails leaves at most an inode that no path leads to. */
    method Insert(parent: Inode, name: string, pick: nat, failure: Failure, ghost names: seq<string>)
      returns (ok: bool, child: Inode)
      requires Valid() && pick < |dbs| && forall h :: h in dbs[pick].inodes ==> h < TWO31 - 1
      requires names in paths && paths[names] == parent && Plain(names + [name]) && names + [name] !in paths
      requires '\\' !in name
      modifies this
      ensures Valid() && (ok <==> failure == NoFailure)
      ensures paths == if ok then old(paths)[names + [name] := child] else old(paths)
      ensures failure == InodeFails ==> dbs == old(dbs)
      ensures failure != InodeFails ==> child !in old(paths).Values && child.server == pick
      ensures !ok && failure != InodeFails ==> dbs == AddInode(old(dbs), child)
      ensures ok ==> EntryAdded(old(dbs), dbs, parent, name, child)
    {
      if failure == InodeFails {
        return false, ROOT;
      }
      ghost var before := dbs;
      var handle := AllocMetaDataHandle(pick);
      child := Inode(pick, handle);
      FreshPath(before, paths, child);
      Unnamed(before, paths, child);
      if failure != NoFailure {
        return false, child;
      }
      assert Plain(names) && Walk(before, ROOT, names) == Some(parent);
      WalkInTree(before, names);
      CreateRefines(before, paths, names, name, child);
      TreeAfter(before, parent, name, child);
      AfterAdds(before, parent, name, child);
      hide Tree, Refines, AddInode, AddRow, Plain, EntryAdded;
      dbs := AddRow(dbs, parent, name, child);
      paths := paths[names + [name] := child];
      ok := true;
    }

    /** hfs_create: `pick` is the random choice of the server for the inode, `dataOk` whether the data
        handles could be allocated. Exactly the new path is added to what resolves, and it leads to an
        inode that no other path leads to; a create that fails changes nothing that resolves. */
    method Create(path: string, isDir: bool, dataOk: bool, pick: nat, failure: Failure)
      returns (status: CreateStatus, child: Inode)
      requires Valid() && pick < |dbs| && forall h :: h in dbs[pick].inodes ==> h < TWO31 - 1
      requires |path| > 1 ==> CleanPath(path) && Components(path) !in paths
      modifies this
      ensures Valid()
      ensures status == CreateOutcome(old(paths), path, isDir, dataOk, failure)
      ensures status == Created <==>
                && |path| > 1 && SlashLast(path) && ParentOf(Components(path)) in old(paths)
                && (isDir || dataOk) && failure == NoFailure
      ensures status == BadPath <==>
                |path| <= 1 || !SlashLast(path) || ParentOf(Components(path)) !in old(paths)
      ensures status == NoDataHandles <==>
                |path| > 1 && SlashLast(path) && ParentOf(Components(path)) in old(paths) && !isDir && !dataOk
      ensures paths == if status == Created then old(paths)[Components(path) := child] else old(paths)
      ensures status == Created ==> child !in old(paths).Values && child.server == pick
      ensures status == Created ==>
                var names := Components(path);
                names != [] && EntryAdded(old(dbs), dbs, old(paths)[ParentOf(names)], names[|names| - 1], child)
      ensures status != Created && (status != RequestFailed || failure == InodeFails) ==> dbs == old(dbs)
      ensures status == RequestFailed && failure != InodeFails ==>
                child !in old(paths).Values && child.server == pick && dbs == AddInode(old(dbs), child)
      ensures |path| > 1 ==> Resolve(dbs, path) == if status == Created then Found(child) else NotFound
      ensures forall q :: CleanPath(q) && Components(q) != Components(path) ==> Resolve(dbs, q) == old(Resolve(dbs, q))
    {
      child := ROOT;
      if |path| - 1 <= 0 {
        return BadPath, child;
      }
      CleanResolves(dbs, paths, path);
      var i := LastSeparator(path);
      LastIsUnique(path, i);
      if i < 0 {
        return BadPath, child;
      }
      var dir, fileName := path[..i + 1], path[i + 1..];
      SplitAtLast(dbs, paths, path, i);
      hide Components, NullAtEnd, CleanPath, Resolve, Tree, Refines, Plain, SlashLast, LastSeparatorAt, NoBackslash,
           EntryAdded;
      var parent := Namei(dir);
      if !parent.Found? {
        return if parent.NotFound? then BadPath else NullParent, child;
      }
      if !isDir && !dataOk {
        return NoDataHandles, child;
      }
      var ok;
      ok, child := Insert(parent.inode, fileName, pick, failure, Components(dir));
      CleanResolves(dbs, paths, path);
      forall q | CleanPath(q)
        ensures Components(q) != Components(path) ==> Resolve(dbs, q) == old(Resolve(dbs, q))
      {
        CleanResolves(dbs, paths, q);
        CleanResolves(old(dbs), old(paths), q);
      }
      status := if ok then Created else RequestFailed;
    }
  }

  /** An inode without a row changes nothing that resolves. */
  lemma Unnamed(dbs: seq<Db>, paths: map<seq<string>, Inode>, child: Inode)
    requires Tree(dbs) && Refines(dbs, paths) && child.server < |dbs|
    ensures Tree(AddInode(dbs, child)) && Refines(AddInode(dbs, child), paths)
  {
    var t := AddInode(dbs, child);
    forall s, d
      ensures RowOk(t, s, d)
    {
      assert RowOk(dbs, s, d);
    }
    forall s, d, u, e
      ensures OneName(t, s, d, u, e)
    {
      assert OneName(dbs, s, d, u, e);
    }
    forall names | Plain(names)
      ensures Walk(t, ROOT, names) == PathAt(paths, names)
    {
      SameWalk(dbs, child, ROOT, names);
    }
  }

  function Formatted(server: nat): Db {
    Db([HFS_ROOT_HANDLE],
       [Dirent(0, HFS_ROOT_HANDLE, server, "/"), Dirent(HFS_ROOT_HANDLE, HFS_ROOT_HANDLE, server, "."),
        Dirent(HFS_ROOT_HANDLE, HFS_ROOT_HANDLE, server, "..")])
  }

  lemma FormattedTree(dbs: seq<Db>)
    requires dbs != [] && forall s :: 0 <= s < |dbs| ==> dbs[s] == Formatted(s)
    ensures Tree(dbs) && Refines(dbs, map[[] := ROOT])
  {
    forall s, d
      ensures !IsRow(dbs, s, d)
    {
    }
    forall names | Plain(names)
      ensures Walk(dbs, ROOT, names) == PathAt(map[[] := ROOT], names)
    {
      if names != [] && Child(dbs, ROOT, names[0]).Some? {
        assert IsRow(dbs, 0, RowOf(dbs, ROOT, names[0]));
      }
    }
  }

  /** An inode that the server has just numbered is on no path. */
  lemma FreshPath(dbs: seq<Db>, paths: map<seq<string>, Inode>, child: Inode)
    requires Tree(dbs) && Refines(dbs, paths) && (forall names :: names in paths ==> Plain(names))
    requires child.server < |dbs| && child.handle !in dbs[child.server].inodes
    ensures child !in paths.Values
  {
    forall names | names in paths
      ensures paths[names] != child
    {
      assert Walk(dbs, ROOT, names) == Some(paths[names]);
      WalkInTree(dbs, names);
    }
  }

  lemma {:induction false} NoNames(s: string)
    requires Components(s) == []
    ensures forall i :: 0 <= i < |s| ==> s[i] == '/'
  {
    if s != [] {
      NoNames(s[1..]);
    }
  }

  predicate EndsDoubled(s: string) {
    |s| >= 2 && s[|s| - 1] == '/' && s[|s| - 2] == '/'
  }

  /** The resolver runs past the last name exactly if there is none at all, or the path ends in two
      slashes. */
  lemma {:induction false} NullAtEndExact(s: string)
    ensures NullAtEnd(s) <==> Components(s) == [] || EndsDoubled(s)
    decreases |s|
  {
    TokenShorter(s);
    if s == [] {
    } else if s[0] == '/' {
      NullAtEndExact(s[1..]);
      hide EndsDoubled;
      LeadingSlash(s);
    } else {
      var k := TokenEnd(s);
      assert Components(s) != [];
      if k < |s| && s[k + 1..] != [] {
        var rest := s[k + 1..];
        NullAtEndExact(rest);
        assert NullAtEnd(s) == NullAtEnd(rest);
        AfterToken(s, k);
      }
    }
  }

  lemma LeadingSlash(s: string)
    requires s != [] && s[0] == '/'
    ensures Components(s) == [] || EndsDoubled(s) <==> Components(s[1..]) == [] || EndsDoubled(s[1..])
  {
    if |s| == 2 {
      OneChar(s[1..]);
    }
  }

  lemma OneChar(s: string)
    requires |s| == 1
    ensures Components(s) == [] <==> s[0] == '/'
  {
    assert s[0] == '/' ==> s[1..] == [];
  }

  lemma AfterToken(s: string, k: nat)
    requires k + 1 < |s| && s[k] == '/'
    ensures EndsDoubled(s) <==> Components(s[k + 1..]) == [] || EndsDoubled(s[k + 1..])
  {
    var rest := s[k + 1..];
    if |rest| == 1 {
      OneChar(rest);
    } else {
      assert rest[|rest| - 1] == s[|s| - 1] && rest[|rest| - 2] == s[|s| - 2];
      if Components(rest) == [] {
        NoNames(rest);
      }
    }
  }

  lemma CleanResolves(dbs: seq<Db>, paths: map<seq<string>, Inode>, path: string)
    requires Refines(dbs, paths) && CleanPath(path)
    ensures Resolve(dbs, path) == if Components(path) in paths then Found(paths[Components(path)]) else NotFound
  {
    if Components(path) == [] {
      NoNames(path);
    }
    NullAtEndExact(path);
    ResolveOnMap(dbs, paths, path);
  }

  /** The last separator of a clean path splits it into its parent's path and its name. */
  lemma SplitPath(path: string, i: nat)
    requires CleanPath(path) && i < |path| && path[i] == '/' && LastSeparatorAt(path, i)
    ensures Components(path) == Components(path[..i + 1]) + [path[i + 1..]]
    ensures path[..i + 1] == "/" ==> Components(path[..i + 1]) == []
    ensures path[..i + 1] != "/" ==> !NullAtEnd(path[..i + 1])
    ensures ParentOf(Components(path)) == Components(path[..i + 1])
    ensures Plain(Components(path[..i + 1])) && Plain(Components(path))
  {
    CleanAt(path, i);
    NameHasNoSlash(path, i);
    hide Components, NullAtEnd, Plain, CleanPath, IsSeparator, DoubledAt;
    var (dir, name) := (path[..i + 1], path[i + 1..]);
    assert path == dir + name;
    assert dir[|dir| - 1] == '/';
    SplitNames(dir, name);
    DirNotNull(path, i);
  }

  lemma LastIsUnique(path: string, i: int)
    requires LastSeparatorAt(path, i)
    ensures SlashLast(path) <==> i >= 0 && path[i] == '/'
  {
    if SlashLast(path) {
      var k :| 0 <= k < |path| && LastSeparatorAt(path, k) && path[k] == '/';
      assert IsSeparator(path[k]) && k == i;
    }
  }

  /** What hfs_create takes for the directory of a clean path resolves to the parent if the last separator
      is a slash and the parent is there, and to nothing otherwise. */
  lemma SplitAtLast(dbs: seq<Db>, paths: map<seq<string>, Inode>, path: string, i: nat)
    requires Refines(dbs, paths) && forall names :: names in paths ==> Plain(names) && NoBackslash(names)
    requires CleanPath(path) && i < |path| && LastSeparatorAt(path, i)
    ensures var parent := ParentOf(Components(path));
            Resolve(dbs, path[..i + 1]) ==
            if path[i] == '/' && parent in paths then Found(paths[parent]) else NotFound
    ensures path[i] == '/' ==>
              && Components(path) == Components(path[..i + 1]) + [path[i + 1..]] && Plain(Components(path))
              && ParentOf(Components(path)) == Components(path[..i + 1]) && '\\' !in path[i + 1..]
  {
    hide Components, NullAtEnd, Plain, Resolve, Refines, CleanPath;
    if path[i] == '/' {
      hide NoBackslash;
      SplitPath(path, i);
      ResolveOnMap(dbs, paths, path[..i + 1]);
      var name := path[i + 1..];
      forall k | 0 <= k < |name|
        ensures name[k] != '\\'
      {
        assert !IsSeparator(path[i + 1 + k]);
      }
    } else {
      SplitAtBackslash(path, i);
      var dir := path[..i + 1];
      var names := Components(dir);
      assert '\\' in names[|names| - 1];
      assert names !in paths;
      ResolveOnMap(dbs, paths, dir);
    }
  }

  /** Up to a backslash, the path ends in a name that holds it. */
  lemma SplitAtBackslash(path: string, i: nat)
    requires CleanPath(path) && i < |path| && path[i] == '\\' && '/' !in path[i + 1..]
    ensures var names := Components(path[..i + 1]);
            Plain(names) && names != [] && '\\' in names[|names| - 1]
    ensures !NullAtEnd(path[..i + 1])
  {
    var (dir, rest) := (path[..i + 1], path[i + 1..]);
    var front, x := Pieces(dir);
    LastIn(x);
    CleanEnd(path);
    hide Components, NullAtEnd, CleanPath, Plain;
    assert path == dir + rest == front + (x + rest);
    OtherName(front, x, x + rest);
    NullAtEndExact(dir);
  }

  /** A path that ends in a backslash, cut after its last slash. */
  lemma Pieces(dir: string) returns (front: string, x: string)
    requires dir != [] && dir[|dir| - 1] == '\\'
    ensures dir == front + x && (front == [] || front[|front| - 1] == '/')
    ensures x != [] && x[|x| - 1] == '\\' && '/' !in x
  {
    var j := LastSlash(dir, |dir| - 1);
    front, x := dir[..j + 1], dir[j + 1..];
    NoSlashIn(dir, j + 1, |dir|);
    assert dir[j + 1..|dir|] == x;
  }

  lemma LastIn(s: string)
    requires s != []
    ensures s[|s| - 1] in s
  {
  }

  lemma OtherName(front: string, x: string, y: string)
    requires x != [] && '/' !in x && '\\' in x && y != [] && '/' !in y && (front == [] || front[|front| - 1] == '/')
    requires Plain(Components(front + y))
    ensures Components(front + x) == Components(front) + [x] && Plain(Components(front + x))
  {
    hide Components;
    ComponentsAppend(front, x);
    ComponentsAppend(front, y);
    assert forall k :: 0 <= k < |Components(front)| ==> Components(front)[k] == Components(front + y)[k];
  }

  lemma NameHasNoSlash(path: string, i: nat)
    requires i < |path| && forall k :: i < k < |path| ==> !IsSeparator(path[k])
    ensures '/' !in path[i + 1..]
  {
    var name := path[i + 1..];
    forall k | 0 <= k < |name|
      ensures name[k] != '/'
    {
      assert name[k] == path[i + 1 + k];
    }
  }

  lemma CleanAt(path: string, i: nat)
    requires CleanPath(path) && i < |path| && path[i] == '/'
    ensures i + 1 < |path| && (i > 0 ==> path[i - 1] != '/') && Plain(Components(path))
  {
    hide Components, Plain;
    if i > 0 {
      assert !DoubledAt(path, i - 1);
    }
  }

  lemma SplitNames(dir: string, name: string)
    requires dir != [] && dir[|dir| - 1] == '/' && name != [] && '/' !in name
    ensures Components(dir + name) == Components(dir) + [name]
    ensures ParentOf(Components(dir + name)) == Components(dir)
    ensures Plain(Components(dir + name)) ==> Plain(Components(dir))
  {
    ComponentsAppend(dir, name);
    hide Components;
    assert forall k :: 0 <= k < |Components(dir)| ==> Components(dir)[k] == Components(dir + name)[k];
  }

  lemma DirNotNull(path: string, i: nat)
    requires i < |path| && path[i] == '/' && (i > 0 ==> path[i - 1] != '/')
    ensures path[..i + 1] == "/" ==> Components(path[..i + 1]) == []
    ensures path[..i + 1] != "/" ==> !NullAtEnd(path[..i + 1])
  {
    var dir := path[..i + 1];
    RootHasNoNames();
    hide Components, NullAtEnd;
    if dir != "/" {
      assert i > 0 && dir[i] == '/' && dir[i - 1] == path[i - 1];
      NullAtEndExact(dir);
      if Components(dir) == [] {
        NoNames(dir);
      }
    }
  }

  lemma RootHasNoNames()
    ensures Components("/") == []
  {
    assert "/"[1..] == [];
  }
}
