/** The container file-explorer handlers of
    app/application/http/controller/explorer.go.

    Each handler is a method. What its collaborators (the Docker client, the
    logic-layer explorer, the host filesystem, the content sniffer) would
    answer is passed in as parameters; each handler returns the response it
    sends and the collaborator calls it made, in order, so that "this call
    is never made" can be stated as a postcondition. */
module Explorer {
  import opened Wrappers
  import opened Strings

  type Byte = b: int | 0 <= b < 256

  /** The errors a handler answers with; each comment gives the text sent. */
  datatype Error =
    | OnlyNamedPaths                // "只可以删除指定的文件或是目录"
    | FileTooLarge                  // "超过1M的文件请通过导入&导出修改文件"
    | ReadFailed                    // "获取文件失败"
    | NotEditable                   // "文件类型不支持在线编辑"
    | NotAbsolute                   // "请指定绝对路径"
    | Collaborator(cause: string)   // passed through from Docker, the logic layer or the filesystem

  /** The collaborator calls a handler can make. */
  datatype Call =
    | ContainerInspect
    | NewExplorer
    | GetListByPath(path: string)
    | ContainerDiff
    | GetPasswd
    | ContainerStatPath(path: string)
    | CopyFromContainer(path: string)
    | MkdirTemp
    | WriteFile(path: string, content: string)
    | CopyToContainer(destPath: string, stagingRoot: string)
    | RemoveAll(path: string)
    | DeleteFileList(paths: seq<string>)
    | Chmod(paths: seq<string>, mode: int, recursive: bool)
    | Chown(paths: seq<string>, owner: string, recursive: bool)

  // ---------------------------------------------------------------------
  // Tar entries and zip headers (Export, GetContent)
  // ---------------------------------------------------------------------

  /** Tar typeflags of the ustar format (IEEE Std 1003.1) and the GNU sparse extension. */
  const TypeReg: char := '0'
  const TypeRegA: char := '\0'
  const TypeDir: char := '5'
  const TypeGNUSparse: char := 'S'

  /** Compression method 8 of the zip format (PKWARE APPNOTE section 4.4.5). */
  const Deflate: int := 8

  /** One entry of a copy-out tar stream; its size is the length of its data. */
  datatype TarEntry = TarEntry(name: string, typeflag: char, modTime: int, data: seq<Byte>)

  /** The header Export writes for a copied entry. */
  datatype ZipHeader = ZipHeader(name: string, compression: int, uncompressedSize: nat, modified: int)

  /** The typeflags Export copies into the zip. */
  predicate Exported(typeflag: char) {
    typeflag == TypeReg || typeflag == TypeRegA || typeflag == TypeDir || typeflag == TypeGNUSparse
  }

  function HeaderFor(e: TarEntry): ZipHeader {
    ZipHeader(e.name, Deflate, |e.data|, e.modTime)
  }

  /** The headers one tar stream contributes: its copied entries, in stream order. */
  function StreamHeaders(entries: seq<TarEntry>): seq<ZipHeader> {
    if entries == [] then []
    else
      var last := entries[|entries| - 1];
      StreamHeaders(entries[..|entries| - 1]) + (if Exported(last.typeflag) then [HeaderFor(last)] else [])
  }

  /** Headers of a concatenated stream are the concatenated headers. */
  lemma {:induction false} StreamHeadersAppend(a: seq<TarEntry>, b: seq<TarEntry>)
    ensures StreamHeaders(a + b) == StreamHeaders(a) + StreamHeaders(b)
    decreases |b|
  {
    if b != [] {
      var init := b[..|b| - 1];
      var last := b[|b| - 1];
      var extra := if Exported(last.typeflag) then [HeaderFor(last)] else [];
      assert (a + b)[..|a + b| - 1] == a + init;
      assert (a + b)[|a + b| - 1] == last;
      assert StreamHeaders(a + b) == StreamHeaders(a + init) + extra;
      assert StreamHeaders(b) == StreamHeaders(init) + extra;
      StreamHeadersAppend(a, init);
    } else {
      assert a + b == a;
    }
  }

  /** Every header of a stream is the Deflate header of one of its entries
      with a copied typeflag, keeping its name, size and modification time. */
  lemma {:induction false} StreamHeadersSound(entries: seq<TarEntry>)
    ensures forall h :: h in StreamHeaders(entries) ==>
      h.compression == Deflate && exists e :: e in entries && Exported(e.typeflag) && h == HeaderFor(e)
    decreases |entries|
  {
    if entries != [] {
      var init := entries[..|entries| - 1];
      StreamHeadersSound(init);
      assert entries == init + [entries[|entries| - 1]];
      assert forall e :: e in init ==> e in entries;
    }
  }

  /** Every entry of a stream with a copied typeflag has its header. */
  lemma {:induction false} StreamHeadersComplete(entries: seq<TarEntry>)
    ensures forall e :: e in entries && Exported(e.typeflag) ==> HeaderFor(e) in StreamHeaders(entries)
    decreases |entries|
  {
    if entries != [] {
      var init := entries[..|entries| - 1];
      StreamHeadersComplete(init);
      assert entries == init + [entries[|entries| - 1]];
    }
  }

  /** The positions of a stream's entries with a copied typeflag. */
  function ExportedPositions(entries: seq<TarEntry>): set<nat> {
    set k: nat | k < |entries| && Exported(entries[k].typeflag)
  }

  /** A stream has exactly as many headers as entries with a copied typeflag. */
  lemma {:induction false} StreamHeadersCount(entries: seq<TarEntry>)
    ensures |StreamHeaders(entries)| == |ExportedPositions(entries)|
    decreases |entries|
  {
    if entries != [] {
      var n := |entries| - 1;
      var init := entries[..n];
      StreamHeadersCount(init);
      var before := ExportedPositions(init);
      var all := ExportedPositions(entries);
      assert forall k: nat :: k < n ==> init[k] == entries[k];
      if Exported(entries[n].typeflag) {
        assert all == before + {n};
        assert n !in before;
      } else {
        assert all == before;
      }
    }
  }

  /** What an export of `paths` produces: the first copy-out error, or all
      streams' headers in path order and, within a path, in stream order. */
  function ExportHeaders(paths: seq<string>, copyOut: string -> Result<seq<TarEntry>, Error>): Result<seq<ZipHeader>, Error> {
    if paths == [] then Ok([])
    else
      match ExportHeaders(paths[..|paths| - 1], copyOut)
      case Err(e) => Err(e)
      case Ok(headers) =>
        match copyOut(paths[|paths| - 1])
        case Err(e) => Err(e)
        case Ok(entries) => Ok(headers + StreamHeaders(entries))
  }

  /** Once a prefix of the paths has failed, the whole export fails the same way. */
  lemma {:induction false} ExportErrorSticks(paths: seq<string>, k: nat, copyOut: string -> Result<seq<TarEntry>, Error>)
    requires k <= |paths| && ExportHeaders(paths[..k], copyOut).Err?
    ensures ExportHeaders(paths, copyOut) == ExportHeaders(paths[..k], copyOut)
    decreases |paths| - k
  {
    if k < |paths| {
      assert paths[..k + 1][..k] == paths[..k];
      ExportErrorSticks(paths, k + 1, copyOut);
    } else {
      assert paths[..k] == paths;
    }
  }

  /** Exporting `a` then `b` in one request gives `a`'s headers followed by
      `b`'s, and fails when either part fails. */
  lemma {:induction false} ExportOrder(a: seq<string>, b: seq<string>, copyOut: string -> Result<seq<TarEntry>, Error>)
    ensures ExportHeaders(a + b, copyOut) ==
      match ExportHeaders(a, copyOut)
      case Err(e) => Err(e)
      case Ok(ha) =>
        match ExportHeaders(b, copyOut)
        case Err(e) => Err(e)
        case Ok(hb) => Ok(ha + hb)
    decreases |b|
  {
    if b == [] {
      assert a + b == a;
      match ExportHeaders(a, copyOut)
      case Err(e) =>
      case Ok(ha) => assert ha + [] == ha;
    } else {
      var init := b[..|b| - 1];
      var last := b[|b| - 1];
      assert (a + b)[..|a + b| - 1] == a + init;
      assert (a + b)[|a + b| - 1] == last;
      ExportOrder(a, init, copyOut);
      match ExportHeaders(a, copyOut)
      case Err(e) =>
      case Ok(ha) =>
        match ExportHeaders(init, copyOut)
        case Err(e) =>
        case Ok(hi) =>
          match copyOut(last)
          case Err(e) =>
          case Ok(entries) =>
            assert ha + hi + StreamHeaders(entries) == ha + (hi + StreamHeaders(entries));
    }
  }

  /** The export succeeds exactly when every path's copy-out succeeds. */
  lemma {:induction false} ExportFailsIffSomeCopyOutFails(paths: seq<string>, copyOut: string -> Result<seq<TarEntry>, Error>)
    ensures ExportHeaders(paths, copyOut).Err? <==> exists p :: p in paths && copyOut(p).Err?
    decreases |paths|
  {
    if paths != [] {
      var init := paths[..|paths| - 1];
      ExportFailsIffSomeCopyOutFails(init, copyOut);
      assert paths == init + [paths[|paths| - 1]];
    }
  }

  /** The zip.Writer an export streams into; only its entry headers are modelled. */
  class ZipWriter {
    var headers: seq<ZipHeader>

    constructor ()
      ensures headers == []
    {
      headers := [];
    }

    /** zip.Writer.CreateHeader: appends one entry. */
    method CreateHeader(h: ZipHeader)
      modifies this
      ensures headers == old(headers) + [h]
    {
      headers := headers + [h];
    }
  }

  /** The copy-out calls for `paths`, in order. */
  function CopyOutCalls(paths: seq<string>): (calls: seq<Call>)
    ensures |calls| == |paths|
    ensures forall k :: 0 <= k < |paths| ==> calls[k] == CopyFromContainer(paths[k])
  {
    if paths == [] then [] else CopyOutCalls(paths[..|paths| - 1]) + [CopyFromContainer(paths[|paths| - 1])]
  }

  /** The tar loop of Export: every entry with a copied typeflag gets its
      header in the zip, in stream order. */
  method CopyStream(zip: ZipWriter, entries: seq<TarEntry>)
    modifies zip
    ensures zip.headers == old(zip.headers) + StreamHeaders(entries)
  {
    var j := 0;
    while j < |entries|
      invariant 0 <= j <= |entries|
      invariant zip.headers == old(zip.headers) + StreamHeaders(entries[..j])
    {
      var file := entries[j];
      assert entries[..j + 1][..j] == entries[..j];
      if Exported(file.typeflag) {
        zip.CreateHeader(HeaderFor(file));
      }
      j := j + 1;
    }
    assert entries[..j] == entries;
  }

  /** Explorer.Export: each path's tar stream, in the order given, is copied
      entry by entry into one zip; only regular, directory and sparse
      entries are copied, each under a Deflate header keeping the tar name,
      size and modification time. A copy-out error aborts the whole export
      after the failing path's request and no zip is returned. */
  method Export(fileList: seq<string>, copyOut: string -> Result<seq<TarEntry>, Error>)
    returns (resp: Result<seq<ZipHeader>, Error>, calls: seq<Call>)
    ensures resp == ExportHeaders(fileList, copyOut)
    ensures resp.Ok? ==> calls == CopyOutCalls(fileList)
    ensures resp.Err? ==> exists k :: (0 <= k < |fileList| &&
      copyOut(fileList[k]) == Err(resp.error) &&
      (forall j :: 0 <= j < k ==> copyOut(fileList[j]).Ok?) &&
      calls == CopyOutCalls(fileList[..k + 1]))
  {
    var zip := new ZipWriter();
    calls := [];
    var i := 0;
    while i < |fileList|
      invariant 0 <= i <= |fileList|
      invariant ExportHeaders(fileList[..i], copyOut) == Ok(zip.headers)
      invariant calls == CopyOutCalls(fileList[..i])
      invariant forall j :: 0 <= j < i ==> copyOut(fileList[j]).Ok?
    {
      var path := fileList[i];
      assert fileList[..i + 1][..i] == fileList[..i];
      calls := calls + [CopyFromContainer(path)];
      assert calls == CopyOutCalls(fileList[..i + 1]);
      var out := copyOut(path);
      if out.Err? {
        resp := Err(out.error);
        assert ExportHeaders(fileList[..i + 1], copyOut) == resp;
        ExportErrorSticks(fileList, i + 1, copyOut);
        assert copyOut(fileList[i]) == Err(resp.error);
        return;
      }
      CopyStream(zip, out.value);
      assert ExportHeaders(fileList[..i + 1], copyOut) == Ok(zip.headers);
      i := i + 1;
    }
    assert fileList[..i] == fileList;
    resp := Ok(zip.headers);
  }

  // ---------------------------------------------------------------------
  // GetContent
  // ---------------------------------------------------------------------

  /** Files of this size or larger are not read for online editing (1 MiB). */
  const ContentSizeLimit: int := 1024 * 1024

  /** The content the read loop is left with: the data of the last regular
      entry named `base`, or nothing when there is none. */
  function LastRegularNamed(entries: seq<TarEntry>, base: string): Option<seq<Byte>> {
    if entries == [] then None
    else
      var last := entries[|entries| - 1];
      if last.typeflag == TypeReg && last.name == base then Some(last.data)
      else LastRegularNamed(entries[..|entries| - 1], base)
  }

  /** The read loop keeps the last regular entry named `base`: it finds
      nothing exactly when there is no such entry, and otherwise the data of
      one that no later such entry follows. */
  lemma {:induction false} LastRegularNamedIsLast(entries: seq<TarEntry>, base: string)
    ensures LastRegularNamed(entries, base).None? <==>
      forall k :: 0 <= k < |entries| ==> !(entries[k].typeflag == TypeReg && entries[k].name == base)
    ensures LastRegularNamed(entries, base).Some? ==> exists k :: (0 <= k < |entries| &&
      entries[k].typeflag == TypeReg && entries[k].name == base &&
      entries[k].data == LastRegularNamed(entries, base).value &&
      forall j :: k < j < |entries| ==> !(entries[j].typeflag == TypeReg && entries[j].name == base))
    decreases |entries|
  {
    if entries != [] {
      var init := entries[..|entries| - 1];
      LastRegularNamedIsLast(init, base);
      var last := entries[|entries| - 1];
      if !(last.typeflag == TypeReg && last.name == base) {
        assert forall k :: 0 <= k < |init| ==> init[k] == entries[k];
      }
    }
  }

  /** Explorer.GetContent: a file whose stat size is at least 1 MiB is
      refused before any copy-out; otherwise the tar stream of the file is
      read, only the last regular entry named after the file's base name is
      kept, a missing entry is an error, and the bytes are returned only
      when the sniffer does not recognise their type. */
  method GetContent(file: string, statSize: int, copyOut: Result<seq<TarEntry>, Error>,
                    isKnownType: seq<Byte> -> bool)
    returns (resp: Result<seq<Byte>, Error>, calls: seq<Call>)
    ensures statSize >= ContentSizeLimit ==>
      resp == Err(FileTooLarge) && calls == [ContainerStatPath(file)]
    ensures statSize < ContentSizeLimit ==>
      calls == [ContainerStatPath(file), CopyFromContainer(file)]
    ensures statSize < ContentSizeLimit && copyOut.Err? ==> resp == Err(copyOut.error)
    ensures statSize < ContentSizeLimit && copyOut.Ok? ==>
      resp == match LastRegularNamed(copyOut.value, Base(file))
              case None => Err(ReadFailed)
              case Some(content) => if isKnownType(content) then Err(NotEditable) else Ok(content)
    ensures resp.Ok? ==> !isKnownType(resp.value) && copyOut.Ok? && exists k :: (0 <= k < |copyOut.value| &&
      copyOut.value[k] == TarEntry(Base(file), TypeReg, copyOut.value[k].modTime, resp.value))
  {
    calls := [ContainerStatPath(file)];
    if statSize >= ContentSizeLimit {
      return Err(FileTooLarge), calls;
    }
    calls := calls + [CopyFromContainer(file)];
    if copyOut.Err? {
      return Err(copyOut.error), calls;
    }
    var entries := copyOut.value;
    var base := Base(file);
    var content: Option<seq<Byte>> := None;
    var i := 0;
    while i < |entries|
      invariant 0 <= i <= |entries|
      invariant content == LastRegularNamed(entries[..i], base)
    {
      var entry := entries[i];
      assert entries[..i + 1][..i] == entries[..i];
      if entry.typeflag == TypeReg && entry.name == base {
        content := Some(entry.data);
      }
      i := i + 1;
    }
    assert entries[..i] == entries;
    if content.None? {
      return Err(ReadFailed), calls;
    }
    if isKnownType(content.value) {
      return Err(NotEditable), calls;
    }
    LastRegularNamedIsLast(entries, base);
    resp := Ok(content.value);
  }

  // ---------------------------------------------------------------------
  // Delete
  // ---------------------------------------------------------------------

  /** A path the delete handler refuses: the root, the working directory, or a wildcard. */
  predicate Dangerous(path: string) {
    path == "/" || path == "./" || path == "." || '*' in path
  }

  /** Explorer.Delete: the whole batch is refused, with no call made, when
      any path is dangerous; otherwise all paths, unchanged, go to one
      DeleteFileList call. */
  method Delete(fileList: seq<string>, newExplorer: Status<Error>, deleteFileList: Status<Error>)
    returns (resp: Status<Error>, calls: seq<Call>)
    ensures (exists p :: p in fileList && Dangerous(p)) ==>
      resp == Failed(OnlyNamedPaths) && calls == []
    ensures (forall p :: p in fileList ==> !Dangerous(p)) ==>
      && calls == [NewExplorer] + (if newExplorer.Done? then [DeleteFileList(fileList)] else [])
      && resp == (if newExplorer.Failed? then newExplorer else deleteFileList)
    ensures DeleteFileList(fileList) in calls <==> newExplorer.Done? && forall p :: p in fileList ==> !Dangerous(p)
  {
    var i := 0;
    while i < |fileList|
      invariant 0 <= i <= |fileList|
      invariant forall k :: 0 <= k < i ==> !Dangerous(fileList[k])
    {
      if Dangerous(fileList[i]) {
        return Failed(OnlyNamedPaths), [];
      }
      i := i + 1;
    }
    calls := [NewExplorer];
    if newExplorer.Failed? {
      return newExplorer, calls;
    }
    calls := calls + [DeleteFileList(fileList)];
    resp := deleteFileList;
  }

  // ---------------------------------------------------------------------
  // GetPathList
  // ---------------------------------------------------------------------

  /** Change value that marks content under a mount point. */
  const ChangeMounted: int := 100

  /** One entry of a directory listing, as the enrichment pass sees it. */
  datatype PathEntry = PathEntry(name: string, owner: string, group: string, change: int)

  /** One record of the container's filesystem diff. */
  datatype FilesystemChange = FilesystemChange(path: string, kind: int)

  /** One mount of the inspected container. */
  datatype MountPoint = MountPoint(source: string, destination: string)

  /** One parsed record of the container's passwd file. */
  datatype PasswdUser = PasswdUser(uid: string, username: string)

  /** The diff kind recorded for `path`; with several records, the last one. */
  function LastChangeKind(changes: seq<FilesystemChange>, path: string): Option<int> {
    if changes == [] then None
    else if changes[|changes| - 1].path == path then Some(changes[|changes| - 1].kind)
    else LastChangeKind(changes[..|changes| - 1], path)
  }

  /** The diff lookup finds a record exactly when one exists for the path,
      and then it is the kind of the last such record. */
  lemma {:induction false} LastChangeKindIsLast(changes: seq<FilesystemChange>, path: string)
    ensures LastChangeKind(changes, path).None? <==> forall k :: 0 <= k < |changes| ==> changes[k].path != path
    ensures LastChangeKind(changes, path).Some? ==> exists k :: (0 <= k < |changes| &&
      changes[k].path == path && changes[k].kind == LastChangeKind(changes, path).value &&
      forall j :: k < j < |changes| ==> changes[j].path != path)
    decreases |changes|
  {
    if changes != [] {
      var init := changes[..|changes| - 1];
      LastChangeKindIsLast(init, path);
      if changes[|changes| - 1].path != path {
        assert forall k :: 0 <= k < |init| ==> init[k] == changes[k];
      }
    }
  }

  /** Whether a name lies under one of the mount destinations (as a string prefix). */
  predicate UnderMount(name: string, mounts: seq<MountPoint>) {
    exists m :: m in mounts && HasPrefix(name, m.destination)
  }

  /** The owner loop: each passwd record whose UID equals the entry's current
      owner rewrites owner and group to its username. */
  function ResolveOwner(owner: string, group: string, users: seq<PasswdUser>): (string, string)
    decreases |users|
  {
    if users == [] then (owner, group)
    else if users[0].uid == owner then ResolveOwner(users[0].username, users[0].username, users[1..])
    else ResolveOwner(owner, group, users[1..])
  }

  /** Without a record for the owner's UID, owner and group are left as they are. */
  lemma {:induction false} ResolveOwnerUnmatched(owner: string, group: string, users: seq<PasswdUser>)
    requires forall u :: u in users ==> u.uid != owner
    ensures ResolveOwner(owner, group, users) == (owner, group)
    decreases |users|
  {
    if users != [] {
      ResolveOwnerUnmatched(owner, group, users[1..]);
    }
  }

  /** After a record for the owner's UID, owner and group are both one username of the file. */
  lemma {:induction false} ResolveOwnerMatched(owner: string, group: string, users: seq<PasswdUser>)
    requires exists u :: u in users && u.uid == owner
    ensures var (o, g) := ResolveOwner(owner, group, users);
      o == g && exists u :: u in users && u.username == o
    decreases |users|
  {
    if users[0].uid == owner {
      ResolveOwnerKeepsUsername(users[0].username, users[1..]);
    } else {
      ResolveOwnerMatched(owner, group, users[1..]);
    }
  }

  /** The first record whose UID equals the owner rewrites owner and group
      to its username, and the loop goes on from there; when no later
      record's UID equals that username, it is the final owner and group. */
  lemma {:induction false} ResolveOwnerFirstMatch(owner: string, group: string, users: seq<PasswdUser>, i: nat)
    requires i < |users| && users[i].uid == owner
    requires forall j :: 0 <= j < i ==> users[j].uid != owner
    ensures ResolveOwner(owner, group, users)
         == ResolveOwner(users[i].username, users[i].username, users[i + 1..])
    ensures (forall j :: i < j < |users| ==> users[j].uid != users[i].username) ==>
      ResolveOwner(owner, group, users) == (users[i].username, users[i].username)
    decreases i
  {
    if i > 0 {
      var tail := users[1..];
      assert users[0].uid != owner;
      assert tail[i - 1] == users[i];
      assert tail[i..] == users[i + 1..];
      forall j | 0 <= j < i - 1
        ensures tail[j].uid != owner
      {
        assert tail[j] == users[j + 1];
      }
      ResolveOwnerFirstMatch(owner, group, tail, i - 1);
    }
    var later := users[i + 1..];
    if forall j :: i < j < |users| ==> users[j].uid != users[i].username {
      forall u | u in later
        ensures u.uid != users[i].username
      {
        var k :| 0 <= k < |later| && later[k] == u;
        assert later[k] == users[i + 1 + k];
      }
      ResolveOwnerUnmatched(users[i].username, users[i].username, users[i + 1..]);
    }
  }

  /** The passwd records root (UID 0) and www-data (UID 33): an entry owned
      by UID 33 is shown as www-data. */
  lemma ResolveOwnerExample()
    ensures ResolveOwner("33", "33", [PasswdUser("0", "root"), PasswdUser("33", "www-data")])
         == ("www-data", "www-data")
  {
    var users := [PasswdUser("0", "root"), PasswdUser("33", "www-data")];
    ResolveOwnerFirstMatch("33", "33", users, 1);
  }

  /** Once owner and group are a username, they stay equal and stay a username of the file. */
  lemma {:induction false} ResolveOwnerKeepsUsername(name: string, users: seq<PasswdUser>)
    ensures var (o, g) := ResolveOwner(name, name, users);
      o == g && (o == name || exists u :: u in users && u.username == o)
    decreases |users|
  {
    if users != [] {
      if users[0].uid == name {
        ResolveOwnerKeepsUsername(users[0].username, users[1..]);
      } else {
        ResolveOwnerKeepsUsername(name, users[1..]);
      }
    }
  }

  /** An entry after the enrichment pass. */
  function Enriched(e: PathEntry, changes: seq<FilesystemChange>, mounts: seq<MountPoint>,
                    users: seq<PasswdUser>): PathEntry
  {
    var stamped := match LastChangeKind(changes, e.name) case Some(k) => k case None => e.change;
    var change := if UnderMount(e.name, mounts) then ChangeMounted else stamped;
    var (owner, group) := ResolveOwner(e.owner, e.group, users);
    e.(change := change, owner := owner, group := group)
  }

  /** What enrichment does to one entry's change status: a mount prefix
      forces 100 whatever the diff says; otherwise the last diff record for
      the exact name decides, and without one the status is kept. The name
      is never changed. */
  lemma EnrichedChangeStatus(e: PathEntry, changes: seq<FilesystemChange>, mounts: seq<MountPoint>,
                             users: seq<PasswdUser>)
    ensures Enriched(e, changes, mounts, users).name == e.name
    ensures UnderMount(e.name, mounts) ==> Enriched(e, changes, mounts, users).change == ChangeMounted
    ensures !UnderMount(e.name, mounts) && (forall k :: 0 <= k < |changes| ==> changes[k].path != e.name) ==>
      Enriched(e, changes, mounts, users).change == e.change
    ensures !UnderMount(e.name, mounts) && (exists k :: 0 <= k < |changes| && changes[k].path == e.name) ==>
      exists k :: 0 <= k < |changes| && changes[k].path == e.name &&
        Enriched(e, changes, mounts, users).change == changes[k].kind &&
        forall j :: k < j < |changes| ==> changes[j].path != e.name
  {
    LastChangeKindIsLast(changes, e.name);
  }

  /** What enrichment does to one entry's owner and group: unchanged without
      a passwd record for the owner's UID; otherwise both set to the same
      username, namely that of the first record whose UID equals the owner
      when no later record's UID equals that username. */
  lemma EnrichedOwnership(e: PathEntry, changes: seq<FilesystemChange>, mounts: seq<MountPoint>,
                          users: seq<PasswdUser>)
    ensures (forall u :: u in users ==> u.uid != e.owner) ==>
      Enriched(e, changes, mounts, users).owner == e.owner &&
      Enriched(e, changes, mounts, users).group == e.group
    ensures (exists u :: u in users && u.uid == e.owner) ==>
      var r := Enriched(e, changes, mounts, users);
      r.owner == r.group && exists u :: u in users && u.username == r.owner
    ensures forall i :: 0 <= i < |users| && users[i].uid == e.owner
                        && (forall j :: 0 <= j < i ==> users[j].uid != e.owner) ==>
      var r := Enriched(e, changes, mounts, users);
      && (r.owner, r.group) == ResolveOwner(users[i].username, users[i].username, users[i + 1..])
      && ((forall j :: i < j < |users| ==> users[j].uid != users[i].username) ==>
            r.owner == users[i].username && r.group == users[i].username)
  {
    if forall u :: u in users ==> u.uid != e.owner {
      ResolveOwnerUnmatched(e.owner, e.group, users);
    } else {
      ResolveOwnerMatched(e.owner, e.group, users);
    }
    forall i | 0 <= i < |users| && users[i].uid == e.owner && (forall j :: 0 <= j < i ==> users[j].uid != e.owner)
      ensures var r := Enriched(e, changes, mounts, users);
        && (r.owner, r.group) == ResolveOwner(users[i].username, users[i].username, users[i + 1..])
        && ((forall j :: i < j < |users| ==> users[j].uid != users[i].username) ==>
              r.owner == users[i].username && r.group == users[i].username)
    {
      ResolveOwnerFirstMatch(e.owner, e.group, users, i);
    }
  }

  /** The loop that fills the path-to-change map from the diff records. */
  method BuildChangeIndex(changes: seq<FilesystemChange>) returns (index: map<string, int>)
    ensures forall path :: path in index <==> LastChangeKind(changes, path).Some?
    ensures forall path :: path in index ==> index[path] == LastChangeKind(changes, path).value
  {
    index := map[];
    var i := 0;
    while i < |changes|
      invariant 0 <= i <= |changes|
      invariant forall path :: path in index <==> LastChangeKind(changes[..i], path).Some?
      invariant forall path :: path in index ==> index[path] == LastChangeKind(changes[..i], path).value
    {
      assert changes[..i + 1][..i] == changes[..i];
      index := index[changes[i].path := changes[i].kind];
      i := i + 1;
    }
    assert changes[..i] == changes;
  }

  /** The in-place enrichment loop over the listing (the entries are shared
      with the caller, so the change writes stick). */
  method EnrichListing(list: array<PathEntry>, index: map<string, int>, ghost changes: seq<FilesystemChange>,
                       mounts: seq<MountPoint>, users: seq<PasswdUser>)
    requires forall path :: path in index <==> LastChangeKind(changes, path).Some?
    requires forall path :: path in index ==> index[path] == LastChangeKind(changes, path).value
    modifies list
    ensures forall k :: 0 <= k < list.Length ==> list[k] == Enriched(old(list[k]), changes, mounts, users)
  {
    var i := 0;
    while i < list.Length
      invariant 0 <= i <= list.Length
      invariant forall k :: 0 <= k < i ==> list[k] == Enriched(old(list[k]), changes, mounts, users)
      invariant forall k :: i <= k < list.Length ==> list[k] == old(list[k])
    {
      var item := list[i];
      ghost var original := item;
      if item.name in index {
        item := item.(change := index[item.name]);
      }
      ghost var stamped := item.change;
      var j := 0;
      while j < |mounts|
        invariant 0 <= j <= |mounts|
        invariant item == original.(change := stamped)
        invariant forall m :: m in mounts[..j] ==> !HasPrefix(item.name, m.destination)
      {
        if HasPrefix(item.name, mounts[j].destination) {
          item := item.(change := ChangeMounted);
          break;
        }
        assert mounts[..j + 1] == mounts[..j] + [mounts[j]];
        j := j + 1;
      }
      assert j == |mounts| ==> mounts[..j] == mounts;
      assert item.change == (if UnderMount(original.name, mounts) then ChangeMounted else stamped);
      assert item == original.(change := item.change);
      j := 0;
      while j < |users|
        invariant 0 <= j <= |users|
        invariant ResolveOwner(item.owner, item.group, users[j..]) == ResolveOwner(original.owner, original.group, users)
        invariant item.name == original.name && item.change == (if UnderMount(original.name, mounts) then ChangeMounted else stamped)
      {
        if users[j].uid == item.owner {
          item := item.(owner := users[j].username, group := users[j].username);
        }
        assert users[j..][1..] == users[j + 1..];
        j := j + 1;
      }
      assert users[j..] == [];
      list[i] := item;
      i := i + 1;
    }
  }

  /** Explorer.GetPathList: the base listing is returned as it is when
      empty, with no diff or passwd lookup; otherwise every entry is
      enriched with the diff kind, the mount override and the passwd owner.
      A diff failure leaves no records; a passwd failure fails the listing. */
  method GetPathList(path: string, inspect: Result<seq<MountPoint>, Error>, newExplorer: Status<Error>,
                     listing: Result<seq<PathEntry>, Error>, diff: seq<FilesystemChange>,
                     passwd: Result<seq<PasswdUser>, Error>)
    returns (resp: Result<seq<PathEntry>, Error>, calls: seq<Call>)
    ensures inspect.Err? ==> resp == Err(inspect.error) && calls == [ContainerInspect]
    ensures inspect.Ok? && newExplorer.Failed? ==>
      resp == Err(newExplorer.error) && calls == [ContainerInspect, NewExplorer]
    ensures inspect.Ok? && newExplorer.Done? && listing.Err? ==>
      resp == Err(listing.error) && calls == [ContainerInspect, NewExplorer, GetListByPath(path)]
    ensures inspect.Ok? && newExplorer.Done? && listing.Ok? && listing.value == [] ==>
      resp == Ok([]) && calls == [ContainerInspect, NewExplorer, GetListByPath(path)]
    ensures inspect.Ok? && newExplorer.Done? && listing.Ok? && listing.value != [] ==>
      && calls == [ContainerInspect, NewExplorer, GetListByPath(path), ContainerDiff, GetPasswd]
      && (passwd.Err? ==> resp == Err(passwd.error))
      && (passwd.Ok? ==> (resp.Ok? && |resp.value| == |listing.value| &&
            forall k :: 0 <= k < |listing.value| ==>
              resp.value[k] == Enriched(listing.value[k], diff, inspect.value, passwd.value)))
    ensures ContainerDiff in calls || GetPasswd in calls ==> listing.Ok? && listing.value != []
  {
    calls := [ContainerInspect];
    if inspect.Err? {
      return Err(inspect.error), calls;
    }
    calls := calls + [NewExplorer];
    if newExplorer.Failed? {
      return Err(newExplorer.error), calls;
    }
    calls := calls + [GetListByPath(path)];
    if listing.Err? {
      return Err(listing.error), calls;
    }
    if listing.value == [] {
      return Ok(listing.value), calls;
    }
    calls := calls + [ContainerDiff];
    var index := BuildChangeIndex(diff);
    calls := calls + [GetPasswd];
    if passwd.Err? {
      return Err(passwd.error), calls;
    }
    var list := new PathEntry[|listing.value|](k requires 0 <= k < |listing.value| => listing.value[k]);
    EnrichListing(list, index, diff, inspect.value, passwd.value);
    resp := Ok(list[..]);
  }

  // ---------------------------------------------------------------------
  // ImportFileContent
  // ---------------------------------------------------------------------

  /** Where the edited content is staged: the temporary directory without
      its trailing '/', followed by the absolute file path. */
  function StagingPath(tempDir: string, file: string): string {
    TrimSuffix(tempDir, "/") + file
  }

  /** The staged file sits inside the staging root at the file's own
      absolute path, so copying the root in at `/` recreates that path. */
  lemma StagingPathMirrorsFile(tempDir: string, file: string)
    requires HasPrefix(file, "/")
    ensures var root := TrimSuffix(tempDir, "/");
      HasPrefix(StagingPath(tempDir, file), root + "/") &&
      StagingPath(tempDir, file)[|root|..] == file
    ensures !HasSuffix(tempDir, "/") ==> StagingPath(tempDir, file) == tempDir + file
  {
    var root := TrimSuffix(tempDir, "/");
    var s := StagingPath(tempDir, file);
    assert s[..|root| + 1] == root + file[..1];
  }

  /** The directory os.MkdirTemp answers with: the empty string when it
      failed, since the handler discards its error. */
  function TempDirOf(mkdirTemp: Result<string, Error>): string {
    if mkdirTemp.Ok? then mkdirTemp.value else ""
  }

  /** Explorer.ImportFileContent as written: both paths must be absolute;
      the content is written to the staging path and the staging root is
      copied in at the destination. A failed os.MkdirTemp is not noticed,
      and the removal of the staging directory is deferred only after the
      write has succeeded. The result is the response and the calls made. */
  function ImportFileContent(file: string, content: string, destPath: string,
                             mkdirTemp: Result<string, Error>,
                             writeFile: Status<Error>, copyIn: Status<Error>): (r: (Status<Error>, seq<Call>))
    ensures !HasPrefix(file, "/") || !HasPrefix(destPath, "/") ==> r == (Failed(NotAbsolute), [])
    ensures HasPrefix(file, "/") && HasPrefix(destPath, "/") ==>
      var tempDir := TempDirOf(mkdirTemp);
      && |r.1| >= 2 && r.1[..2] == [MkdirTemp, WriteFile(StagingPath(tempDir, file), content)]
      && (writeFile.Failed? ==> r == (writeFile, r.1[..2]))
      && (writeFile.Done? ==> r.0 == copyIn && r.1[2..] == [CopyToContainer(destPath, tempDir), RemoveAll(tempDir)])
  {
    var tempDir := TempDirOf(mkdirTemp);
    if !HasPrefix(file, "/") || !HasPrefix(destPath, "/") then (Failed(NotAbsolute), [])
    else if writeFile.Failed? then (writeFile, [MkdirTemp, WriteFile(StagingPath(tempDir, file), content)])
    else (copyIn, [MkdirTemp, WriteFile(StagingPath(tempDir, file), content),
                   CopyToContainer(destPath, tempDir), RemoveAll(tempDir)])
  }

  /** A request whose write fails creates the staging directory and never removes it. */
  lemma ImportFileContentLeaksOnWriteFailure()
    ensures var (resp, calls) := ImportFileContent("/etc/app.conf", "x", "/", Ok("/tmp/dpanel-explorer1"),
                                                   Failed(Collaborator("no space left on device")), Done);
      resp.Failed? && MkdirTemp in calls && RemoveAll("/tmp/dpanel-explorer1") !in calls
  {
  }

  /** When os.MkdirTemp fails, the staging path is the requested path
      itself: the content is written over that file on the host. */
  lemma ImportFileContentWritesHostPathOnMkdirTempFailure(file: string, content: string, destPath: string,
                                                         cause: Error, writeFile: Status<Error>, copyIn: Status<Error>)
    requires HasPrefix(file, "/") && HasPrefix(destPath, "/")
    ensures WriteFile(file, content) in ImportFileContent(file, content, destPath, Err(cause), writeFile, copyIn).1
  {
    var calls := ImportFileContent(file, content, destPath, Err(cause), writeFile, copyIn).1;
    assert TrimSuffix("", "/") == "";
    assert StagingPath("", file) == file;
    assert calls[1] == WriteFile(file, content);
  }

  /** ImportFileContent as intended: a failed os.MkdirTemp is the response
      and nothing is written; once the staging directory exists its removal
      is deferred, so every request that created it removes it as its last
      call. Otherwise the response is that of the handler as written. */
  function ImportFileContentCleaned(file: string, content: string, destPath: string,
                                    mkdirTemp: Result<string, Error>,
                                    writeFile: Status<Error>, copyIn: Status<Error>): (r: (Status<Error>, seq<Call>))
    ensures mkdirTemp.Ok? ==> r.0 == ImportFileContent(file, content, destPath, mkdirTemp, writeFile, copyIn).0
    ensures mkdirTemp.Err? && HasPrefix(file, "/") && HasPrefix(destPath, "/") ==>
      r == (Failed(mkdirTemp.error), [MkdirTemp])
    ensures forall c :: c in r.1 && c.WriteFile? ==>
      mkdirTemp.Ok? && c == WriteFile(StagingPath(mkdirTemp.value, file), content)
    ensures mkdirTemp.Ok? && MkdirTemp in r.1 ==> |r.1| >= 3 && r.1[|r.1| - 1] == RemoveAll(mkdirTemp.value)
    ensures MkdirTemp !in r.1 ==> r == (Failed(NotAbsolute), [])
    ensures mkdirTemp.Ok? && writeFile.Done? && r.0 != Failed(NotAbsolute) ==>
      CopyToContainer(destPath, mkdirTemp.value) in r.1
  {
    if !HasPrefix(file, "/") || !HasPrefix(destPath, "/") then (Failed(NotAbsolute), [])
    else if mkdirTemp.Err? then (Failed(mkdirTemp.error), [MkdirTemp])
    else
      var tempDir := mkdirTemp.value;
      if writeFile.Failed? then
        (writeFile, [MkdirTemp, WriteFile(StagingPath(tempDir, file), content), RemoveAll(tempDir)])
      else (copyIn, [MkdirTemp, WriteFile(StagingPath(tempDir, file), content),
                     CopyToContainer(destPath, tempDir), RemoveAll(tempDir)])
  }

  // ---------------------------------------------------------------------
  // Chmod
  // ---------------------------------------------------------------------

  /** Explorer.Chmod: chmod all paths; only when that succeeded and an
      owner was given, chown them; the first failure is the response. */
  method ChangeMode(fileList: seq<string>, mode: int, hasChildren: bool, owner: string,
                    newExplorer: Status<Error>, chmod: Status<Error>, chown: Status<Error>)
    returns (resp: Status<Error>, calls: seq<Call>)
    ensures calls == [NewExplorer] +
      (if newExplorer.Failed? then []
       else [Chmod(fileList, mode, hasChildren)] +
            (if chmod.Done? && owner != "" then [Chown(fileList, owner, hasChildren)] else []))
    ensures newExplorer.Failed? ==> resp == newExplorer
    ensures newExplorer.Done? && chmod.Failed? ==> resp == chmod
    ensures newExplorer.Done? && chmod.Done? ==> resp == (if owner != "" then chown else Done)
  {
    calls := [NewExplorer];
    if newExplorer.Failed? {
      return newExplorer, calls;
    }
    calls := calls + [Chmod(fileList, mode, hasChildren)];
    if chmod.Failed? {
      return chmod, calls;
    }
    if owner != "" {
      calls := calls + [Chown(fileList, owner, hasChildren)];
      if chown.Failed? {
        return chown, calls;
      }
    }
    resp := Done;
  }
}
