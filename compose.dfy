/** The bookkeeping of app/application/logic/compose.go around the compose
    CLI and the compose storage directory: listing, synchronising the
    stored composes with the directory, and assembling the project options
    and generated files of a compose task. The CLI, the filesystem, the
    network, the database and compose-go are parameters. */
module Compose {
  import opened Wrappers
  import opened Strings

  const ComposeTypeText: string := "text"
  const ComposeTypeRemoteUrl: string := "remoteUrl"
  const ComposeTypeServerPath: string := "serverPath"
  const ComposeTypeStoragePath: string := "storagePath"
  const ComposeTypeOutPath: string := "outPath"
  const ComposeStatusWaiting: string := "waiting"
  /** The text of "dpanel-compose-%d" before the number. */
  const ComposeProjectNamePrefix: string := "dpanel-compose-"

  // ---------------------------------------------------------------------
  // Ls

  /** One project of `docker compose ls --format json --all`. */
  datatype ComposeItem = ComposeItem(name: string, status: string, configFiles: string, configFileList: seq<string>)

  /** Compose.Ls: `parsed` is the CLI output decoded as JSON (None when it
      does not decode). Every project gets the list of its comma-separated
      config files; the list joins back to the original text. */
  method Ls(parsed: Option<seq<ComposeItem>>) returns (result: seq<ComposeItem>)
    ensures parsed.None? ==> result == []
    ensures parsed.Some? ==> |result| == |parsed.value|
    ensures parsed.Some? ==> forall k :: 0 <= k < |result| ==>
      result[k] == parsed.value[k].(configFileList := Split(parsed.value[k].configFiles, ','))
    ensures forall k :: 0 <= k < |result| ==>
      && result[k].configFileList != []
      && Join(result[k].configFileList, ",") == result[k].configFiles
    ensures forall k :: 0 <= k < |result| && ',' !in result[k].configFiles ==>
      result[k].configFileList == [result[k].configFiles]
  {
    if parsed.None? {
      return [];
    }
    var items := parsed.value;
    var list := new ComposeItem[|items|](k requires 0 <= k < |items| => items[k]);
    var i := 0;
    while i < list.Length
      invariant 0 <= i <= list.Length == |items|
      invariant forall j :: 0 <= j < i ==> list[j] == items[j].(configFileList := Split(items[j].configFiles, ','))
      invariant forall j :: i <= j < list.Length ==> list[j] == items[j]
    {
      if ',' in list[i].configFiles {
        list[i] := list[i].(configFileList := Split(list[i].configFiles, ','));
      } else {
        list[i] := list[i].(configFileList := [list[i].configFiles]);
      }
      i := i + 1;
    }
    result := list[..];
    forall k | 0 <= k < |result|
      ensures Join(result[k].configFileList, ",") == result[k].configFiles
    {
      JoinSplit(result[k].configFiles, ',');
    }
  }

  // ---------------------------------------------------------------------
  // Sync

  /** A stored compose, as far as Sync reads it. */
  datatype ComposeRow = ComposeRow(name: string, settingType: string)

  /** The row Sync stores for a compose found in the storage directory. */
  datatype NewCompose = NewCompose(title: string, name: string, yaml: string, settingType: string, status: string, uri: string)

  const ComposeFileNames: seq<string> := ["docker-compose.yml", "docker-compose.yaml", "compose.yml", "compose.yaml"]

  predicate IsComposeFile(rel: string) {
    exists k :: 0 <= k < |ComposeFileNames| && HasSuffix(rel, ComposeFileNames[k])
  }

  /** The compose name a walked path (relative to the storage directory)
      stands for: a compose file one directory deep is named after that
      directory. */
  function Counted(rel: string): Option<string> {
    if IsComposeFile(rel) && |Split(rel, '/')| == 2 then Some(Split(rel, '/')[0]) else None
  }

  function Names(rows: seq<ComposeRow>): set<string> {
    set r | r in rows :: r.name
  }

  /** The names of the stored composes of type storagePath, in store order. */
  function StorageNames(rows: seq<ComposeRow>): seq<string> {
    if rows == [] then []
    else
      var last := rows[|rows| - 1];
      StorageNames(rows[..|rows| - 1]) + (if last.settingType == ComposeTypeStoragePath then [last.name] else [])
  }

  /** The names of the compose files found by the walk, in walk order. */
  function FoundNames(walked: seq<string>): seq<string> {
    if walked == [] then []
    else
      FoundNames(walked[..|walked| - 1])
        + (match Counted(walked[|walked| - 1]) case Some(n) => [n] case None => [])
  }

  /** The rows created for found files whose name is not stored yet. */
  function CreatedRows(walked: seq<string>, rows: seq<ComposeRow>): seq<NewCompose> {
    if walked == [] then []
    else
      var rel := walked[|walked| - 1];
      CreatedRows(walked[..|walked| - 1], rows)
        + (match Counted(rel)
           case Some(n) =>
             if n in Names(rows) then []
             else [NewCompose("", n, rel, ComposeTypeStoragePath, ComposeStatusWaiting, rel)]
           case None => [])
  }

  /** The old names that were not found, in their own order. */
  function DeleteList(previous: seq<string>, found: seq<string>): seq<string> {
    if previous == [] then []
    else
      DeleteList(previous[..|previous| - 1], found) + (if previous[|previous| - 1] in found then [] else [previous[|previous| - 1]])
  }

  /** The first loop of Compose.Sync: the storagePath names, in store order. */
  method StorageNamesOf(rows: seq<ComposeRow>) returns (names: seq<string>)
    ensures names == StorageNames(rows)
  {
    names := [];
    for r := 0 to |rows|
      invariant names == StorageNames(rows[..r])
    {
      assert rows[..r + 1][..r] == rows[..r];
      if rows[r].settingType == ComposeTypeStoragePath {
        names := names + [rows[r].name];
      }
    }
    assert rows[..|rows|] == rows;
  }

  /** The suffix test of the walk callback: the first compose file name the
      path ends with decides, and the path counts when it is two segments deep. */
  method MatchComposeFile(path: string) returns (name: Option<string>)
    ensures name == Counted(path)
  {
    name := None;
    var k := 0;
    while k < |ComposeFileNames|
      invariant 0 <= k <= |ComposeFileNames|
      invariant forall j :: 0 <= j < k ==> !HasSuffix(path, ComposeFileNames[j])
    {
      if HasSuffix(path, ComposeFileNames[k]) {
        var segments := Split(path, '/');
        if |segments| == 2 {
          name := Some(segments[0]);
        }
        return;
      }
      k := k + 1;
    }
  }

  /** The early-exit search of the stored rows for a name. */
  method HasName(rows: seq<ComposeRow>, name: string) returns (has: bool)
    ensures has <==> name in Names(rows)
  {
    for m := 0 to |rows|
      invariant forall j :: 0 <= j < m ==> rows[j].name != name
    {
      if rows[m].name == name {
        assert rows[m] in rows;
        return true;
      }
    }
    assert forall x :: x in rows ==> x.name != name;
    return false;
  }

  /** The old names missing from the found names, in order. */
  method DeleteListOf(oldNames: seq<string>, found: seq<string>) returns (deleteList: seq<string>)
    ensures deleteList == DeleteList(oldNames, found)
  {
    deleteList := [];
    for d := 0 to |oldNames|
      invariant deleteList == DeleteList(oldNames[..d], found)
    {
      assert oldNames[..d + 1][..d] == oldNames[..d];
      if oldNames[d] !in found {
        deleteList := deleteList + [oldNames[d]];
      }
    }
    assert oldNames[..|oldNames|] == oldNames;
  }

  /** Compose.Sync over the stored rows and the paths the walk visited,
      relative to the storage directory: the rows it creates and the names
      whose rows it deletes. */
  method Sync(rows: seq<ComposeRow>, walked: seq<string>) returns (created: seq<NewCompose>, deleteList: seq<string>)
    ensures created == CreatedRows(walked, rows)
    ensures deleteList == DeleteList(StorageNames(rows), FoundNames(walked))
  {
    var oldNames := StorageNamesOf(rows);
    var found: seq<string> := [];
    created := [];
    for i := 0 to |walked|
      invariant found == FoundNames(walked[..i])
      invariant created == CreatedRows(walked[..i], rows)
    {
      var path := walked[i];
      assert walked[..i + 1][..i] == walked[..i];
      var counted := MatchComposeFile(path);
      if counted.Some? {
        var name := counted.value;
        found := found + [name];
        var has := HasName(rows, name);
        if !has {
          created := created + [NewCompose("", name, path, ComposeTypeStoragePath, ComposeStatusWaiting, path)];
        }
      }
    }
    assert walked[..|walked|] == walked;
    deleteList := DeleteListOf(oldNames, found);
  }

  /** A counted path is `<name>/<file>` with a compose file name at its end:
      the recorded name is its directory. */
  lemma CountedIsDirectory(rel: string)
    requires Counted(rel).Some?
    ensures IsComposeFile(rel)
    ensures var n := Counted(rel).value;
      exists file :: '/' !in n && '/' !in file && rel == n + "/" + file
  {
    var parts := Split(rel, '/');
    JoinSplit(rel, '/');
    assert parts[1..] == [parts[1]];
    assert rel == parts[0] + "/" + parts[1];
  }

  /** A path one directory deep ending in a compose file name is counted. */
  lemma CountedOfChild(dir: string, file: string)
    requires '/' !in dir && '/' !in file && IsComposeFile(dir + "/" + file)
    ensures Counted(dir + "/" + file) == Some(dir)
  {
    SplitJoin([dir, file], '/');
    assert Join([dir, file], "/") == dir + "/" + file;
  }

  /** The found names are the names of the counted walked paths. */
  lemma {:induction false} FoundNamesSpec(walked: seq<string>, n: string)
    ensures n in FoundNames(walked) <==> exists rel :: rel in walked && Counted(rel) == Some(n)
  {
    if walked != [] {
      var init := walked[..|walked| - 1];
      FoundNamesSpec(init, n);
      assert walked == init + [walked[|walked| - 1]];
      if exists rel :: rel in walked && Counted(rel) == Some(n) {
        var rel :| rel in walked && Counted(rel) == Some(n);
        if rel != walked[|walked| - 1] {
          assert rel in init;
        }
      }
    }
  }

  /** Every created row is a waiting storagePath compose for a counted
      walked path whose name was not stored, stored under that path. */
  lemma {:induction false} CreatedRowsSound(walked: seq<string>, rows: seq<ComposeRow>, c: NewCompose)
    requires c in CreatedRows(walked, rows)
    ensures c.title == "" && c.settingType == ComposeTypeStoragePath && c.status == ComposeStatusWaiting
    ensures c.yaml == c.uri && c.yaml in walked && Counted(c.yaml) == Some(c.name)
    ensures c.name !in Names(rows)
  {
    var init := walked[..|walked| - 1];
    if c in CreatedRows(init, rows) {
      CreatedRowsSound(init, rows, c);
      assert init <= walked;
    }
  }

  /** Every counted walked path whose name was not stored gets its row. */
  lemma {:induction false} CreatedRowsComplete(walked: seq<string>, rows: seq<ComposeRow>, rel: string)
    requires rel in walked && Counted(rel).Some? && Counted(rel).value !in Names(rows)
    ensures NewCompose("", Counted(rel).value, rel, ComposeTypeStoragePath, ComposeStatusWaiting, rel)
            in CreatedRows(walked, rows)
  {
    var init := walked[..|walked| - 1];
    assert walked == init + [walked[|walked| - 1]];
    if rel != walked[|walked| - 1] {
      CreatedRowsComplete(init, rows, rel);
    }
  }

  /** A name is deleted exactly when it is an old name that was not found. */
  lemma {:induction false} DeleteListSpec(previous: seq<string>, found: seq<string>, n: string)
    ensures n in DeleteList(previous, found) <==> n in previous && n !in found
  {
    if previous != [] {
      var init := previous[..|previous| - 1];
      DeleteListSpec(init, found, n);
      assert previous == init + [previous[|previous| - 1]];
    }
  }

  /** The storagePath names are the names of the storagePath rows. */
  lemma {:induction false} StorageNamesSpec(rows: seq<ComposeRow>, n: string)
    ensures n in StorageNames(rows) <==> exists r :: r in rows && r.settingType == ComposeTypeStoragePath && r.name == n
  {
    if rows != [] {
      var init := rows[..|rows| - 1];
      StorageNamesSpec(init, n);
      assert rows == init + [rows[|rows| - 1]];
      if exists r :: r in rows && r.settingType == ComposeTypeStoragePath && r.name == n {
        var r :| r in rows && r.settingType == ComposeTypeStoragePath && r.name == n;
        if r != rows[|rows| - 1] {
          assert r in init;
        }
      }
    }
  }

  /** The stored names after Sync, with the store taken as a set of names:
      every name found on disk is stored, and a storagePath row survives
      exactly when its name was found. */
  lemma SyncStoreAfter(rows: seq<ComposeRow>, walked: seq<string>)
    ensures
      var found := FoundNames(walked);
      var after := (Names(rows) + set c | c in CreatedRows(walked, rows) :: c.name)
                   - set n | n in DeleteList(StorageNames(rows), found);
      && (forall n :: n in found ==> n in after)
      && (forall r :: r in rows && r.settingType == ComposeTypeStoragePath ==> (r.name in after <==> r.name in found))
  {
    var found := FoundNames(walked);
    var stored := StorageNames(rows);
    var after := (Names(rows) + set c | c in CreatedRows(walked, rows) :: c.name)
                 - set n | n in DeleteList(stored, found);
    forall n | n in found
      ensures n in after
    {
      DeleteListSpec(stored, found, n);
      FoundNamesSpec(walked, n);
      var rel :| rel in walked && Counted(rel) == Some(n);
      if n !in Names(rows) {
        CreatedRowsComplete(walked, rows, rel);
      }
    }
    forall r | r in rows && r.settingType == ComposeTypeStoragePath
      ensures r.name in after <==> r.name in found
    {
      StorageNamesSpec(rows, r.name);
      DeleteListSpec(stored, found, r.name);
    }
  }

  /** Two compose files in one directory each create a row with the
      directory's name. */
  lemma SyncCreatesOneRowPerFile(walked: seq<string>, rows: seq<ComposeRow>, a: string, b: string)
    requires a in walked && b in walked && a != b
    requires Counted(a).Some? && Counted(a) == Counted(b) && Counted(a).value !in Names(rows)
    ensures var n := Counted(a).value;
      exists c1, c2 :: c1 in CreatedRows(walked, rows) && c2 in CreatedRows(walked, rows)
                       && c1 != c2 && c1.name == n && c2.name == n
  {
    var n := Counted(a).value;
    CreatedRowsComplete(walked, rows, a);
    CreatedRowsComplete(walked, rows, b);
    var c1 := NewCompose("", n, a, ComposeTypeStoragePath, ComposeStatusWaiting, a);
    var c2 := NewCompose("", n, b, ComposeTypeStoragePath, ComposeStatusWaiting, b);
    assert c1 != c2;
  }

  // ---------------------------------------------------------------------
  // GetTasker

  datatype EnvItem = EnvItem(name: string, value: string)

  /** The part of a compose's settings the task reads; `hasOverride` says
      whether an override setting is present. */
  datatype ComposeSetting = ComposeSetting(settingType: string, uri: string, environment: seq<EnvItem>, hasOverride: bool)

  datatype ComposeEntity = ComposeEntity(id: int, name: string, yaml: string, setting: ComposeSetting)

  /** The compose-go project options the task collects. */
  datatype ProjectOption = WithName(projectName: string) | WithYamlPath(path: string) | WithEnv(lines: seq<string>)

  datatype FileWrite = FileWrite(path: string, content: string)

  /** What compose.NewTasker is given. */
  datatype Task = Task(projectName: string, options: seq<ProjectOption>)

  /** The marker that identifies files dpanel generated, and the header line carrying it. */
  const DpanelMarker: string := "!!!dpanel"
  const DpanelHeader: string := "# " + DpanelMarker + " 此文件由 dpanel 面板生成，请勿修改！ \n"

  /** fmt.Sprintf("dpanel-compose-%d", id) */
  function ProjectName(id: int): string {
    ComposeProjectNamePrefix + IntToDecimal(id)
  }

  /** Different compose ids give different project names. */
  lemma ProjectNameInjective(a: int, b: int)
    requires ProjectName(a) == ProjectName(b)
    ensures a == b
  {
    assert IntToDecimal(a) == ProjectName(a)[|ComposeProjectNamePrefix|..];
    assert IntToDecimal(b) == ProjectName(b)[|ComposeProjectNamePrefix|..];
    IntToDecimalInjective(a, b);
  }

  /** The name option, present only for a stored compose (positive id). */
  function NameOption(id: int): seq<ProjectOption> {
    if id > 0 then [WithName(ProjectName(id))] else []
  }

  /** Where the compose file of a compose lives. */
  function YamlPath(e: ComposeEntity, composeRoot: string): string {
    if e.setting.settingType == ComposeTypeServerPath then e.setting.uri
    else if e.setting.settingType == ComposeTypeStoragePath then JoinPath(composeRoot, e.setting.uri)
    else JoinPath(JoinPath(composeRoot, e.name), "compose.yaml")
  }

  /** A compose that Sync created is loaded from the very file the walk found. */
  lemma SyncedComposeLoadsFoundFile(walked: seq<string>, rows: seq<ComposeRow>, c: NewCompose,
                                    id: int, env: seq<EnvItem>, hasOverride: bool, composeRoot: string)
    requires c in CreatedRows(walked, rows)
    ensures c.yaml in walked
    ensures YamlPath(ComposeEntity(id, c.name, c.yaml, ComposeSetting(c.settingType, c.uri, env, hasOverride)), composeRoot)
         == composeRoot + "/" + c.yaml
  {
    CreatedRowsSound(walked, rows, c);
  }

  /** The header rule: prepend the marker line unless the text already carries the marker. */
  function WithDpanelHeader(text: string): (r: string)
    ensures Contains(r, DpanelMarker)
    ensures Contains(text, DpanelMarker) ==> r == text
  {
    if Contains(text, DpanelMarker) then text
    else
      HeaderCarriesMarker(text);
      DpanelHeader + text
  }

  lemma HeaderCarriesMarker(text: string)
    ensures Contains(DpanelHeader + text, DpanelMarker)
  {
    var s := DpanelHeader + text;
    var rest := DpanelMarker + (" 此文件由 dpanel 面板生成，请勿修改！ \n" + text);
    assert s == "# " + rest;
    assert s[2..] == rest;
    assert rest[..|DpanelMarker|] == DpanelMarker;
    ContainsAt(s, DpanelMarker, 2);
  }

  /** The content written for a text or remoteUrl compose: only remote
      content gets the header. */
  function ComposeFileContent(yaml: string, settingType: string): string {
    if !Contains(yaml, DpanelMarker) && settingType == ComposeTypeRemoteUrl then DpanelHeader + yaml else yaml
  }

  /** The header is added at most once and only to remote content. */
  lemma ComposeFileContentIdempotent(yaml: string, settingType: string)
    ensures settingType != ComposeTypeRemoteUrl ==> ComposeFileContent(yaml, settingType) == yaml
    ensures settingType == ComposeTypeRemoteUrl ==> ComposeFileContent(yaml, settingType) == WithDpanelHeader(yaml)
    ensures ComposeFileContent(ComposeFileContent(yaml, settingType), settingType) == ComposeFileContent(yaml, settingType)
  {
    if settingType == ComposeTypeRemoteUrl && !Contains(yaml, DpanelMarker) {
      HeaderCarriesMarker(yaml);
    }
  }

  /** The same guard on generated override text. */
  lemma WithDpanelHeaderIdempotent(text: string)
    ensures WithDpanelHeader(WithDpanelHeader(text)) == WithDpanelHeader(text)
  {
  }

  /** fmt.Sprintf("%s=%s", name, value) */
  function EnvLine(item: EnvItem): string {
    item.name + "=" + item.value
  }

  function EnvLines(items: seq<EnvItem>): seq<string> {
    seq(|items|, k requires 0 <= k < |items| => EnvLine(items[k]))
  }

  /** The `.env` lines, one per setting, in setting order. */
  method EnvList(items: seq<EnvItem>) returns (lines: seq<string>)
    ensures lines == EnvLines(items)
  {
    lines := [];
    for i := 0 to |items|
      invariant lines == EnvLines(items[..i])
    {
      lines := lines + [items[i].name + "=" + items[i].value];
    }
    assert items[..|items|] == items;
  }

  predicate PlainEnvItem(item: EnvItem) {
    '\n' !in item.name && '\n' !in item.value && '=' !in item.name
  }

  /** A `.env` file read back line by line, each line cut at its first '=',
      gives the settings back when no name or value spans lines and no name
      holds '='. */
  lemma EnvFileParsesBack(items: seq<EnvItem>)
    requires items != []
    requires forall k :: 0 <= k < |items| ==> PlainEnvItem(items[k])
    ensures var lines := Split(Join(EnvLines(items), "\n"), '\n');
      && |lines| == |items|
      && forall k :: 0 <= k < |items| ==>
           '=' in lines[k]
           && lines[k][..IndexOf(lines[k], '=')] == items[k].name
           && lines[k][IndexOf(lines[k], '=') + 1..] == items[k].value
  {
    var lines := EnvLines(items);
    forall k | 0 <= k < |lines|
      ensures '\n' !in lines[k]
    {
      assert lines[k] == items[k].name + "=" + items[k].value;
    }
    SplitJoin(lines, '\n');
    forall k | 0 <= k < |items|
      ensures '=' in lines[k]
      ensures lines[k][..IndexOf(lines[k], '=')] == items[k].name
      ensures lines[k][IndexOf(lines[k], '=') + 1..] == items[k].value
    {
      IndexOfAfterFree(items[k].name, '=', items[k].value);
      assert lines[k] == items[k].name + ['='] + items[k].value;
    }
  }

  /** The override yaml as written: `ports:` and `depends_on:` marked
      `!override`, then the header guard. */
  function OverrideText(marshalled: string): string {
    WithDpanelHeader(
      ReplaceAll(ReplaceAll(marshalled, "ports:", "ports: !override"), "depends_on:", "depends_on: !override"))
  }

  /** After the ports rewrite every `ports:` is a `ports: !override`. */
  lemma PortsAllOverridden(marshalled: string, i: nat)
    requires i <= |ReplaceAll(marshalled, "ports:", "ports: !override")|
    ensures var t := ReplaceAll(marshalled, "ports:", "ports: !override");
      HasPrefix(t[i..], "ports:") ==> HasPrefix(t[i..], "ports: !override")
  {
    var pat: string := "ports:";
    var rep: string := "ports: !override";
    assert rep[..|pat|] == pat;
    assert pat[1..] == "orts:" && rep[1..] == "orts: !override";
    ReplaceAllMarksEveryOccurrence(marshalled, pat, rep, i);
  }

  /** The same is not true of the depends_on rewrite: a `depends_on:` can
      be formed by the tail of an inserted `!override` and the text after it. */
  lemma DependsOnRewriteCanLeaveUnmarked()
    ensures var t := ReplaceAll("depends_on:pends_on:", "depends_on:", "depends_on: !override");
      && |t| == 30
      && HasPrefix(t[19..], "depends_on:")
      && !HasPrefix(t[19..], "depends_on: !override")
  {
    var pat: string := "depends_on:";
    var rep: string := "depends_on: !override";
    var s: string := "depends_on:pends_on:";
    assert s[..|pat|] == pat;
    var tail := s[|pat|..];
    assert tail == "pends_on:";
    ReplaceAllAbsent(tail, pat, rep) by {
      assert !Contains(tail, pat) by { NotContainsShorter(tail, pat); }
    }
    assert ReplaceAll(s, pat, rep) == rep + tail;
  }

  lemma {:induction false} NotContainsShorter(s: string, t: string)
    requires |s| < |t|
    ensures !Contains(s, t)
    decreases |s|
  {
    if |s| > 0 {
      NotContainsShorter(s[1..], t);
    }
  }

  const OverrideFileNames: seq<string> := ["override.yaml", "override.yml"]

  /** The yaml options one globbed path contributes: one per override file
      name it contains. */
  function OptionsFor(path: string, names: seq<string>): seq<ProjectOption> {
    if names == [] then []
    else
      OptionsFor(path, names[..|names| - 1])
        + (if Contains(path, names[|names| - 1]) then [WithYamlPath(path)] else [])
  }

  /** The yaml options contributed by the working directory's files, in glob order. */
  function SiblingOptions(paths: seq<string>): seq<ProjectOption> {
    if paths == [] then []
    else SiblingOptions(paths[..|paths| - 1]) + OptionsFor(paths[|paths| - 1], OverrideFileNames)
  }

  /** The nested loop over the globbed paths and the override file names. */
  method OverrideSiblings(fileList: seq<string>) returns (extra: seq<ProjectOption>)
    ensures extra == SiblingOptions(fileList)
  {
    extra := [];
    for i := 0 to |fileList|
      invariant extra == SiblingOptions(fileList[..i])
    {
      var path := fileList[i];
      assert fileList[..i + 1][..i] == fileList[..i];
      for j := 0 to |OverrideFileNames|
        invariant extra == SiblingOptions(fileList[..i]) + OptionsFor(path, OverrideFileNames[..j])
      {
        assert OverrideFileNames[..j + 1][..j] == OverrideFileNames[..j];
        if Contains(path, OverrideFileNames[j]) {
          extra := extra + [WithYamlPath(path)];
        }
      }
      assert OverrideFileNames[..|OverrideFileNames|] == OverrideFileNames;
    }
    assert fileList[..|fileList|] == fileList;
  }

  lemma {:induction false} OptionsForSpec(path: string, names: seq<string>, o: ProjectOption)
    ensures o in OptionsFor(path, names) <==> o == WithYamlPath(path) && exists k :: 0 <= k < |names| && Contains(path, names[k])
  {
    if names != [] {
      var init := names[..|names| - 1];
      OptionsForSpec(path, init, o);
      if exists k :: 0 <= k < |names| && Contains(path, names[k]) {
        var k :| 0 <= k < |names| && Contains(path, names[k]);
        if k < |names| - 1 {
          assert init[k] == names[k];
        }
      }
    }
  }

  /** A path is added exactly when it was globbed and contains an override
      file name, and only yaml paths are added. */
  lemma {:induction false} SiblingOptionsSpec(paths: seq<string>, o: ProjectOption)
    ensures o in SiblingOptions(paths) <==>
      o.WithYamlPath? && o.path in paths
      && (Contains(o.path, "override.yaml") || Contains(o.path, "override.yml"))
  {
    if paths != [] {
      var init := paths[..|paths| - 1];
      var last := paths[|paths| - 1];
      SiblingOptionsSpec(init, o);
      OptionsForSpec(last, OverrideFileNames, o);
      assert paths == init + [last];
      if o.WithYamlPath? && o.path in paths && o.path != last {
        assert o.path in init;
      }
    }
  }

  /** Globbed paths contribute in glob order. */
  lemma {:induction false} SiblingOptionsAppend(a: seq<string>, b: seq<string>)
    ensures SiblingOptions(a + b) == SiblingOptions(a) + SiblingOptions(b)
    decreases |b|
  {
    if b == [] {
      assert a + b == a;
    } else {
      var init := b[..|b| - 1];
      SiblingOptionsAppend(a, init);
      assert (a + b)[..|a + b| - 1] == a + init;
    }
  }

  /** The yaml file GetTasker writes for a text or remoteUrl compose. */
  function ComposeFileWrite(e: ComposeEntity, composeRoot: string, yaml: string): seq<FileWrite> {
    if e.setting.settingType == ComposeTypeServerPath || e.setting.settingType == ComposeTypeStoragePath then []
    else [FileWrite(YamlPath(e, composeRoot), ComposeFileContent(yaml, e.setting.settingType))]
  }

  function EnvOption(env: seq<EnvItem>): seq<ProjectOption> {
    if env == [] then [] else [WithEnv(EnvLines(env))]
  }

  function EnvFileWrite(env: seq<EnvItem>, workingDir: string): seq<FileWrite> {
    if env == [] then [] else [FileWrite(JoinPath(workingDir, ".env"), Join(EnvLines(env), "\n"))]
  }

  function OverridePath(e: ComposeEntity, composeRoot: string): string {
    JoinPath(JoinPath(composeRoot, e.name), "compose-override.yaml")
  }

  /** The Yaml field after GetTasker's first stage: replaced by the fetched
      text when a remote compose is fetched. */
  function FetchedYaml(entity: ComposeEntity, composeRoot: string,
                       mkdirAll: string -> Status<string>, fetch: string -> Result<string, string>): string
  {
    if entity.setting.settingType == ComposeTypeRemoteUrl
       && mkdirAll(JoinPath(composeRoot, entity.name)).Done? && fetch(entity.yaml).Ok?
    then fetch(entity.yaml).value
    else entity.yaml
  }

  /** Every file in `writes` was written. */
  predicate AllWritten(writes: seq<FileWrite>, writeFile: FileWrite -> Status<string>) {
    forall w :: w in writes ==> writeFile(w).Done?
  }

  /** The error of the first write in `writes` that failed. */
  function FailedWriteError(writes: seq<FileWrite>, writeFile: FileWrite -> Status<string>): string
    requires !AllWritten(writes, writeFile)
    decreases |writes|
  {
    assert writes == [writes[0]] + writes[1..];
    if writeFile(writes[0]).Failed? then writeFile(writes[0]).error
    else FailedWriteError(writes[1..], writeFile)
  }

  /** Whether GetTasker's first stage gets as far as its write: a server or
      storage path compose has nothing to prepare; any other needs its
      directory under the storage root, and a remote one its fetch. */
  predicate ComposeFileReached(entity: ComposeEntity, composeRoot: string,
                               mkdirAll: string -> Status<string>, fetch: string -> Result<string, string>)
  {
    var t := entity.setting.settingType;
    || t == ComposeTypeServerPath
    || t == ComposeTypeStoragePath
    || (mkdirAll(JoinPath(composeRoot, entity.name)).Done?
        && (t == ComposeTypeRemoteUrl ==> fetch(entity.yaml).Ok?))
  }

  /** The error GetTasker's first stage fails with: that of the directory
      call, else that of the fetch, else that of the write. */
  function ComposeFileError(entity: ComposeEntity, composeRoot: string,
                            mkdirAll: string -> Status<string>, fetch: string -> Result<string, string>,
                            writeFile: FileWrite -> Status<string>): string
    requires !(ComposeFileReached(entity, composeRoot, mkdirAll, fetch)
               && AllWritten(ComposeFileWrite(entity, composeRoot, FetchedYaml(entity, composeRoot, mkdirAll, fetch)),
                             writeFile))
  {
    var dir := JoinPath(composeRoot, entity.name);
    if mkdirAll(dir).Failed? then mkdirAll(dir).error
    else if entity.setting.settingType == ComposeTypeRemoteUrl && fetch(entity.yaml).Err? then fetch(entity.yaml).error
    else FailedWriteError(ComposeFileWrite(entity, composeRoot, FetchedYaml(entity, composeRoot, mkdirAll, fetch)),
                          writeFile)
  }

  /** GetTasker's first stage: the compose file's path, and for a text or
      remote compose its directory, its fetch and its write. It fails
      exactly when it stops before its write or the write fails. */
  method PrepareComposeFile(entity: ComposeEntity, composeRoot: string,
                            mkdirAll: string -> Status<string>,
                            fetch: string -> Result<string, string>,
                            writeFile: FileWrite -> Status<string>)
    returns (failure: Option<string>, yamlFilePath: string, yaml: string, writes: seq<FileWrite>)
    ensures yamlFilePath == YamlPath(entity, composeRoot)
    ensures yaml == FetchedYaml(entity, composeRoot, mkdirAll, fetch)
    ensures writes == (if ComposeFileReached(entity, composeRoot, mkdirAll, fetch)
                       then ComposeFileWrite(entity, composeRoot, yaml) else [])
    ensures failure.None? <==>
      ComposeFileReached(entity, composeRoot, mkdirAll, fetch) && AllWritten(writes, writeFile)
    ensures failure.Some? ==> failure.value == ComposeFileError(entity, composeRoot, mkdirAll, fetch, writeFile)
    ensures |writes| <= 1
    ensures writes != [] ==> (failure.None? <==> writeFile(writes[0]).Done?)
    ensures entity.setting.settingType == ComposeTypeRemoteUrl && fetch(entity.yaml).Err? ==> failure.Some? && writes == []
  {
    var settingType := entity.setting.settingType;
    yaml := entity.yaml;
    writes := [];
    failure := None;
    if settingType == ComposeTypeServerPath {
      yamlFilePath := entity.setting.uri;
    } else if settingType == ComposeTypeStoragePath {
      yamlFilePath := JoinPath(composeRoot, entity.setting.uri);
    } else {
      yamlFilePath := JoinPath(JoinPath(composeRoot, entity.name), "compose.yaml");
      var made := mkdirAll(JoinPath(composeRoot, entity.name));
      if made.Failed? {
        return Some(made.error), yamlFilePath, yaml, writes;
      }
      if settingType == ComposeTypeRemoteUrl {
        var fetched := fetch(entity.yaml);
        if fetched.Err? {
          return Some(fetched.error), yamlFilePath, yaml, writes;
        }
        yaml := fetched.value;
      }
      var content := yaml;
      if !Contains(yaml, DpanelMarker) && settingType == ComposeTypeRemoteUrl {
        content := DpanelHeader + content;
      }
      var w := FileWrite(yamlFilePath, content);
      writes := [w];
      var written := writeFile(w);
      if written.Failed? {
        failure := Some(written.error);
      }
    }
  }

  /** GetTasker's `.env` stage. */
  method WriteEnvFile(env: seq<EnvItem>, workingDir: string, writeFile: FileWrite -> Status<string>)
    returns (failure: Option<string>, options: seq<ProjectOption>, writes: seq<FileWrite>)
    ensures writes == EnvFileWrite(env, workingDir)
    ensures failure.None? <==> AllWritten(writes, writeFile)
    ensures failure.Some? ==> failure.value == FailedWriteError(writes, writeFile)
    ensures failure.None? ==> options == EnvOption(env)
  {
    failure := None;
    options := [];
    writes := [];
    if env != [] {
      var envList := EnvList(env);
      var w := FileWrite(JoinPath(workingDir, ".env"), Join(envList, "\n"));
      writes := [w];
      var written := writeFile(w);
      if written.Failed? {
        return Some(written.error), options, writes;
      }
      options := [WithEnv(envList)];
    }
  }

  /** The override options of a compose: its generated override file, or
      the override files found in the working directory. */
  function OverrideOptions(entity: ComposeEntity, composeRoot: string, workingDir: string,
                           glob: string -> Result<seq<string>, string>): seq<ProjectOption>
  {
    if entity.setting.hasOverride then [WithYamlPath(OverridePath(entity, composeRoot))]
    else match glob(JoinPath(workingDir, "*"))
         case Ok(paths) => SiblingOptions(paths)
         case Err(_) => []
  }

  /** Whether GetTasker's override stage gets as far as its write: without
      an override there is nothing to prepare; with one it needs the
      compose's directory and the override project as yaml. */
  predicate OverrideReached(entity: ComposeEntity, composeRoot: string,
                            mkdirAll: string -> Status<string>, marshalOverride: Result<string, string>)
  {
    !entity.setting.hasOverride
    || (mkdirAll(JoinPath(composeRoot, entity.name)).Done? && marshalOverride.Ok?)
  }

  /** The override file GetTasker writes, if any. */
  function OverrideWrite(entity: ComposeEntity, composeRoot: string,
                         marshalOverride: Result<string, string>): seq<FileWrite>
  {
    if entity.setting.hasOverride && marshalOverride.Ok?
    then [FileWrite(OverridePath(entity, composeRoot), OverrideText(marshalOverride.value))]
    else []
  }

  /** The error GetTasker's override stage fails with: that of the
      directory call, else that of the yaml marshal, else that of the write. */
  function OverrideError(entity: ComposeEntity, composeRoot: string,
                         mkdirAll: string -> Status<string>, marshalOverride: Result<string, string>,
                         writeFile: FileWrite -> Status<string>): string
    requires !(OverrideReached(entity, composeRoot, mkdirAll, marshalOverride)
               && AllWritten(OverrideWrite(entity, composeRoot, marshalOverride), writeFile))
  {
    var dir := JoinPath(composeRoot, entity.name);
    if mkdirAll(dir).Failed? then mkdirAll(dir).error
    else if marshalOverride.Err? then marshalOverride.error
    else FailedWriteError(OverrideWrite(entity, composeRoot, marshalOverride), writeFile)
  }

  /** GetTasker's override stage. It fails exactly when it stops before its
      write or the write fails; without an override it never fails. */
  method AddOverride(entity: ComposeEntity, composeRoot: string, workingDir: string,
                     mkdirAll: string -> Status<string>,
                     marshalOverride: Result<string, string>,
                     writeFile: FileWrite -> Status<string>,
                     glob: string -> Result<seq<string>, string>)
    returns (failure: Option<string>, options: seq<ProjectOption>, writes: seq<FileWrite>)
    ensures writes == (if OverrideReached(entity, composeRoot, mkdirAll, marshalOverride)
                       then OverrideWrite(entity, composeRoot, marshalOverride) else [])
    ensures failure.None? <==>
      OverrideReached(entity, composeRoot, mkdirAll, marshalOverride) && AllWritten(writes, writeFile)
    ensures failure.Some? ==> failure.value == OverrideError(entity, composeRoot, mkdirAll, marshalOverride, writeFile)
    ensures !entity.setting.hasOverride ==> failure.None?
    ensures |writes| <= 1
    ensures writes != [] ==> (failure.None? <==> writeFile(writes[0]).Done?)
    ensures failure.None? ==> options == OverrideOptions(entity, composeRoot, workingDir, glob)
    ensures failure.None? && entity.setting.hasOverride ==>
      marshalOverride.Ok? && writes == [FileWrite(OverridePath(entity, composeRoot), OverrideText(marshalOverride.value))]
    ensures failure.None? && !entity.setting.hasOverride ==> writes == []
  {
    failure := None;
    options := [];
    writes := [];
    if entity.setting.hasOverride {
      var overridePath := JoinPath(JoinPath(composeRoot, entity.name), "compose-override.yaml");
      var made := mkdirAll(JoinPath(composeRoot, entity.name));
      if made.Failed? {
        return Some(made.error), options, writes;
      }
      if marshalOverride.Err? {
        return Some(marshalOverride.error), options, writes;
      }
      var overrideYaml := marshalOverride.value;
      overrideYaml := ReplaceAll(overrideYaml, "ports:", "ports: !override");
      overrideYaml := ReplaceAll(overrideYaml, "depends_on:", "depends_on: !override");
      if !Contains(overrideYaml, DpanelMarker) {
        overrideYaml := DpanelHeader + overrideYaml;
      }
      var w := FileWrite(overridePath, overrideYaml);
      writes := [w];
      var written := writeFile(w);
      if written.Failed? {
        return Some(written.error), options, writes;
      }
      options := [WithYamlPath(overridePath)];
    } else {
      var fileList := glob(JoinPath(workingDir, "*"));
      if fileList.Ok? {
        options := OverrideSiblings(fileList.value);
      }
    }
  }

  /** A run of successful writes followed by a stage whose writes all
      succeed but perhaps its last: the writes stop at the first failure. */
  lemma WritesStopAtFailure(done: seq<FileWrite>, stage: seq<FileWrite>, writeFile: FileWrite -> Status<string>)
    requires forall w :: w in done ==> writeFile(w).Done?
    requires forall k :: 0 <= k < |stage| - 1 ==> writeFile(stage[k]).Done?
    ensures forall k :: 0 <= k < |done + stage| - 1 ==> writeFile((done + stage)[k]).Done?
  {
    forall k | 0 <= k < |done + stage| - 1
      ensures writeFile((done + stage)[k]).Done?
    {
      if k < |done| {
        assert (done + stage)[k] == done[k];
      } else {
        assert (done + stage)[k] == stage[k - |done|];
      }
    }
  }

  /** The options every task starts with: its project name, when it has an
      id, and its compose file. */
  function BaseOptions(entity: ComposeEntity, composeRoot: string): seq<ProjectOption> {
    NameOption(entity.id) + [WithYamlPath(YamlPath(entity, composeRoot))]
  }

  /** The options of the final load: the base options, the env option and
      the override options. */
  function AllOptions(entity: ComposeEntity, composeRoot: string, workingDir: string,
                      base: seq<ProjectOption>, glob: string -> Result<seq<string>, string>): seq<ProjectOption>
  {
    base + EnvOption(entity.setting.environment) + OverrideOptions(entity, composeRoot, workingDir, glob)
  }

  /** When GetTasker succeeds after the base load from `workingDir`: the
      `.env` write, the override stage and the final load all succeed. */
  predicate FinishSucceeds(entity: ComposeEntity, composeRoot: string, workingDir: string,
                           base: seq<ProjectOption>,
                           mkdirAll: string -> Status<string>,
                           writeFile: FileWrite -> Status<string>,
                           newCompose: seq<ProjectOption> -> Result<string, string>,
                           marshalOverride: Result<string, string>,
                           glob: string -> Result<seq<string>, string>)
  {
    && AllWritten(EnvFileWrite(entity.setting.environment, workingDir), writeFile)
    && OverrideReached(entity, composeRoot, mkdirAll, marshalOverride)
    && AllWritten(OverrideWrite(entity, composeRoot, marshalOverride), writeFile)
    && newCompose(AllOptions(entity, composeRoot, workingDir, base, glob)).Ok?
  }

  /** The files written after the base load: `.env` when there are
      settings, then the override file only when `.env` was written and the
      override stage reached its write. */
  function FinishWrites(entity: ComposeEntity, composeRoot: string, workingDir: string,
                        mkdirAll: string -> Status<string>,
                        writeFile: FileWrite -> Status<string>,
                        marshalOverride: Result<string, string>): seq<FileWrite>
  {
    var envWrites := EnvFileWrite(entity.setting.environment, workingDir);
    envWrites
      + (if AllWritten(envWrites, writeFile) && OverrideReached(entity, composeRoot, mkdirAll, marshalOverride)
         then OverrideWrite(entity, composeRoot, marshalOverride) else [])
  }

  /** The error after the base load: that of the `.env` write, else that of
      the override stage, else that of the final load. */
  function FinishError(entity: ComposeEntity, composeRoot: string, workingDir: string,
                       base: seq<ProjectOption>,
                       mkdirAll: string -> Status<string>,
                       writeFile: FileWrite -> Status<string>,
                       newCompose: seq<ProjectOption> -> Result<string, string>,
                       marshalOverride: Result<string, string>,
                       glob: string -> Result<seq<string>, string>): string
    requires !FinishSucceeds(entity, composeRoot, workingDir, base, mkdirAll, writeFile, newCompose, marshalOverride, glob)
  {
    var envWrites := EnvFileWrite(entity.setting.environment, workingDir);
    if !AllWritten(envWrites, writeFile) then FailedWriteError(envWrites, writeFile)
    else if !(OverrideReached(entity, composeRoot, mkdirAll, marshalOverride)
              && AllWritten(OverrideWrite(entity, composeRoot, marshalOverride), writeFile))
    then OverrideError(entity, composeRoot, mkdirAll, marshalOverride, writeFile)
    else newCompose(AllOptions(entity, composeRoot, workingDir, base, glob)).error
  }

  /** When GetTasker returns a task: every stage reaches its writes, every
      write succeeds, and compose-go loads both the base project and the
      project with all options. */
  predicate TaskerSucceeds(entity: ComposeEntity, composeRoot: string,
                           mkdirAll: string -> Status<string>,
                           fetch: string -> Result<string, string>,
                           writeFile: FileWrite -> Status<string>,
                           newCompose: seq<ProjectOption> -> Result<string, string>,
                           marshalOverride: Result<string, string>,
                           glob: string -> Result<seq<string>, string>)
  {
    var base := BaseOptions(entity, composeRoot);
    && ComposeFileReached(entity, composeRoot, mkdirAll, fetch)
    && AllWritten(ComposeFileWrite(entity, composeRoot, FetchedYaml(entity, composeRoot, mkdirAll, fetch)), writeFile)
    && newCompose(base).Ok?
    && FinishSucceeds(entity, composeRoot, newCompose(base).value, base,
                      mkdirAll, writeFile, newCompose, marshalOverride, glob)
  }

  /** The files GetTasker writes, in order: the compose file when its stage
      reaches the write; the later files only when that write succeeded and
      the base project loaded. */
  function TaskerWrites(entity: ComposeEntity, composeRoot: string,
                        mkdirAll: string -> Status<string>,
                        fetch: string -> Result<string, string>,
                        writeFile: FileWrite -> Status<string>,
                        newCompose: seq<ProjectOption> -> Result<string, string>,
                        marshalOverride: Result<string, string>): seq<FileWrite>
  {
    var base := BaseOptions(entity, composeRoot);
    var composeWrites := ComposeFileWrite(entity, composeRoot, FetchedYaml(entity, composeRoot, mkdirAll, fetch));
    if !ComposeFileReached(entity, composeRoot, mkdirAll, fetch) then []
    else
      composeWrites
        + (if AllWritten(composeWrites, writeFile) && newCompose(base).Ok?
           then FinishWrites(entity, composeRoot, newCompose(base).value, mkdirAll, writeFile, marshalOverride)
           else [])
  }

  /** Every file GetTasker writes but the last was written: a failed write
      ends the writing. */
  lemma TaskerWritesStopAtFailure(entity: ComposeEntity, composeRoot: string,
                                  mkdirAll: string -> Status<string>,
                                  fetch: string -> Result<string, string>,
                                  writeFile: FileWrite -> Status<string>,
                                  newCompose: seq<ProjectOption> -> Result<string, string>,
                                  marshalOverride: Result<string, string>)
    ensures var writes := TaskerWrites(entity, composeRoot, mkdirAll, fetch, writeFile, newCompose, marshalOverride);
      forall k :: 0 <= k < |writes| - 1 ==> writeFile(writes[k]).Done?
  {
    var base := BaseOptions(entity, composeRoot);
    var composeWrites := ComposeFileWrite(entity, composeRoot, FetchedYaml(entity, composeRoot, mkdirAll, fetch));
    if ComposeFileReached(entity, composeRoot, mkdirAll, fetch) {
      if AllWritten(composeWrites, writeFile) && newCompose(base).Ok? {
        var envWrites := EnvFileWrite(entity.setting.environment, newCompose(base).value);
        var rest := if AllWritten(envWrites, writeFile) && OverrideReached(entity, composeRoot, mkdirAll, marshalOverride)
                    then OverrideWrite(entity, composeRoot, marshalOverride) else [];
        if AllWritten(envWrites, writeFile) {
          WritesStopAtFailure(envWrites, rest, writeFile);
        } else {
          assert rest == [];
          WritesStopAtFailure([], envWrites, writeFile);
          assert [] + envWrites == envWrites + rest;
        }
        WritesStopAtFailure(composeWrites, envWrites + rest, writeFile);
      } else {
        WritesStopAtFailure([], composeWrites, writeFile);
        assert [] + composeWrites == composeWrites + [];
      }
    }
  }

  /** The error GetTasker fails with: that of the first stage, else that of
      the base load, else that of the stages after it. */
  function TaskerError(entity: ComposeEntity, composeRoot: string,
                       mkdirAll: string -> Status<string>,
                       fetch: string -> Result<string, string>,
                       writeFile: FileWrite -> Status<string>,
                       newCompose: seq<ProjectOption> -> Result<string, string>,
                       marshalOverride: Result<string, string>,
                       glob: string -> Result<seq<string>, string>): string
    requires !TaskerSucceeds(entity, composeRoot, mkdirAll, fetch, writeFile, newCompose, marshalOverride, glob)
  {
    var base := BaseOptions(entity, composeRoot);
    if !(ComposeFileReached(entity, composeRoot, mkdirAll, fetch)
         && AllWritten(ComposeFileWrite(entity, composeRoot, FetchedYaml(entity, composeRoot, mkdirAll, fetch)), writeFile))
    then ComposeFileError(entity, composeRoot, mkdirAll, fetch, writeFile)
    else if newCompose(base).Err? then newCompose(base).error
    else FinishError(entity, composeRoot, newCompose(base).value, base,
                     mkdirAll, writeFile, newCompose, marshalOverride, glob)
  }

  /** GetTasker stopped by its first stage: no task, the compose file
      written only if the stage reached its write, and that stage's error. */
  lemma TaskerStopsAtComposeFile(entity: ComposeEntity, composeRoot: string,
                              mkdirAll: string -> Status<string>,
                              fetch: string -> Result<string, string>,
                              writeFile: FileWrite -> Status<string>,
                              newCompose: seq<ProjectOption> -> Result<string, string>,
                              marshalOverride: Result<string, string>,
                              glob: string -> Result<seq<string>, string>)
    requires !(ComposeFileReached(entity, composeRoot, mkdirAll, fetch) && AllWritten(ComposeFileWrite(entity, composeRoot, FetchedYaml(entity, composeRoot, mkdirAll, fetch)), writeFile))
    ensures !TaskerSucceeds(entity, composeRoot, mkdirAll, fetch, writeFile, newCompose, marshalOverride, glob)
    ensures TaskerWrites(entity, composeRoot, mkdirAll, fetch, writeFile, newCompose, marshalOverride)
         == (if ComposeFileReached(entity, composeRoot, mkdirAll, fetch) then ComposeFileWrite(entity, composeRoot, FetchedYaml(entity, composeRoot, mkdirAll, fetch)) else [])
    ensures TaskerError(entity, composeRoot, mkdirAll, fetch, writeFile, newCompose, marshalOverride, glob) == ComposeFileError(entity, composeRoot, mkdirAll, fetch, writeFile)
  {
    assert ComposeFileWrite(entity, composeRoot, FetchedYaml(entity, composeRoot, mkdirAll, fetch)) + [] == ComposeFileWrite(entity, composeRoot, FetchedYaml(entity, composeRoot, mkdirAll, fetch));
  }

  /** GetTasker stopped by the base load: no task, only the compose file
      written, and the load's error. */
  lemma TaskerStopsAtBaseLoad(entity: ComposeEntity, composeRoot: string,
                              mkdirAll: string -> Status<string>,
                              fetch: string -> Result<string, string>,
                              writeFile: FileWrite -> Status<string>,
                              newCompose: seq<ProjectOption> -> Result<string, string>,
                              marshalOverride: Result<string, string>,
                              glob: string -> Result<seq<string>, string>)
    requires ComposeFileReached(entity, composeRoot, mkdirAll, fetch) && AllWritten(ComposeFileWrite(entity, composeRoot, FetchedYaml(entity, composeRoot, mkdirAll, fetch)), writeFile)
    requires newCompose(BaseOptions(entity, composeRoot)).Err?
    ensures !TaskerSucceeds(entity, composeRoot, mkdirAll, fetch, writeFile, newCompose, marshalOverride, glob)
    ensures TaskerWrites(entity, composeRoot, mkdirAll, fetch, writeFile, newCompose, marshalOverride) == ComposeFileWrite(entity, composeRoot, FetchedYaml(entity, composeRoot, mkdirAll, fetch))
    ensures TaskerError(entity, composeRoot, mkdirAll, fetch, writeFile, newCompose, marshalOverride, glob) == newCompose(BaseOptions(entity, composeRoot)).error
  {
    assert ComposeFileWrite(entity, composeRoot, FetchedYaml(entity, composeRoot, mkdirAll, fetch)) + [] == ComposeFileWrite(entity, composeRoot, FetchedYaml(entity, composeRoot, mkdirAll, fetch));
  }

  /** GetTasker past the base load: the rest is decided by the stages after
      it, run from the loaded working directory. */
  lemma TaskerAfterBaseLoad(entity: ComposeEntity, composeRoot: string,
                              mkdirAll: string -> Status<string>,
                              fetch: string -> Result<string, string>,
                              writeFile: FileWrite -> Status<string>,
                              newCompose: seq<ProjectOption> -> Result<string, string>,
                              marshalOverride: Result<string, string>,
                              glob: string -> Result<seq<string>, string>)
    requires ComposeFileReached(entity, composeRoot, mkdirAll, fetch) && AllWritten(ComposeFileWrite(entity, composeRoot, FetchedYaml(entity, composeRoot, mkdirAll, fetch)), writeFile)
    requires newCompose(BaseOptions(entity, composeRoot)).Ok?
    ensures var workingDir := newCompose(BaseOptions(entity, composeRoot)).value;
      && (TaskerSucceeds(entity, composeRoot, mkdirAll, fetch, writeFile, newCompose, marshalOverride, glob)
          <==> FinishSucceeds(entity, composeRoot, workingDir, BaseOptions(entity, composeRoot),
                              mkdirAll, writeFile, newCompose, marshalOverride, glob))
      && TaskerWrites(entity, composeRoot, mkdirAll, fetch, writeFile, newCompose, marshalOverride)
         == ComposeFileWrite(entity, composeRoot, FetchedYaml(entity, composeRoot, mkdirAll, fetch)) + FinishWrites(entity, composeRoot, workingDir, mkdirAll, writeFile, marshalOverride)
      && (!TaskerSucceeds(entity, composeRoot, mkdirAll, fetch, writeFile, newCompose, marshalOverride, glob) ==>
            TaskerError(entity, composeRoot, mkdirAll, fetch, writeFile, newCompose, marshalOverride, glob)
            == FinishError(entity, composeRoot, workingDir, BaseOptions(entity, composeRoot),
                           mkdirAll, writeFile, newCompose, marshalOverride, glob))
  {
  }

  /** GetTasker after compose-go has loaded the base project from
      `workingDir`: the `.env` stage, the override stage and the load with
      all options. It succeeds exactly when each of them does, and then
      answers with all options. */
  method FinishOptions(entity: ComposeEntity, composeRoot: string, workingDir: string,
                       base: seq<ProjectOption>,
                       mkdirAll: string -> Status<string>,
                       writeFile: FileWrite -> Status<string>,
                       newCompose: seq<ProjectOption> -> Result<string, string>,
                       marshalOverride: Result<string, string>,
                       glob: string -> Result<seq<string>, string>)
    returns (r: Result<seq<ProjectOption>, string>, writes: seq<FileWrite>)
    ensures |writes| <= 2
    ensures forall k :: 0 <= k < |writes| - 1 ==> writeFile(writes[k]).Done?
    ensures writes == FinishWrites(entity, composeRoot, workingDir, mkdirAll, writeFile, marshalOverride)
    ensures r.Ok? <==>
      FinishSucceeds(entity, composeRoot, workingDir, base, mkdirAll, writeFile, newCompose, marshalOverride, glob)
    ensures r.Err? ==>
      r.error == FinishError(entity, composeRoot, workingDir, base, mkdirAll, writeFile, newCompose, marshalOverride, glob)
    ensures r.Ok? ==>
      && r.value == base + EnvOption(entity.setting.environment)
                    + OverrideOptions(entity, composeRoot, workingDir, glob)
      && writes == EnvFileWrite(entity.setting.environment, workingDir)
                   + OverrideWrite(entity, composeRoot, marshalOverride)
      && AllWritten(writes, writeFile)
  {
    var envFailure, envOptions, envWrites := WriteEnvFile(entity.setting.environment, workingDir, writeFile);
    writes := envWrites;
    if envFailure.Some? {
      return Err(envFailure.value), writes;
    }
    var overrideFailure, overrideOptions, overrideWrites :=
      AddOverride(entity, composeRoot, workingDir, mkdirAll, marshalOverride, writeFile, glob);
    WritesStopAtFailure(writes, overrideWrites, writeFile);
    writes := writes + overrideWrites;
    if overrideFailure.Some? {
      return Err(overrideFailure.value), writes;
    }
    var options := base + envOptions + overrideOptions;
    assert forall w :: w in writes ==> w in envWrites || w in overrideWrites;
    var reloaded := newCompose(options);
    if reloaded.Err? {
      return Err(reloaded.error), writes;
    }
    r := Ok(options);
  }

  /** Compose.GetTasker. `composeRoot` is the storage directory; `mkdirAll`,
      `writeFile`, `fetch` (http.Get and the body read of a remote url),
      `newCompose` (compose-go loading a project, giving its working
      directory), `marshalOverride` (the override project as yaml) and
      `glob` are the outside world. `yaml` is the compose's Yaml field
      afterwards and `writes` the files written, in order: writing stops at
      the first failed write, and a task is returned only when every write
      succeeded. */
  method GetTasker(entity: ComposeEntity, composeRoot: string,
                   mkdirAll: string -> Status<string>,
                   fetch: string -> Result<string, string>,
                   writeFile: FileWrite -> Status<string>,
                   newCompose: seq<ProjectOption> -> Result<string, string>,
                   marshalOverride: Result<string, string>,
                   glob: string -> Result<seq<string>, string>)
    returns (r: Result<Task, string>, yaml: string, writes: seq<FileWrite>)
    ensures yaml == FetchedYaml(entity, composeRoot, mkdirAll, fetch)
    ensures forall k :: 0 <= k < |writes| - 1 ==> writeFile(writes[k]).Done?
    ensures r.Ok? ==> forall w :: w in writes ==> writeFile(w).Done?
    ensures writes == TaskerWrites(entity, composeRoot, mkdirAll, fetch, writeFile, newCompose, marshalOverride)
    ensures r.Ok? <==>
      TaskerSucceeds(entity, composeRoot, mkdirAll, fetch, writeFile, newCompose, marshalOverride, glob)
    ensures r.Err? ==>
      r.error == TaskerError(entity, composeRoot, mkdirAll, fetch, writeFile, newCompose, marshalOverride, glob)
    ensures entity.setting.settingType == ComposeTypeRemoteUrl && fetch(entity.yaml).Err? ==> r.Err? && writes == []
    ensures r.Ok? ==>
      var base := BaseOptions(entity, composeRoot);
      && newCompose(base).Ok?
      && var workingDir := newCompose(base).value;
      && r.value.projectName == ProjectName(entity.id)
      && r.value.options == base + EnvOption(entity.setting.environment)
                            + OverrideOptions(entity, composeRoot, workingDir, glob)
      && newCompose(r.value.options).Ok?
      && (entity.setting.hasOverride ==> marshalOverride.Ok?)
      && writes == ComposeFileWrite(entity, composeRoot, yaml)
           + EnvFileWrite(entity.setting.environment, workingDir)
           + OverrideWrite(entity, composeRoot, marshalOverride)
  {
    var projectName := ProjectName(entity.id);
    var options: seq<ProjectOption> := [];
    if entity.id > 0 {
      options := options + [WithName(projectName)];
    }
    var failure, yamlFilePath;
    failure, yamlFilePath, yaml, writes := PrepareComposeFile(entity, composeRoot, mkdirAll, fetch, writeFile);
    TaskerWritesStopAtFailure(entity, composeRoot, mkdirAll, fetch, writeFile, newCompose, marshalOverride);
    if failure.Some? {
      TaskerStopsAtComposeFile(entity, composeRoot, mkdirAll, fetch, writeFile, newCompose, marshalOverride, glob);
      return Err(failure.value), yaml, writes;
    }
    ghost var composeWrites := writes;
    options := options + [WithYamlPath(yamlFilePath)];
    assert options == BaseOptions(entity, composeRoot);
    var loaded := newCompose(options);
    if loaded.Err? {
      TaskerStopsAtBaseLoad(entity, composeRoot, mkdirAll, fetch, writeFile, newCompose, marshalOverride, glob);
      return Err(loaded.error), yaml, writes;
    }
    var workingDir := loaded.value;
    TaskerAfterBaseLoad(entity, composeRoot, mkdirAll, fetch, writeFile, newCompose, marshalOverride, glob);
    var finished, finalWrites := FinishOptions(entity, composeRoot, workingDir, options,
                                               mkdirAll, writeFile, newCompose, marshalOverride, glob);
    writes := writes + finalWrites;
    if finished.Err? {
      return Err(finished.error), yaml, writes;
    }
    assert writes == composeWrites
                     + EnvFileWrite(entity.setting.environment, workingDir)
                     + OverrideWrite(entity, composeRoot, marshalOverride);
    assert forall w :: w in writes ==> w in composeWrites || w in finalWrites;
    options := finished.value;
    r := Ok(Task(projectName, options));
  }
}
