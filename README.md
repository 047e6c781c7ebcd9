# dpanel container explorer and compose bookkeeping in Dafny

This project models three parts of dpanel, a web panel for managing Docker.

- **The container file-explorer handlers** (`app/application/http/controller/explorer.go`):
  - `Export` copies tar entries of chosen paths into one zip.
  - `GetContent` reads a small file for online editing.
  - `Delete` guards a batch deletion.
  - `GetPathList` enriches a directory listing with diff status, mount marks and passwd owners.
  - `ImportFileContent` stages edited content and copies it in.
  - `Chmod` runs chmod, then chown.
- **The compose bookkeeping** (`app/application/logic/compose.go`):
  - `Ls` splits each project's config files.
  - `Sync` matches the compose storage directory against the stored composes.
  - `GetTasker` assembles the project name, yaml paths, generated files and override options of a compose task.
- **`PortItem.Parse`** (`common/accessor/site_env_option.go`) normalises a published port.

Handlers and the compose logic are Dafny methods with loops where the Go code loops. Whatever the Docker client, the logic-layer explorer, the filesystem, the network or compose-go would answer is a parameter. Each explorer handler returns its response and the ordered list of collaborator calls it made. That is how "DeleteFileList is never called" or "no copy-out happens" becomes a postcondition. Each method is specified by a function of its inputs. The lemmas beside that function state what the source promises about it.

Modules:
- `Wrappers`: Option, Result, Status.
- `Strings`: the Go `strings`, `bytes`, `fmt "%d"` and `path/filepath` pieces used, with their lemmas.
- `Explorer`, `Compose`, `Accessor`: the three parts above.

The `GetPathList` listing is an array of entries updated in place. The owner loop compares each passwd record with the entry's *current* owner. After a rewrite, a later record whose UID equals the new username matches again.

## Model

| member | source | states |
|---|---|---|
| Explorer.Export | app/application/http/controller/explorer.go:45-70 | The zip headers are the export function of the path list: path order, then tar order. Only the copy-out calls for the paths are made. A copy-out error is the response after the calls up to the failing path, and all earlier paths succeeded. |
| Explorer.ZipWriter.constructor | app/application/http/controller/explorer.go:42 | A new zip writer has no entries. |
| Explorer.CopyStream | app/application/http/controller/explorer.go:51-68 | The tar loop appends, in stream order, the headers of exactly the entries with a copied typeflag, and nothing else. |
| Explorer.ZipWriter.CreateHeader | app/application/http/controller/explorer.go:59-65 | Creating a header appends exactly that entry. |
| Explorer.StreamHeadersSound | app/application/http/controller/explorer.go:57-65 | Every header of a tar stream is a Deflate header with the name, size and mtime of one of its Reg/RegA/Dir/GNUSparse entries. |
| Explorer.StreamHeadersComplete | app/application/http/controller/explorer.go:57-65 | Every Reg/RegA/Dir/GNUSparse entry of a stream has its header. |
| Explorer.StreamHeadersCount | app/application/http/controller/explorer.go:52-67 | A stream has exactly as many headers as entries with those typeflags: other typeflags are skipped and none is copied twice. |
| Explorer.StreamHeadersAppend | app/application/http/controller/explorer.go:52-67 | The headers of concatenated streams are the concatenated headers (stream order is kept). |
| Explorer.ExportOrder | app/application/http/controller/explorer.go:45-70 | Exporting `a ++ b` gives `a`'s headers, then `b`'s. It fails when either part fails. |
| Explorer.ExportErrorSticks | app/application/http/controller/explorer.go:46-50 | Once a prefix of the paths has failed, the whole export fails with that error. |
| Explorer.ExportFailsIffSomeCopyOutFails | app/application/http/controller/explorer.go:46-50 | An export fails exactly when the copy-out of some listed path fails. |
| Explorer.CopyOutCalls | app/application/http/controller/explorer.go:46 | One CopyFromContainer call per path, in path order. |
| Explorer.GetContent | app/application/http/controller/explorer.go:314-354 | A stat size of at least 1048576 fails with the size error after the stat alone, with no copy-out. Otherwise: the last Reg entry named after the file's base name supplies the content; no such entry fails with "获取文件失败"; a recognised type fails with "文件类型不支持在线编辑". Content is returned only when unrecognised, and it is the data of such an entry. |
| Explorer.LastRegularNamedIsLast | app/application/http/controller/explorer.go:326-339 | The read loop finds nothing exactly when no Reg entry has the base name. Otherwise it keeps the data of such an entry that no later such entry follows. |
| Explorer.Delete | app/application/http/controller/explorer.go:212-232 | A batch holding "/", "./", "." or a path with "*" is refused with "只可以删除指定的文件或是目录" and no call at all. Otherwise the explorer is created and all paths, unchanged, go to one DeleteFileList call. DeleteFileList is called if and only if the batch is safe and the explorer was created. |
| Explorer.GetPathList | app/application/http/controller/explorer.go:244-302 | Inspect, explorer and listing errors are returned, each right after the failing call, with no further call. An empty listing is returned as is, with no diff or passwd call. Otherwise diff and passwd are fetched, a passwd error is fatal, and every entry becomes its enriched form, in listing order. Diff and passwd are called only for a non-empty listing. |
| Explorer.BuildChangeIndex | app/application/http/controller/explorer.go:265-271 | The path→kind map has a key exactly for the diffed paths. Each key maps to the kind of the last record for that path. |
| Explorer.LastChangeKindIsLast | app/application/http/controller/explorer.go:268-270 | The diff lookup finds a record exactly when one exists for the path, and then it is the kind of the last such record. |
| Explorer.EnrichListing | app/application/http/controller/explorer.go:278-298 | In place, every listing entry becomes its enriched form, and nothing else changes. |
| Explorer.EnrichedChangeStatus | app/application/http/controller/explorer.go:279-291 | A mount destination prefixing the name forces change 100, whatever the diff says. Otherwise the last diff record for the exact name decides. With no record the status is kept. The name never changes. |
| Explorer.EnrichedOwnership | app/application/http/controller/explorer.go:292-297 | With no passwd UID equal to the owner, owner and group are unchanged. After a match both equal one username from the passwd records. That is the username of the first record whose UID equals the owner, unless a later record's UID equals that username, in which case the loop goes on from there. |
| Explorer.ResolveOwnerUnmatched | app/application/http/controller/explorer.go:292-297 | The owner loop changes nothing when no UID matches. |
| Explorer.ResolveOwnerMatched | app/application/http/controller/explorer.go:293-296 | After a matching UID, owner and group are equal and are a username of the file. |
| Explorer.ResolveOwnerFirstMatch | app/application/http/controller/explorer.go:292-297 | The first record whose UID equals the owner sets owner and group to its username, and the rest of the loop starts from there. With no later record whose UID equals that username, that username is the result. |
| Explorer.ResolveOwnerExample | app/application/http/controller/explorer.go:292-297 | With the records root (UID 0) and www-data (UID 33), an entry owned by UID 33 is shown as www-data:www-data. |
| Explorer.ResolveOwnerKeepsUsername | app/application/http/controller/explorer.go:293-296 | Once owner and group are a username, later records keep them equal and a username. |
| Explorer.StagingPathMirrorsFile | app/application/http/controller/explorer.go:97-98 | The staging path is the temp dir without its trailing "/", followed by the absolute file path. The file sits under the staging root at its own path. |
| Explorer.ImportFileContent | app/application/http/controller/explorer.go:93-119 | A request is refused with "请指定绝对路径" and no calls unless both paths start with "/". Otherwise the content is written to the staging path, built from the temp directory, which is "" when os.MkdirTemp failed. A failed write is the response. After a successful write, the staging root is copied in at the destination and then removed. |
| Explorer.ImportFileContentLeaksOnWriteFailure | app/application/http/controller/explorer.go:102-107 | A request whose write fails creates the staging directory and never removes it. |
| Explorer.ImportFileContentWritesHostPathOnMkdirTempFailure | app/application/http/controller/explorer.go:97-102 | When os.MkdirTemp fails, the content is written to the requested absolute path itself. |
| Explorer.ImportFileContentCleaned | app/application/http/controller/explorer.go:97-119 | A failed os.MkdirTemp is the response, after that call alone, so nothing is written. Every write goes to the staging path inside the created directory. Once created, the directory is removed as the last call. Otherwise the response is that of ImportFileContent. |
| Explorer.ChangeMode | app/application/http/controller/explorer.go:369-388 | The calls are exactly: NewExplorer; then, if it succeeded, Chmod of all paths; then Chown of all paths, only if Chmod succeeded and an owner was given. The first failure is the response, and otherwise success. |
| Compose.Ls | app/application/logic/compose.go:54-68 | Unparsable CLI output gives an empty list. Otherwise each project keeps its fields and gets the comma split of its config files. The list is non-empty and joins back with "," to the original text. Without a comma it is the single original string. |
| Compose.Sync | app/application/logic/compose.go:76-138 | The created rows and the delete list are those of the specification functions over the stored rows and the walked paths. |
| Compose.StorageNamesOf | app/application/logic/compose.go:77-82 | The old names are the storagePath rows' names, in store order. |
| Compose.MatchComposeFile | app/application/logic/compose.go:92-123 | The callback's first matching suffix decides. The path counts, with its directory as name, exactly when it is two segments deep. |
| Compose.HasName | app/application/logic/compose.go:100-106 | The search answers whether the name is among the stored composes' names. |
| Compose.DeleteListOf | app/application/logic/compose.go:127-132 | The delete list is the old names not found, in order. |
| Compose.CountedIsDirectory | app/application/logic/compose.go:84-97 | A counted path ends in a compose file name and is `<name>/<file>` with neither part holding "/". |
| Compose.CountedOfChild | app/application/logic/compose.go:92-97 | Every `<dir>/<file>` one level deep ending in one of the four compose file names is counted under `<dir>`. |
| Compose.FoundNamesSpec | app/application/logic/compose.go:91-98 | A name is found exactly when some walked path is counted under it. |
| Compose.CreatedRowsSound | app/application/logic/compose.go:100-119 | Every created row has an empty title, type storagePath and status waiting. Its yaml and uri are a walked, counted path of that name. Its name was not stored. |
| Compose.CreatedRowsComplete | app/application/logic/compose.go:100-119 | Every counted walked path whose name was not stored gets exactly that row. |
| Compose.DeleteListSpec | app/application/logic/compose.go:127-132 | A name is deleted if and only if it is an old storagePath name and was not found. So the list is a subset of the old names and disjoint from the found names. |
| Compose.StorageNamesSpec | app/application/logic/compose.go:77-82 | A name is an old name if and only if some stored row of type storagePath has it. |
| Compose.SyncStoreAfter | app/application/logic/compose.go:76-138 | With the store as a set of names, after Sync every found name is stored. A storagePath compose survives exactly when its name was found. |
| Compose.SyncCreatesOneRowPerFile | app/application/logic/compose.go:91-119 | Two compose files in one unstored directory each create a row with the directory's name. |
| Compose.ProjectNameInjective | app/application/logic/compose.go:143 | "dpanel-compose-%d" gives different project names to different ids. |
| Compose.SyncedComposeLoadsFoundFile | app/application/logic/compose.go:109-155 | A compose created by Sync is loaded from the file the walk found: storage root joined with its relative path. |
| Compose.WithDpanelHeader | app/application/logic/compose.go:222-224 | The guarded text always carries the "!!!dpanel" marker. Text already carrying it is unchanged. |
| Compose.ComposeFileContentIdempotent | app/application/logic/compose.go:176-179 | Only remoteUrl content gets the header, and only when it lacks the marker. Applying the rule twice equals applying it once. |
| Compose.WithDpanelHeaderIdempotent | app/application/logic/compose.go:222-224 | The override header guard applied twice equals applying it once. |
| Compose.EnvList | app/application/logic/compose.go:194-197 | One `name=value` line per environment setting, in setting order. |
| Compose.EnvFileParsesBack | app/application/logic/compose.go:194-198 | The `.env` text, split at "\n" and each line cut at its first "=", gives back every setting's name and value in order. This needs names and values without newlines and names without "=". |
| Compose.PortsAllOverridden | app/application/logic/compose.go:219 | After the ports rewrite, every occurrence of `ports:` is a `ports: !override`. |
| Compose.DependsOnRewriteCanLeaveUnmarked | app/application/logic/compose.go:220 | The depends_on rewrite does not have that property. On `depends_on:pends_on:` the output holds a `depends_on:` without `!override`. |
| Compose.OverrideSiblings | app/application/logic/compose.go:233-245 | The nested loop appends the yaml options of the sibling specification, once per override file name each path contains. |
| Compose.OptionsForSpec | app/application/logic/compose.go:239-244 | A path contributes a yaml option for itself if and only if it contains one of the names. |
| Compose.SiblingOptionsSpec | app/application/logic/compose.go:236-246 | Added options are yaml paths. A path is added if and only if it was globbed and contains "override.yaml" or "override.yml". |
| Compose.SiblingOptionsAppend | app/application/logic/compose.go:238-245 | Globbed paths contribute in glob order. |
| Compose.PrepareComposeFile | app/application/logic/compose.go:151-184 | The yaml path is Uri for serverPath, root/Uri for storagePath, and root/Name/compose.yaml otherwise. Only the last kind asks for the directory root/Name, fetches remote content into Yaml and writes the file, with the header rule. It writes exactly when the directory call (and for remoteUrl the fetch) succeeded. It fails if and only if one of those failed or the write failed. The error is that of the first failing call. |
| Compose.WriteEnvFile | app/application/logic/compose.go:192-203 | Non-empty settings write `<working dir>/.env` with the joined lines. On success they add the env option. A failed write fails the stage with the write's error. |
| Compose.AddOverride | app/application/logic/compose.go:207-247 | With an override setting: compose-override.yaml is written with the rewritten, header-guarded text and its path is added. The write happens exactly when the directory call and the yaml marshal succeeded. The stage fails if and only if one of those or the write failed, with the first failing call's error. Without one: the stage never fails, writes nothing, and adds the sibling override files of the working directory, or nothing on a glob error. |
| Compose.FinishOptions | app/application/logic/compose.go:191-252 | After the base load, it succeeds if and only if the .env write, the override preparation and write, and the final load all succeed. Then it answers the base options, the env option and the override options. On every path, .env is written when there are settings, and the override file only when .env was written and the override's directory call and marshal succeeded. A failure answers the first failing call's error. |
| Compose.GetTasker | app/application/logic/compose.go:142-255 | A task is returned if and only if every stage succeeds: the directory call (except for serverPath and storagePath), the remote fetch, every write, both compose loads, and, with an override, its directory call and yaml marshal. On success the task has project name dpanel-compose-ID. Its options are the name option (only for ID > 0), the yaml path, the env option and the override options, in that order. Both compose loads succeeded. The written files are the compose file, .env and the override file, each when applicable. Writes stop at the first failure, and a task is returned only when every write succeeded. A remote fetch error fails with no write. Yaml is replaced by the fetched text. On every path, each file is written only when every earlier call succeeded, and a failure answers the first failing call's error. |
| Compose.TaskerWritesStopAtFailure | app/application/logic/compose.go:176-229 | Every file GetTasker writes, except the last, was written successfully: no write follows a failed one. |
| Accessor.Parse | common/accessor/site_env_option.go:37-54 | It returns a new value and Dest is kept. Without ":" in Host, HostIp and Host are kept. With one, HostIp is the text before the first colon and Host the text up to the next colon or the end; anything after a second colon is dropped. An empty protocol becomes "tcp" and any other is kept. |
| Accessor.ParseIdempotent | common/accessor/site_env_option.go:45-52 | After Parse, Host has no colon and the protocol is non-empty, so a second Parse changes nothing. |
| Strings.JoinSplit | app/application/logic/compose.go:60-66 | Joining the pieces of strings.Split with the separator gives back the original text. |
| Strings.SplitJoin | app/application/logic/compose.go:198 | Splitting a join of separator-free pieces gives back the pieces. |
| Strings.ReplaceAllMarksEveryOccurrence | app/application/logic/compose.go:219-220 | When the replacement starts with the pattern and the pattern's first character occurs nowhere else in pattern or replacement, every occurrence of the pattern in the output starts a replacement. |
| Strings.BaseOfChild | app/application/http/controller/explorer.go:334 | filepath.Base of `dir/name` is `name`. |
| Strings.IntToDecimalInjective | app/application/logic/compose.go:143 | Different integers print differently with "%d". |

## Left out

- HTTP plumbing is not modelled: Gin binding and validation, JSON responses, headers, serving the zip file. Each handler's response is a value.
- The Docker client, the logic-layer explorer (`GetListByPath`, `GetPasswd` and its passwd parsing, `DeleteFileList`, `Chmod`, `Chown`), `os`, `http.Get`, `filepath.Walk`/`Glob`, the `docker compose` CLI, the compose database and compose-go are foreign code. Their answers are parameters, and the calls made are recorded.
- The `Import`, `Unzip` and `GetPasswd` handlers of explorer.go (lines 122-200, 391 on) are not modelled. They delegate to the logic layer or copy an upload to a temp file, and contain no decision logic of their own.
- The bytes of tar, zip and Deflate are not modelled. Export's entry data copy, the temp zip file and its removal are left out: only the headers and their order are modelled.
- Explorer.Export: the error of `zipWriter.Close` (lines 71-75) is not modelled, and neither are tar read errors, which end a stream early and are taken to be the end of the entry list.
- Explorer.GetContent: `tarReader.Read` is assumed to fill the buffer, so a short read, which leaves zero bytes at the end, is not modelled. The sniffer `filetype.Match` is the parameter `isKnownType`. A stat error is not modelled apart from its size, which the caller passes.
- Explorer.ImportFileContent: the `MkdirAll` of the staging subdirectory, the debug print and the `archive.Tar` error (which is overwritten in the source) are not modelled. What `archive.Tar("")` would pack after a failed os.MkdirTemp is not modelled either.
- Explorer.GetPathList: entries are assumed to be pointers. With values, the `item.Change` writes at lines 281 and 287 are lost, and line 293 compares every record with the original owner, so the last match wins. The element type of `GetListByPath` is not part of this model.
- Strings.JoinPath: filepath.Join's lexical cleaning (doubled or trailing "/", "." and ".." elements) is not applied. Paths are joined as `dir + "/" + name`, which agrees for the clean, non-empty elements used here.
- Compose.Sync: the walked paths are given relative to the storage directory and clean, as filepath.Rel produces them. For a two-segment clean path, filepath.Dir is its first segment. Database errors of `Find`, `Create` and `Delete` are ignored by the source and not modelled. The deletion is the delete list: rows whose name is in it are deleted, whatever their type.
- Compose.Sync: the callback returns nil on every call, including the calls that report a walk error, so `filepath.Walk` never returns an error here and Sync always returns nil. The model therefore has no error result, and the delete list is always applied.
- Compose.Ls: running `docker compose ls` is not modelled; its output arrives already decoded (or not). Go's JSON decoder, which may fill part of the list before failing, is not modelled either: an undecodable output is an empty list.
- Compose.Kill: process control, not modelled.
- Compose.GetTasker: the override project and its yaml come from compose-go (`GetOverride`, `MarshalYAML`) and are a parameter. The response body close and the file modes are not modelled. The Tasker is the project name and the option list.
- Compose.GetTasker: the every-occurrence property is proved for the `ports:` rewrite alone. For `depends_on:` it does not hold in general (Compose.DependsOnRewriteCanLeaveUnmarked), and the effect of the later rewrites on the `ports:` marks is not proved.
- The other accessor types of site_env_option.go are plain data and are not modelled.

## Findings

| source | as written | input that shows it | evidently intended | confidence | as-written member | corrected member |
|---|---|---|---|---|---|---|
| app/application/http/controller/explorer.go:102-107 | `defer os.RemoveAll(tempFileDir)` is registered only after the WriteFile error check returns, so a failed write leaves the staging directory behind | File "/etc/app.conf", DestPath "/", a WriteFile that fails: the response is the write error and the temp directory is never removed | remove the staging directory on every path once it has been created | not executed | Explorer.ImportFileContent, Explorer.ImportFileContentLeaksOnWriteFailure | Explorer.ImportFileContentCleaned |
| app/application/http/controller/explorer.go:97-98 | the error of `os.MkdirTemp` is discarded, so on failure the temp directory is "" and the staging path is the requested path itself | File "/etc/app.conf", DestPath "/", an os.MkdirTemp that fails: the content is written to /etc/app.conf on the host, and `RemoveAll("")` removes nothing | answer with the os.MkdirTemp error and write nothing | not executed | Explorer.ImportFileContent, Explorer.ImportFileContentWritesHostPathOnMkdirTempFailure | Explorer.ImportFileContentCleaned |
