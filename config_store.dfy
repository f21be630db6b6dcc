/**
 * Locating, loading and creating `commitail.config.json`
 * (src/utils/config.ts): `getWorkspaceConfigPath`, `loadConfig` and
 * `createDefaultConfig`, the last with its `.gitignore` update.
 */
module ConfigStore {
  import opened Wrappers
  import opened Json
  import opened Types
  import opened ConfigValidation
  import opened Paths
  import opened FileSystem
  import opened IgnoreFile
  import opened JsString

  const ConfigFileName: string := "commitail.config.json"
  const IgnoreFileName: string := ".gitignore"

  /**
   * `getWorkspaceConfigPath`: the config file in the first workspace folder;
   * none without a workspace (`folders` are the folders' file-system paths).
   */
  function GetWorkspaceConfigPath(folders: seq<string>): (r: Option<string>)
    ensures r.None? <==> folders == []
    ensures r.Some? ==> DirName(r.value) == folders[0] && EndsWith(r.value, "/" + ConfigFileName)
  {
    if folders == [] then None
    else
      var p := JoinPath(folders[0], ConfigFileName);
      DirNameOfJoin(folders[0], ConfigFileName);
      var tail := "/" + ConfigFileName;
      assert p == folders[0] + tail;
      assert p[|folders[0]|..] == tail;
      Some(p)
  }

  /** `configPath || getWorkspaceConfigPath()`: an empty explicit path counts as none. */
  function ResolveConfigPath(configPath: Option<string>, folders: seq<string>): Option<string> {
    if configPath.Some? && configPath.value != "" then configPath else GetWorkspaceConfigPath(folders)
  }

  /**
   * The procedure both `loadConfig`s follow, with the validator as a
   * parameter: the parsed document of the config file when it exists, can be
   * read, parses and validates; `null` (None) otherwise. `parse` is
   * `JSON.parse`, None where it throws.
   */
  function Load(store: FileStore, configPath: Option<string>, folders: seq<string>,
                parse: string -> Option<Json>, validate: Json -> ValidationResult): (r: Option<Json>)
    reads store
    ensures r.Some? ==> validate(r.value).isValid
  {
    var path := ResolveConfigPath(configPath, folders);
    if path.None? then None
    else if !store.Exists(path.value) then None
    else match store.Read(path.value)
      case None => None
      case Some(content) =>
        match parse(content)
        case None => None
        case Some(config) => if validate(config).isValid then Some(config) else None
  }

  /**
   * A config is loaded exactly when the resolved file can be read and its
   * text parses to that config, which validates: the existence test and the
   * `catch` turn every other outcome into `null`.
   */
  lemma LoadExactly(store: FileStore, configPath: Option<string>, folders: seq<string>,
                    parse: string -> Option<Json>, validate: Json -> ValidationResult, config: Json)
    ensures Load(store, configPath, folders, parse, validate) == Some(config) <==>
              var path := ResolveConfigPath(configPath, folders);
              && path.Some?
              && store.Read(path.value).Some?
              && parse(store.Read(path.value).value) == Some(config)
              && validate(config).isValid
  {
  }

  /** `loadConfig(configPath)` of src/utils/config.ts. */
  function LoadConfig(store: FileStore, configPath: Option<string>, folders: seq<string>,
                      parse: string -> Option<Json>): (r: Option<Json>)
    reads store
    ensures r.Some? ==> ValidateConfig(r.value).isValid
  {
    Load(store, configPath, folders, parse, ValidateConfig)
  }

  /** `loadConfig` returns exactly the valid configs its file parses to. */
  lemma LoadConfigExactly(store: FileStore, configPath: Option<string>, folders: seq<string>,
                          parse: string -> Option<Json>, config: Json)
    ensures LoadConfig(store, configPath, folders, parse) == Some(config) <==>
              var path := ResolveConfigPath(configPath, folders);
              && path.Some?
              && store.Read(path.value).Some?
              && parse(store.Read(path.value).value) == Some(config)
              && ValidateConfig(config).isValid
  {
    LoadExactly(store, configPath, folders, parse, ValidateConfig, config);
  }

  /** An explicit, non-empty path is loaded whatever the workspace is. */
  lemma LoadConfigExplicitPath(store: FileStore, path: string, folders: seq<string>, others: seq<string>,
                               parse: string -> Option<Json>)
    requires path != ""
    ensures LoadConfig(store, Some(path), folders, parse) == LoadConfig(store, Some(path), others, parse)
  {
  }

  // ---- The default config ----

  /** The config `createDefaultConfig` writes. */
  const DefaultConfig: Json := JObj(map[
    "appendOptions" := JArr([JStr("[skip ci]"), JStr("🔧 chore"), JStr("🧪 test"), JStr("🚀 deploy")]),
    "manual" := JBool(true),
    "defaultIndex" := JInt(0)])

  /** `JSON.stringify(defaultConfig, null, 2)`, keys in declaration order. */
  const DefaultConfigText: string :=
    "{\n  \"appendOptions\": [\n    \"[skip ci]\",\n    \"🔧 chore\",\n    \"🧪 test\",\n    \"🚀 deploy\"\n  ],\n  \"manual\": true,\n  \"defaultIndex\": 0\n}"

  /** The default config passes the validator, with four options and the picker on. */
  lemma DefaultConfigValid()
    ensures ValidateConfig(DefaultConfig).isValid
    ensures |Options(DefaultConfig)| == 4 && Get(DefaultConfig, "manual") == Some(JBool(true))
  {
    var opts := Options(DefaultConfig);
    assert forall i :: 0 <= i < |opts| ==> IsOptionShape(opts[i]);
    AllOptionsExactly(opts, IsOptionShape);
  }

  // ---- The `.gitignore` update ----

  /** `path.join(path.dirname(configPath), ".gitignore")` */
  function IgnorePathFor(configPath: string): (r: string)
    ensures DirName(r) == DirName(configPath)
    ensures EndsWith(r, "/" + IgnoreFileName)
  {
    DirNameOfJoin(DirName(configPath), IgnoreFileName);
    var r := JoinPath(DirName(configPath), IgnoreFileName);
    assert r[|r| - |"/" + IgnoreFileName|..] == "/" + IgnoreFileName;
    r
  }

  /** The `.gitignore` beside the workspace config is the one in the workspace root, not the config. */
  lemma IgnorePathOfWorkspace(root: string)
    ensures IgnorePathFor(JoinPath(root, ConfigFileName)) == JoinPath(root, IgnoreFileName)
    ensures IgnorePathFor(JoinPath(root, ConfigFileName)) != JoinPath(root, ConfigFileName)
  {
    DirNameOfJoin(root, ConfigFileName);
    var p := JoinPath(root, IgnoreFileName);
    var q := JoinPath(root, ConfigFileName);
    assert p[|root| + 1] == '.' && q[|root| + 1] == 'c';
  }

  /**
   * The files once the `.gitignore` block has run on `path`: a read that
   * throws or an append that throws leaves everything as it was (the block
   * catches and logs); otherwise the entry is appended unless listed.
   */
  function IgnoreUpdated(files: map<string, string>, unreadable: set<string>, unwritable: set<string>,
                         path: string): map<string, string>
  {
    if path in files && path in unreadable then files
    else
      var content := if path in files then files[path] else "";
      if HasEntry(content) || path in unwritable then files
      else files[path := UpdatedContent(content)]
  }

  /** The update touches no file but the `.gitignore`, and never removes it. */
  lemma IgnoreUpdatedFrame(files: map<string, string>, unreadable: set<string>, unwritable: set<string>,
                           path: string)
    ensures var r := IgnoreUpdated(files, unreadable, unwritable, path);
            && (forall q :: q != path ==> (q in r <==> q in files))
            && (forall q :: q != path && q in files ==> r[q] == files[q])
            && (path in files ==> path in r && files[path] <= r[path])
  {
  }

  /** When its read and its append succeed, the update leaves the `.gitignore` listing the entry. */
  lemma IgnoreUpdatedListsEntry(files: map<string, string>, unreadable: set<string>, unwritable: set<string>,
                                path: string)
    requires path !in files || path !in unreadable
    requires path !in unwritable
    ensures var r := IgnoreUpdated(files, unreadable, unwritable, path);
            path in r && HasEntry(r[path])
  {
    var content := if path in files then files[path] else "";
    var r := IgnoreUpdated(files, unreadable, unwritable, path);
    if path !in files {
      ShortPiecesHaveNoEntry("");
    }
    UpdateHasEntry(content);
    assert path in r && r[path] == UpdatedContent(content);
  }

  /** Running the update a second time changes nothing. */
  lemma IgnoreUpdatedIdempotent(files: map<string, string>, unreadable: set<string>, unwritable: set<string>,
                                path: string)
    ensures var r := IgnoreUpdated(files, unreadable, unwritable, path);
            IgnoreUpdated(r, unreadable, unwritable, path) == r
  {
    var r := IgnoreUpdated(files, unreadable, unwritable, path);
    var content := if path in files then files[path] else "";
    if !(path in files && path in unreadable) && !HasEntry(content) && path !in unwritable {
      var u := UpdatedContent(content);
      assert r == files[path := u];
      assert HasEntry(u) by {
        UpdateHasEntry(content);
      }
      assert path in r && r[path] == u;
    }
  }

  /** The `.gitignore` block of `createDefaultConfig`, its `try`/`catch` included. */
  method UpdateIgnoreFile(store: FileStore, path: string)
    modifies store`files
    ensures store.files == IgnoreUpdated(old(store.files), store.unreadable, store.unwritable, path)
  {
    var content := "";
    if store.Exists(path) {
      var text := store.Read(path);
      if text.None? {
        return;
      }
      content := text.value;
    }
    if !HasEntry(content) {
      var _ := store.AppendFile(path, AppendedText(content));
    }
  }

  // ---- createDefaultConfig ----

  /** The files after a successful `createDefaultConfig` in workspace `root`. */
  function CreatedFiles(files: map<string, string>, unreadable: set<string>, unwritable: set<string>,
                        root: string): map<string, string>
  {
    IgnoreUpdated(files[JoinPath(root, ConfigFileName) := DefaultConfigText], unreadable, unwritable,
                  JoinPath(root, IgnoreFileName))
  }

  /** After creation the config file holds the default text, whatever the `.gitignore` step did. */
  lemma CreatedFilesHoldDefault(files: map<string, string>, unreadable: set<string>, unwritable: set<string>,
                                root: string)
    ensures var r := CreatedFiles(files, unreadable, unwritable, root);
            JoinPath(root, ConfigFileName) in r && r[JoinPath(root, ConfigFileName)] == DefaultConfigText
  {
    IgnorePathOfWorkspace(root);
    IgnoreUpdatedFrame(files[JoinPath(root, ConfigFileName) := DefaultConfigText], unreadable, unwritable,
                       JoinPath(root, IgnoreFileName));
  }

  /** Creating the default config a second time (overwrite confirmed) gives the same files as once. */
  lemma CreateTwiceIsOnce(files: map<string, string>, unreadable: set<string>, unwritable: set<string>,
                          root: string)
    ensures var once := CreatedFiles(files, unreadable, unwritable, root);
            CreatedFiles(once, unreadable, unwritable, root) == once
  {
    var cfg := JoinPath(root, ConfigFileName);
    var once := CreatedFiles(files, unreadable, unwritable, root);
    CreatedFilesHoldDefault(files, unreadable, unwritable, root);
    assert once[cfg := DefaultConfigText] == once;
    IgnoreUpdatedIdempotent(files[cfg := DefaultConfigText], unreadable, unwritable, JoinPath(root, IgnoreFileName));
  }

  /**
   * `createDefaultConfig()`. `overwriteChosen` is the user's answer to the
   * overwrite question, asked only when the file exists. Returns false, with
   * no file changed, without a workspace, when the user declines, or when
   * writing the config throws; otherwise writes the default config and
   * updates the `.gitignore`, whose failures are caught.
   */
  method CreateDefaultConfig(store: FileStore, folders: seq<string>, overwriteChosen: bool)
    returns (created: bool)
    modifies store`files
    ensures created <==> && folders != []
                         && (JoinPath(folders[0], ConfigFileName) in old(store.files) ==> overwriteChosen)
                         && JoinPath(folders[0], ConfigFileName) !in store.unwritable
    ensures !created ==> store.files == old(store.files)
    ensures created ==> store.files == CreatedFiles(old(store.files), store.unreadable, store.unwritable, folders[0])
  {
    var configPath := GetWorkspaceConfigPath(folders);
    if configPath.None? {
      return false;
    }
    if store.Exists(configPath.value) && !overwriteChosen {
      return false;
    }
    var written := store.WriteFile(configPath.value, DefaultConfigText);
    if !written {
      return false;
    }
    IgnorePathOfWorkspace(folders[0]);
    UpdateIgnoreFile(store, IgnorePathFor(configPath.value));
    return true;
  }

  /** The file `createDefaultConfig` writes loads back as the default config. */
  lemma LoadAfterCreate(store: FileStore, folders: seq<string>, parse: string -> Option<Json>)
    requires folders != []
    requires JoinPath(folders[0], ConfigFileName) in store.files
    requires store.files[JoinPath(folders[0], ConfigFileName)] == DefaultConfigText
    requires JoinPath(folders[0], ConfigFileName) !in store.unreadable
    requires parse(DefaultConfigText) == Some(DefaultConfig)
    ensures LoadConfig(store, None, folders, parse) == Some(DefaultConfig)
  {
    DefaultConfigValid();
  }
}
