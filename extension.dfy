/**
 * The older, self-contained implementation in src/extension.ts: a string-only
 * `validateConfig`, its own `loadConfig` and `createDefaultConfig` (no
 * `.gitignore` step), and the `commitail.commitWithAppend` handler registered
 * in `activate`, which hands the message to `execGitCommit` instead of
 * writing the input box.
 */
module Extension {
  import opened Wrappers
  import opened Json
  import opened Types
  import opened ConfigValidation
  import opened ConfigStore
  import opened FileSystem
  import opened JsString
  import opened Paths
  import CommitWithAppend

  // ---- validateConfig (string options only) ----

  /** `validateConfig` of src/extension.ts: every option must be a string. */
  function LegacyValidateConfig(config: Json): (r: ValidationResult)
    ensures r.isValid ==> r.message == Empty && r.config == Some(config)
    ensures !r.isValid ==> r.message.Localized? && r.config == None
    ensures r.isValid ==> |Options(config)| > 0 && forall i :: 0 <= i < |Options(config)| ==> Options(config)[i].JStr?
  {
    Validate(config, IsString, OptionNotStringError)
  }

  /**
   * A document passes the older validator exactly when it is truthy, its
   * `appendOptions` is a non-empty array of strings, `manual` is absent or
   * boolean, and `defaultIndex` is absent or an index of an option.
   */
  lemma LegacyValidateConfigAcceptsExactly(config: Json)
    ensures LegacyValidateConfig(config).isValid <==> Acceptable(config, IsString)
  {
    ValidateAcceptsExactly(config, IsString, OptionNotStringError);
  }

  /** The older validator reports the first failing check, in the same order as the current one. */
  lemma LegacyValidateConfigReportsFirstFailure(config: Json)
    ensures LegacyValidateConfig(config).isValid <==> forall c :: Passes(config, c, IsString)
    ensures forall c :: IsFirstFailure(config, c, IsString) ==>
              LegacyValidateConfig(config).message == Localized(FailureKind(config, c, OptionNotStringError))
  {
    ValidateReportsFirstFailure(config, IsString, OptionNotStringError);
  }

  /** The older validator as the source runs it: early returns and a loop over the options. */
  method LegacyValidateConfigStepwise(config: Json) returns (r: ValidationResult)
    ensures r == LegacyValidateConfig(config)
  {
    if !Truthy(config) {
      return Reject(EmptyConfig);
    }
    var appendOptions := Get(config, "appendOptions");
    if appendOptions.None? || !appendOptions.value.JArr? {
      return Reject(OptionsNotArray);
    }
    var opts := appendOptions.value.elems;
    if |opts| == 0 {
      return Reject(OptionsEmpty);
    }
    AllOptionsExactly(opts, IsString);
    for i := 0 to |opts|
      invariant forall k :: 0 <= k < i ==> opts[k].JStr?
    {
      if !opts[i].JStr? {
        return Reject(OptionNotStringError);
      }
    }
    var manual := Get(config, "manual");
    if manual.Some? && !manual.value.JBool? {
      return Reject(ManualTypeError);
    }
    var index := Get(config, "defaultIndex");
    if index.Some? {
      if !index.value.JInt? {
        return Reject(DefaultIndexTypeError);
      }
      if index.value.i < 0 || index.value.i >= |opts| {
        return Reject(DefaultIndexRangeError(|opts| - 1));
      }
    }
    return Accept(config);
  }

  /**
   * On a document whose options are all strings the two validators give the
   * same result; so whatever the older one accepts, the current one accepts.
   */
  lemma ValidatorsAgreeOnStringOptions(config: Json)
    ensures (forall i :: 0 <= i < |Options(config)| ==> Options(config)[i].JStr?) ==>
              ValidateConfig(config) == LegacyValidateConfig(config)
    ensures LegacyValidateConfig(config).isValid ==> ValidateConfig(config).isValid
  {
    var opts := Options(config);
    AllOptionsExactly(opts, IsString);
    AllOptionsExactly(opts, IsOptionShape);
  }

  /** A `{ "appendOptions": ..., "manual": ..., "defaultIndex": ... }` document. */
  function TestConfig(options: Json, manual: Json, index: Json): Json {
    JObj(map["appendOptions" := options, "manual" := manual, "defaultIndex" := index])
  }

  const FeatFixDocs: Json := JArr([JStr("feat"), JStr("fix"), JStr("docs")])

  /** The pair format separates the validators: only the current one accepts it. */
  lemma PairOptionAcceptedByCurrentOnly()
    ensures var config := TestConfig(JArr([JArr([JStr("feat"), JStr("a new feature")])]), JBool(true), JInt(0));
            && ValidateConfig(config) == ValidationResult(true, Empty, Some(config))
            && LegacyValidateConfig(config) == ValidationResult(false, Localized(OptionNotStringError), None)
  {
    var config := TestConfig(JArr([JArr([JStr("feat"), JStr("a new feature")])]), JBool(true), JInt(0));
    assert Options(config) == [JArr([JStr("feat"), JStr("a new feature")])];
    ValidateConfigAcceptsExactly(config);
    LegacyValidateConfigAcceptsExactly(config);
  }

  /** The accepted document of the validator's tests. */
  lemma LegacyValidatorAcceptsTestConfig()
    ensures var config := TestConfig(FeatFixDocs, JBool(false), JInt(0));
            LegacyValidateConfig(config) == ValidationResult(true, Empty, Some(config))
  {
    var config := TestConfig(FeatFixDocs, JBool(false), JInt(0));
    assert Options(config) == FeatFixDocs.elems;
    LegacyValidateConfigAcceptsExactly(config);
  }

  /** The `appendOptions` rejections of the validator's tests: a string, `[]`, and a number among strings. */
  lemma LegacyValidatorRejectsTestOptions()
    ensures LegacyValidateConfig(TestConfig(JStr("not an array"), JBool(false), JInt(0))).message
            == Localized(OptionsNotArray)
    ensures LegacyValidateConfig(TestConfig(JArr([]), JBool(false), JInt(0))).message == Localized(OptionsEmpty)
    ensures LegacyValidateConfig(TestConfig(JArr([JStr("feat"), JInt(123), JStr("docs")]), JBool(false), JInt(0))).message
            == Localized(OptionNotStringError)
  {
    var mixed := TestConfig(JArr([JStr("feat"), JInt(123), JStr("docs")]), JBool(false), JInt(0));
    assert Options(mixed) == [JStr("feat"), JInt(123), JStr("docs")];
    AllOptionsExactly(Options(mixed), IsString);
  }

  /** The `manual` rejection of the validator's tests. */
  lemma LegacyValidatorRejectsTestManual()
    ensures LegacyValidateConfig(TestConfig(FeatFixDocs, JStr("not a boolean"), JInt(0))).message
            == Localized(ManualTypeError)
  {
    var bad := TestConfig(FeatFixDocs, JStr("not a boolean"), JInt(0));
    assert Options(bad) == FeatFixDocs.elems;
    AllOptionsExactly(Options(bad), IsString);
  }

  /** The `defaultIndex` rejections of the validator's tests: a string, 5 and -1 with three options. */
  lemma LegacyValidatorRejectsTestIndex(index: Json)
    requires index in {JStr("not a number"), JInt(5), JInt(-1)}
    ensures LegacyValidateConfig(TestConfig(FeatFixDocs, JBool(false), index)).message
            == Localized(if index.JStr? then DefaultIndexTypeError else DefaultIndexRangeError(2))
  {
    assert Options(TestConfig(FeatFixDocs, JBool(false), index)) == FeatFixDocs.elems;
    AllOptionsExactly(FeatFixDocs.elems, IsString);
  }

  // ---- loadConfig and createDefaultConfig ----

  /** `loadConfig(configPath)` of src/extension.ts: the same procedure with the older validator. */
  function LegacyLoadConfig(store: FileStore, configPath: Option<string>, folders: seq<string>,
                            parse: string -> Option<Json>): (r: Option<Json>)
    reads store
    ensures r.Some? ==> LegacyValidateConfig(r.value).isValid
  {
    Load(store, configPath, folders, parse, LegacyValidateConfig)
  }

  /** What the older `loadConfig` returns, it returns from the current one too. */
  lemma LegacyLoadConfigImpliesCurrent(store: FileStore, configPath: Option<string>, folders: seq<string>,
                                       parse: string -> Option<Json>)
    ensures LegacyLoadConfig(store, configPath, folders, parse).Some? ==>
              LoadConfig(store, configPath, folders, parse) == LegacyLoadConfig(store, configPath, folders, parse)
  {
    var r := LegacyLoadConfig(store, configPath, folders, parse);
    if r.Some? {
      ValidatorsAgreeOnStringOptions(r.value);
      LoadExactly(store, configPath, folders, parse, LegacyValidateConfig, r.value);
      LoadExactly(store, configPath, folders, parse, ValidateConfig, r.value);
    }
  }

  /** The default config passes the older validator too. */
  lemma DefaultConfigValidLegacy()
    ensures LegacyValidateConfig(DefaultConfig).isValid
  {
    var opts := Options(DefaultConfig);
    assert forall i :: 0 <= i < |opts| ==> opts[i].JStr?;
    AllOptionsExactly(opts, IsString);
  }

  /**
   * `createDefaultConfig()` of src/extension.ts: as the current one, but it
   * writes only the config file.
   */
  method LegacyCreateDefaultConfig(store: FileStore, folders: seq<string>, overwriteChosen: bool)
    returns (created: bool)
    modifies store`files
    ensures created <==> && folders != []
                         && (JoinPath(folders[0], ConfigFileName) in old(store.files) ==> overwriteChosen)
                         && JoinPath(folders[0], ConfigFileName) !in store.unwritable
    ensures store.files == if created then old(store.files)[JoinPath(folders[0], ConfigFileName) := DefaultConfigText]
                           else old(store.files)
  {
    var configPath := GetWorkspaceConfigPath(folders);
    if configPath.None? {
      return false;
    }
    if store.Exists(configPath.value) && !overwriteChosen {
      return false;
    }
    created := store.WriteFile(configPath.value, DefaultConfigText);
  }

  // ---- The commitWithAppend handler ----

  /** The list `showQuickPick` is given: the option strings themselves, in order. */
  function OptionStrings(config: Json): (labels: seq<string>)
    requires LegacyValidateConfig(config).isValid
    ensures |labels| == |Options(config)|
    ensures forall i :: 0 <= i < |labels| ==> Options(config)[i] == JStr(labels[i])
  {
    var opts := Options(config);
    seq(|opts|, i requires 0 <= i < |opts| => opts[i].s)
  }

  /**
   * The older suffix choice: the option at the index when `manual` is
   * `false`; otherwise the string picked from the options, and none when the
   * pick is dismissed.
   */
  function LegacySelectSuffix(config: Json, choose: seq<string> -> Option<nat>): (r: Option<string>)
    requires LegacyValidateConfig(config).isValid
    requires CommitWithAppend.PicksWithinRange(choose)
    ensures CommitWithAppend.IsAutomatic(config) ==> r.Some?
    ensures r.Some? ==> exists i :: 0 <= i < |Options(config)| && r.value == Options(config)[i].s
    ensures !CommitWithAppend.IsAutomatic(config) ==> (r.None? <==> choose(OptionStrings(config)).None?)
    ensures !CommitWithAppend.IsAutomatic(config) && choose(OptionStrings(config)).Some? ==>
              r == Some(Options(config)[choose(OptionStrings(config)).value].s)
  {
    var opts := Options(config);
    ValidatorsAgreeOnStringOptions(config);
    if CommitWithAppend.IsAutomatic(config) then
      CommitWithAppend.AutoIndexInBounds(config);
      var i := CommitWithAppend.AutoIndex(config);
      Some(opts[i].s)
    else
      var labels := OptionStrings(config);
      match choose(labels)
      case None => None
      case Some(k) => Some(labels[k])
  }

  /** On string options the older automatic choice is the current one. */
  lemma LegacyAutoSuffixIsCurrent(config: Json, choose: seq<string> -> Option<nat>)
    requires LegacyValidateConfig(config).isValid && CommitWithAppend.IsAutomatic(config)
    requires CommitWithAppend.PicksWithinRange(choose)
    ensures ValidateConfig(config).isValid
    ensures LegacySelectSuffix(config, choose) == Some(CommitWithAppend.AutoSuffix(config))
  {
    ValidatorsAgreeOnStringOptions(config);
  }

  /** How a run of the older handler ends; `Commit` carries the message given to `execGitCommit`. */
  datatype HandlerOutcome =
    | NoGitExtension
    | NoRepository
    | EmptyMessage
    | NoValidConfig
    | Cancelled
    | Commit(message: string)

  /** The handler's decision once a repository is found, from the input box's text and the loaded config. */
  function LegacyDecide(value: string, config: Option<Json>, choose: seq<string> -> Option<nat>): (r: HandlerOutcome)
    requires config.Some? ==> LegacyValidateConfig(config.value).isValid
    requires CommitWithAppend.PicksWithinRange(choose)
    ensures Trim(value) == "" ==> r == EmptyMessage
    ensures Trim(value) != "" && config.None? ==> r == NoValidConfig
    ensures Trim(value) != "" && config.Some? ==>
              && (r.Commit? <==> LegacySelectSuffix(config.value, choose).Some?)
              && (!r.Commit? ==> r == Cancelled)
    ensures r.Commit? ==> Trim(value) != "" && config.Some? && LegacySelectSuffix(config.value, choose).Some?
    ensures r.Commit? ==> r.message == Trim(value) + " " + LegacySelectSuffix(config.value, choose).value
  {
    if Trim(value) == "" then EmptyMessage
    else if config.None? then NoValidConfig
    else match LegacySelectSuffix(config.value, choose)
      case None => Cancelled
      case Some(suffix) => Commit(Trim(value) + " " + suffix)
  }

  const SkipCi: string := "[skip ci]"
  const SkipCiMessage: string := "fix [skip ci]"

  /** `{ "appendOptions": ["[skip ci]"], "manual": false }` */
  const SkipCiConfig: Json := JObj(map["appendOptions" := JArr([JStr(SkipCi)]), "manual" := JBool(false)])

  /** Both validators accept the `[skip ci]` config, and both take its one option without a picker. */
  lemma SkipCiConfigValid()
    ensures LegacyValidateConfig(SkipCiConfig).isValid && ValidateConfig(SkipCiConfig).isValid
    ensures CommitWithAppend.IsAutomatic(SkipCiConfig) && CommitWithAppend.AutoSuffix(SkipCiConfig) == SkipCi
  {
    assert Options(SkipCiConfig) == [JStr(SkipCi)];
    LegacyValidateConfigAcceptsExactly(SkipCiConfig);
    ValidatorsAgreeOnStringOptions(SkipCiConfig);
  }

  /** The message already ends with the suffix, and `trim` leaves it alone. */
  lemma SkipCiMessageIsSuffixed()
    ensures Trim(SkipCiMessage) == SkipCiMessage && EndsWith(SkipCiMessage, SkipCi)
  {
    TrimOfTrimmed(SkipCiMessage);
    assert SkipCiMessage[|SkipCiMessage| - |SkipCi|..] == SkipCi;
  }

  /** On a message that already ends with the suffix the older handler commits it a second time ... */
  lemma LegacyRepeatsSuffix(choose: seq<string> -> Option<nat>)
    requires CommitWithAppend.PicksWithinRange(choose)
    ensures LegacyValidateConfig(SkipCiConfig).isValid
    ensures LegacyDecide(SkipCiMessage, Some(SkipCiConfig), choose) == Commit(SkipCiMessage + " " + SkipCi)
  {
    SkipCiConfigValid();
    LegacyAutoSuffixIsCurrent(SkipCiConfig, choose);
    SkipCiMessageIsSuffixed();
    assert LegacySelectSuffix(SkipCiConfig, choose) == Some(SkipCi);
    assert Trim(SkipCiMessage) != "";
  }

  /** ... where the current command leaves it alone. */
  lemma CurrentSkipsSuffixed(choose: seq<CommitWithAppend.QuickPickItem> -> Option<nat>)
    requires CommitWithAppend.PicksWithinRange(choose)
    ensures ValidateConfig(SkipCiConfig).isValid
    ensures CommitWithAppend.Decide(true, Some(SkipCiConfig), choose, SkipCiMessage) == CommitWithAppend.AlreadySuffixed
  {
    SkipCiConfigValid();
    SkipCiMessageIsSuffixed();
  }

  /**
   * The handler registered as `commitail.commitWithAppend` in `activate`.
   * It changes nothing itself: a `Commit` outcome is the message it passes
   * to `execGitCommit`.
   */
  method CommitWithAppendHandler(git: Option<seq<Repository>>, store: FileStore, folders: seq<string>,
                                 parse: string -> Option<Json>, choose: seq<string> -> Option<nat>)
    returns (outcome: HandlerOutcome)
    requires CommitWithAppend.PicksWithinRange(choose)
    ensures git.None? ==> outcome == NoGitExtension
    ensures git.Some? && git.value == [] ==> outcome == NoRepository
    ensures git.Some? && git.value != [] ==>
              outcome == LegacyDecide(git.value[0].inputBox.value, LegacyLoadConfig(store, None, folders, parse), choose)
  {
    if git.None? {
      return NoGitExtension;
    }
    if |git.value| == 0 {
      return NoRepository;
    }
    var repo := git.value[0];
    var originalMessage := Trim(repo.inputBox.value);
    if originalMessage == "" {
      return EmptyMessage;
    }
    var config := LegacyLoadConfig(store, None, folders, parse);
    if config.None? {
      return NoValidConfig;
    }
    var selectedSuffix := LegacySelectSuffix(config.value, choose);
    if selectedSuffix.None? {
      return Cancelled;
    }
    return Commit(originalMessage + " " + selectedSuffix.value);
  }
}
