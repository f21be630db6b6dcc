/**
 * The `commitail.commitWithAppend` command (src/commands/commitWithAppend.ts):
 * choose a suffix from the config, automatically or from a pick list, and
 * append it to the commit message in the source-control input box unless the
 * message already ends with it.
 */
module CommitWithAppend {
  import opened Wrappers
  import opened Json
  import opened Types
  import opened ConfigValidation
  import opened ConfigStore
  import opened FileSystem
  import opened JsString

  /** A `vscode.QuickPickItem` as the command builds it. */
  datatype QuickPickItem = QuickPickItem(labelText: string, description: Option<string>)

  /**
   * The pick dialog, as an oracle over the items shown: the index of the
   * item picked, or None when the user dismisses it.
   */
  ghost predicate PicksWithinRange<T(!new)>(choose: seq<T> -> Option<nat>) {
    forall items: seq<T> :: choose(items).Some? ==> choose(items).value < |items|
  }

  /** The value of an option: the string itself, or the first entry of a pair. */
  function OptionLabel(option: Json): string
    requires IsOptionShape(option)
  {
    if option.JStr? then option.s else option.elems[0].s
  }

  /** The description of a pair option. */
  function OptionDescription(option: Json): Option<string>
    requires IsOptionShape(option)
  {
    if option.JStr? then None else Some(option.elems[1].s)
  }

  /** `{ label: opt }` for a string, `{ label: opt[0], description: opt[1] }` for a pair. */
  function ToPickItem(option: Json): QuickPickItem
    requires IsOptionShape(option)
  {
    QuickPickItem(OptionLabel(option), OptionDescription(option))
  }

  /**
   * `appendOptions.map(...)`: one item per option, in order; the label is the
   * option's value and only pairs carry a description.
   */
  function QuickPickItems(opts: seq<Json>): (items: seq<QuickPickItem>)
    requires forall i :: 0 <= i < |opts| ==> IsOptionShape(opts[i])
    ensures |items| == |opts|
    ensures forall i :: 0 <= i < |opts| ==> items[i].labelText == OptionLabel(opts[i])
    ensures forall i :: 0 <= i < |opts| ==> items[i].description == OptionDescription(opts[i])
  {
    seq(|opts|, i requires 0 <= i < |opts| => ToPickItem(opts[i]))
  }

  /**
   * A loaded config always has a non-empty `appendOptions` array, so the
   * command's guard against a missing or empty one never fires.
   */
  lemma LoadedConfigHasOptions(config: Json)
    requires ValidateConfig(config).isValid
    ensures Get(config, "appendOptions").Some? && Get(config, "appendOptions").value.JArr?
    ensures |Get(config, "appendOptions").value.elems| > 0
  {
    ValidateConfigAcceptsExactly(config);
  }

  /** `manual === false`: only an explicit `false` skips the pick list. */
  predicate IsAutomatic(config: Json) {
    Get(config, "manual") == Some(JBool(false))
  }

  /** `typeof config.defaultIndex === "number" ? config.defaultIndex : 0` */
  function AutoIndex(config: Json): int {
    match Get(config, "defaultIndex")
    case Some(JInt(i)) => i
    case _ => 0
  }

  /** The index the automatic choice uses is an index of an option of any validated config. */
  lemma AutoIndexInBounds(config: Json)
    requires ValidateConfig(config).isValid
    ensures 0 <= AutoIndex(config) < |Options(config)|
  {
    ValidateConfigAcceptsExactly(config);
  }

  /** The suffix the automatic choice takes: the value of the option at the index. */
  function AutoSuffix(config: Json): (r: string)
    requires ValidateConfig(config).isValid
    ensures 0 <= AutoIndex(config) < |Options(config)|
    ensures var option := Options(config)[AutoIndex(config)];
            option == JStr(r) || (option.JArr? && option.elems[0] == JStr(r))
  {
    AutoIndexInBounds(config);
    OptionLabel(Options(config)[AutoIndex(config)])
  }

  /**
   * `picked.label || picked.description`, as written: a non-empty label wins,
   * an empty one gives way to the description, and an item with neither
   * yields `undefined`, which the template strings write as "undefined".
   */
  function PickedSuffixAsWritten(item: QuickPickItem): (r: string)
    ensures item.labelText != "" ==> r == item.labelText
    ensures item.labelText == "" && item.description.Some? ==> r == item.description.value
    ensures item.labelText == "" && item.description.None? ==> r == "undefined"
  {
    if item.labelText != "" then item.labelText
    else match item.description
      case Some(d) => d
      case None => "undefined"
  }

  /** The picked item's label, falling back to its description, and to no suffix when it has neither. */
  function PickedSuffix(item: QuickPickItem): (r: string)
    ensures r == item.labelText || Some(r) == item.description
    ensures item.labelText != "" ==> r == item.labelText
    ensures item.labelText == "" && item.description.Some? ==> r == item.description.value
  {
    if item.labelText != "" then item.labelText else item.description.GetOr("")
  }

  /** The picked suffix never holds text the item does not; the as-written one can. */
  lemma PickedSuffixAsWrittenDiffers()
    ensures var item := QuickPickItem("", None);
            && PickedSuffix(item) == ""
            && PickedSuffixAsWritten(item) == "undefined"
            && PickedSuffixAsWritten(item) != item.labelText && item.description.None?
  {
  }

  /** A suffix a config offers: an option's value or a pair's description. */
  predicate OffersSuffix(config: Json, suffix: string)
    requires forall i :: 0 <= i < |Options(config)| ==> IsOptionShape(Options(config)[i])
  {
    exists i :: 0 <= i < |Options(config)| &&
      (suffix == OptionLabel(Options(config)[i]) || Some(suffix) == OptionDescription(Options(config)[i]))
  }

  /**
   * The suffix choice: the option at `defaultIndex` (or 0) when `manual` is
   * `false`, otherwise the item picked from the list, None when dismissed.
   */
  function SelectSuffix(config: Json, choose: seq<QuickPickItem> -> Option<nat>): (r: Option<string>)
    requires ValidateConfig(config).isValid
    requires PicksWithinRange(choose)
    ensures IsAutomatic(config) ==> r == Some(AutoSuffix(config))
    ensures !IsAutomatic(config) ==> (r.None? <==> choose(QuickPickItems(Options(config))).None?)
    ensures !IsAutomatic(config) && choose(QuickPickItems(Options(config))).Some? ==>
              var option := Options(config)[choose(QuickPickItems(Options(config))).value];
              r == Some(if OptionLabel(option) != "" then OptionLabel(option) else OptionDescription(option).GetOr(""))
  {
    if IsAutomatic(config) then Some(AutoSuffix(config))
    else
      var items := QuickPickItems(Options(config));
      match choose(items)
      case None => None
      case Some(k) => Some(PickedSuffix(items[k]))
  }

  /** Whichever way it is chosen, the suffix is one the config offers. */
  lemma SelectedSuffixIsOffered(config: Json, choose: seq<QuickPickItem> -> Option<nat>)
    requires ValidateConfig(config).isValid
    requires PicksWithinRange(choose)
    ensures SelectSuffix(config, choose).Some? ==> OffersSuffix(config, SelectSuffix(config, choose).value)
  {
    var opts := Options(config);
    if IsAutomatic(config) {
      AutoIndexInBounds(config);
      assert OptionLabel(opts[AutoIndex(config)]) == AutoSuffix(config);
    } else {
      var items := QuickPickItems(opts);
      if choose(items).Some? {
        var k := choose(items).value;
        assert items[k].labelText == OptionLabel(opts[k]) && items[k].description == OptionDescription(opts[k]);
      }
    }
  }

  /**
   * The same choice with the as-written pick: a config with a plain empty
   * option makes it put "undefined", which the config does not offer.
   */
  function SelectSuffixAsWritten(config: Json, choose: seq<QuickPickItem> -> Option<nat>): (r: Option<string>)
    requires ValidateConfig(config).isValid
    requires PicksWithinRange(choose)
    ensures IsAutomatic(config) ==> r == Some(AutoSuffix(config))
    ensures !IsAutomatic(config) ==> (r.None? <==> choose(QuickPickItems(Options(config))).None?)
    ensures !IsAutomatic(config) && choose(QuickPickItems(Options(config))).Some? ==>
              var option := Options(config)[choose(QuickPickItems(Options(config))).value];
              r == Some(if OptionLabel(option) != "" then OptionLabel(option)
                        else if OptionDescription(option).Some? then OptionDescription(option).value
                        else "undefined")
  {
    if IsAutomatic(config) then Some(AutoSuffix(config))
    else
      var items := QuickPickItems(Options(config));
      match choose(items)
      case None => None
      case Some(k) => Some(PickedSuffixAsWritten(items[k]))
  }

  /**
   * The corrected and the as-written choice differ only when the user picks a
   * plain empty option: the corrected one then gives the empty suffix, the
   * as-written one "undefined".
   */
  lemma SelectSuffixCorrectionIsNarrow(config: Json, choose: seq<QuickPickItem> -> Option<nat>)
    requires ValidateConfig(config).isValid
    requires PicksWithinRange(choose)
    ensures SelectSuffix(config, choose) != SelectSuffixAsWritten(config, choose) ==>
              && !IsAutomatic(config)
              && JStr("") in Options(config)
              && SelectSuffix(config, choose) == Some("")
              && SelectSuffixAsWritten(config, choose) == Some("undefined")
  {
    var opts := Options(config);
    var items := QuickPickItems(opts);
    if !IsAutomatic(config) && choose(items).Some? {
      var k := choose(items).value;
      if opts[k].JArr? {
        assert items[k].description.Some?;
      } else {
        assert opts[k] == JStr(OptionLabel(opts[k]));
      }
    }
  }

  /** What the command does to the trimmed message once a suffix is chosen. */
  datatype Composition = Skip | Compose(text: string)

  /**
   * Nothing when the message already ends with the suffix (an empty suffix
   * included); otherwise the suffix alone for an empty message, and the
   * message, a space and the suffix for any other.
   */
  function ComposeMessage(trimmed: string, suffix: string): (r: Composition)
    ensures r.Skip? <==> EndsWith(trimmed, suffix)
    ensures r.Skip? ==> suffix == "" || |trimmed| >= |suffix| > 0
    ensures r.Compose? ==> EndsWith(r.text, suffix) && suffix != ""
    ensures r.Compose? && trimmed == "" ==> r.text == suffix
    ensures r.Compose? && trimmed != "" ==>
              |r.text| == |trimmed| + 1 + |suffix| && r.text[..|trimmed|] == trimmed && r.text[|trimmed|] == ' '
  {
    if EndsWith(trimmed, suffix) then Skip
    else
      var text := if trimmed == "" then suffix else trimmed + " " + suffix;
      assert text[|text| - |suffix|..] == suffix;
      Compose(text)
  }

  /**
   * For a suffix without whitespace at its ends, running the command again on
   * the message it produced changes nothing.
   */
  lemma ComposeTwiceSkips(value: string, suffix: string)
    requires NoEdgeWhitespace(suffix)
    ensures var first := ComposeMessage(Trim(value), suffix);
            first.Compose? ==> ComposeMessage(Trim(first.text), suffix).Skip?
  {
    var trimmed := Trim(value);
    var first := ComposeMessage(trimmed, suffix);
    if first.Compose? {
      var t := first.text;
      if trimmed != "" {
        assert t[0] == trimmed[0];
        assert t[|t| - 1] == suffix[|suffix| - 1];
      }
      TrimOfTrimmed(t);
    }
  }

  /** The composition of an empty message, of a plain one, and of one that already ends with the suffix. */
  lemma ComposeExamples()
    ensures ComposeMessage("", "[skip ci]") == Compose("[skip ci]")
    ensures ComposeMessage("feat: x", "[skip ci]") == Compose("feat: x" + " " + "[skip ci]")
    ensures ComposeMessage("feat: x [skip ci]", "[skip ci]") == Skip
  {
    var m := "feat: x [skip ci]";
    assert m[|m| - |"[skip ci]"|..] == "[skip ci]";
  }

  /** `{ "appendOptions": ["[skip ci]", "[wip]"], "manual": false, "defaultIndex": 1 }` */
  const WipConfig: Json := JObj(map[
    "appendOptions" := JArr([JStr("[skip ci]"), JStr("[wip]")]),
    "manual" := JBool(false),
    "defaultIndex" := JInt(1)])

  /** The config is valid and chooses its second option without a pick list. */
  lemma WipConfigChoosesSecond()
    ensures ValidateConfig(WipConfig).isValid && IsAutomatic(WipConfig)
    ensures AutoSuffix(WipConfig) == "[wip]"
  {
    assert Options(WipConfig) == [JStr("[skip ci]"), JStr("[wip]")];
    AllOptionsExactly(Options(WipConfig), IsOptionShape);
  }

  /** `fix: bug` becomes `fix: bug [wip]`, whatever the pick dialog would do. */
  lemma WipScenario(choose: seq<QuickPickItem> -> Option<nat>)
    requires PicksWithinRange(choose)
    ensures ValidateConfig(WipConfig).isValid
    ensures Decide(true, Some(WipConfig), choose, "fix: bug") == Appended("fix: bug" + " " + "[wip]")
  {
    WipConfigChoosesSecond();
    TrimOfTrimmed("fix: bug");
    assert !EndsWith("fix: bug", "[wip]") by {
      assert "fix: bug"[|"fix: bug"| - 1] != "[wip]"[|"[wip]"| - 1];
    }
  }

  /** `{ "appendOptions": [""] }` */
  const EmptyOptionConfig: Json := JObj(map["appendOptions" := JArr([JStr("")])])

  /** The config with one empty option is valid, and runs the pick list. */
  lemma EmptyOptionConfigValid()
    ensures ValidateConfig(EmptyOptionConfig).isValid && !IsAutomatic(EmptyOptionConfig)
    ensures Options(EmptyOptionConfig) == [JStr("")]
  {
    ValidateConfigAcceptsExactly(EmptyOptionConfig);
  }

  /** The finding: a plain empty option, picked, appends the text "undefined". */
  lemma EmptyOptionAppendsUndefined()
    ensures var config := EmptyOptionConfig;
            var pickFirst := (items: seq<QuickPickItem>) => if items == [] then None else Some(0);
            && ValidateConfig(config).isValid
            && PicksWithinRange(pickFirst)
            && SelectSuffixAsWritten(config, pickFirst) == Some("undefined")
            && !OffersSuffix(config, "undefined")
            && ComposeMessage("fix", "undefined") == Compose("fix undefined")
            && SelectSuffix(config, pickFirst) == Some("")
            && ComposeMessage("fix", "") == Skip
  {
    var config := EmptyOptionConfig;
    var pickFirst := (items: seq<QuickPickItem>) => if items == [] then None else Some(0);
    EmptyOptionConfigValid();
    var items := QuickPickItems(Options(config));
    assert items[0] == QuickPickItem("", None);
    assert "fix" + " " + "undefined" == "fix undefined";
  }

  /** How a run of the command ends. */
  datatype AppendOutcome =
    | NoGitExtension
    | NoRepository
    | NoChanges
    | NoValidConfig
    | Cancelled
    | AlreadySuffixed
    | Appended(message: string)

  /**
   * The command's decision once a repository is found: `hasChanges` whether
   * it has staged or unstaged changes, `config` what `loadConfig` returned,
   * `value` the input box's text.
   */
  function Decide(hasChanges: bool, config: Option<Json>, choose: seq<QuickPickItem> -> Option<nat>,
                  value: string): (r: AppendOutcome)
    requires config.Some? ==> ValidateConfig(config.value).isValid
    requires PicksWithinRange(choose)
    ensures !hasChanges ==> r == NoChanges
    ensures hasChanges && config.None? ==> r == NoValidConfig
    ensures hasChanges && config.Some? && SelectSuffix(config.value, choose).None? ==> r == Cancelled
    ensures hasChanges && config.Some? && SelectSuffix(config.value, choose).Some? ==>
              var suffix := SelectSuffix(config.value, choose).value;
              && (r.Appended? <==> !EndsWith(Trim(value), suffix))
              && (!r.Appended? ==> r == AlreadySuffixed)
              && (r.Appended? ==> r.message == if Trim(value) == "" then suffix else Trim(value) + " " + suffix)
  {
    if !hasChanges then NoChanges
    else if config.None? then NoValidConfig
    else match SelectSuffix(config.value, choose)
      case None => Cancelled
      case Some(suffix) =>
        match ComposeMessage(Trim(value), suffix)
        case Skip => AlreadySuffixed
        case Compose(text) => Appended(text)
  }

  /**
   * Only a run with changes and a config appends, and what it writes ends
   * with the chosen suffix, which the trimmed message did not end with.
   */
  lemma AppendedEndsWithSuffix(hasChanges: bool, config: Option<Json>, choose: seq<QuickPickItem> -> Option<nat>,
                               value: string)
    requires config.Some? ==> ValidateConfig(config.value).isValid
    requires PicksWithinRange(choose)
    ensures var r := Decide(hasChanges, config, choose, value);
            r.Appended? ==>
              && hasChanges && config.Some? && SelectSuffix(config.value, choose).Some?
              && EndsWith(r.message, SelectSuffix(config.value, choose).value)
              && !EndsWith(Trim(value), SelectSuffix(config.value, choose).value)
  {
  }

  /**
   * When the same suffix is chosen again and it has no whitespace at its
   * ends, a second run on the message the first run wrote appends nothing.
   */
  lemma SecondRunAppendsNothing(config: Json, choose: seq<QuickPickItem> -> Option<nat>, value: string)
    requires ValidateConfig(config).isValid
    requires PicksWithinRange(choose)
    requires SelectSuffix(config, choose).Some? ==> NoEdgeWhitespace(SelectSuffix(config, choose).value)
    ensures var first := Decide(true, Some(config), choose, value);
            first.Appended? ==> Decide(true, Some(config), choose, first.message) == AlreadySuffixed
  {
    if SelectSuffix(config, choose).Some? {
      ComposeTwiceSkips(value, SelectSuffix(config, choose).value);
    }
  }

  /**
   * `commitWithAppend()`. `git` is the Git extension's API (None when the
   * extension is missing) reduced to its repositories; the config is loaded
   * from the workspace `folders` through `store` and `parse`; `choose` is the
   * pick dialog. Only an `Appended` run writes the input box of the first
   * repository, and it writes the composed message there.
   */
  method CommitWithAppendCommand(git: Option<seq<Repository>>, store: FileStore, folders: seq<string>,
                                 parse: string -> Option<Json>, choose: seq<QuickPickItem> -> Option<nat>)
    returns (outcome: AppendOutcome)
    requires PicksWithinRange(choose)
    modifies if git.Some? && |git.value| > 0 then {git.value[0].inputBox} else {}
    ensures git.None? ==> outcome == NoGitExtension
    ensures git.Some? && git.value == [] ==> outcome == NoRepository
    ensures git.Some? && git.value != [] ==>
              var repo := git.value[0];
              outcome == Decide(repo.indexChanges != [] || repo.workingTreeChanges != [],
                                LoadConfig(store, None, folders, parse), choose, old(repo.inputBox.value))
    ensures git.Some? && git.value != [] ==>
              git.value[0].inputBox.value == if outcome.Appended? then outcome.message else old(git.value[0].inputBox.value)
  {
    if git.None? {
      return NoGitExtension;
    }
    if |git.value| == 0 {
      return NoRepository;
    }
    outcome := AppendToRepository(git.value[0], store, folders, parse, choose);
  }

  /** The command from the repository on: the change test, the config, the suffix and the write. */
  method AppendToRepository(repo: Repository, store: FileStore, folders: seq<string>,
                            parse: string -> Option<Json>, choose: seq<QuickPickItem> -> Option<nat>)
    returns (outcome: AppendOutcome)
    requires PicksWithinRange(choose)
    modifies repo.inputBox
    ensures outcome == Decide(repo.indexChanges != [] || repo.workingTreeChanges != [],
                              LoadConfig(store, None, folders, parse), choose, old(repo.inputBox.value))
    ensures repo.inputBox.value == if outcome.Appended? then outcome.message else old(repo.inputBox.value)
  {
    if |repo.indexChanges| == 0 && |repo.workingTreeChanges| == 0 {
      return NoChanges;
    }
    var config := LoadConfig(store, None, folders, parse);
    if config.None? {
      return NoValidConfig;
    }
    outcome := AppendSuffix(repo.inputBox, config.value, choose);
  }

  /** The command once a valid config is loaded: choose the suffix, compose, and write the input box. */
  method AppendSuffix(inputBox: InputBox, config: Json, choose: seq<QuickPickItem> -> Option<nat>)
    returns (outcome: AppendOutcome)
    requires ValidateConfig(config).isValid
    requires PicksWithinRange(choose)
    modifies inputBox
    ensures outcome == Decide(true, Some(config), choose, old(inputBox.value))
    ensures inputBox.value == if outcome.Appended? then outcome.message else old(inputBox.value)
  {
    var originalMessage := Trim(inputBox.value);
    var selected := SelectSuffix(config, choose);
    if selected.None? {
      return Cancelled;
    }
    var composition := ComposeMessage(originalMessage, selected.value);
    if composition.Skip? {
      return AlreadySuffixed;
    }
    inputBox.value := composition.text;
    return Appended(composition.text);
  }
}
