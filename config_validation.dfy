/**
 * `validateConfig` of src/utils/config.ts. Both validators in the repository
 * apply the same checks in the same order and differ only in what they accept
 * as one element of `appendOptions`; `Validate` is that shared procedure, with
 * the element test and its error as parameters.
 */
module ConfigValidation {
  import opened Wrappers
  import opened Json
  import opened Types

  /** `config.appendOptions` when it is an array, and no options otherwise. */
  function Options(config: Json): seq<Json> {
    match Get(config, "appendOptions")
    case Some(JArr(opts)) => opts
    case _ => []
  }

  /** An option of the current format: a string, or an array whose first two entries are strings. */
  predicate IsOptionShape(option: Json) {
    || option.JStr?
    || (option.JArr? && |option.elems| >= 2 && option.elems[0].JStr? && option.elems[1].JStr?)
  }

  /** The element loop's verdict: every option passes `optionOk`. */
  predicate AllOptions(opts: seq<Json>, optionOk: Json -> bool)
    decreases |opts|
  {
    opts == [] || (optionOk(opts[0]) && AllOptions(opts[1..], optionOk))
  }

  lemma {:induction false} AllOptionsExactly(opts: seq<Json>, optionOk: Json -> bool)
    ensures AllOptions(opts, optionOk) <==> forall i :: 0 <= i < |opts| ==> optionOk(opts[i])
    decreases |opts|
  {
    if opts != [] {
      AllOptionsExactly(opts[1..], optionOk);
      assert forall i :: 1 <= i < |opts| ==> opts[i] == opts[1..][i - 1];
    }
  }

  function Reject(kind: ErrorKind): ValidationResult {
    ValidationResult(false, Localized(kind), None)
  }

  function Accept(config: Json): ValidationResult {
    ValidationResult(true, Empty, Some(config))
  }

  /** The `manual` and `defaultIndex` checks, given the number of options. */
  function CheckManualAndIndex(config: Json, count: int): (r: ValidationResult)
    ensures r.isValid <==> ManualIsBooleanOrAbsent(config) &&
                           match Get(config, "defaultIndex")
                           case None => true
                           case Some(JInt(i)) => 0 <= i < count
                           case Some(_) => false
    ensures !ManualIsBooleanOrAbsent(config) ==> r == Reject(ManualTypeError)
    ensures r.isValid ==> r == Accept(config)
  {
    var manual := Get(config, "manual");
    var index := Get(config, "defaultIndex");
    if manual.Some? && !manual.value.JBool? then Reject(ManualTypeError)
    else if index.Some? && !index.value.JInt? then Reject(DefaultIndexTypeError)
    else if index.Some? && (index.value.i < 0 || index.value.i >= count) then Reject(DefaultIndexRangeError(count - 1))
    else Accept(config)
  }

  /** The validation procedure; the message is empty exactly when the config is valid. */
  function Validate(config: Json, optionOk: Json -> bool, optionError: ErrorKind): (r: ValidationResult)
    ensures r.isValid <==> r.message == Empty
    ensures r.config == if r.isValid then Some(config) else None
    ensures r.isValid ==> |Options(config)| > 0 && forall i :: 0 <= i < |Options(config)| ==> optionOk(Options(config)[i])
  {
    AllOptionsExactly(Options(config), optionOk);
    if !Truthy(config) then Reject(EmptyConfig)
    else match Get(config, "appendOptions")
      case Some(JArr(opts)) =>
        if |opts| == 0 then Reject(OptionsEmpty)
        else if !AllOptions(opts, optionOk) then Reject(optionError)
        else CheckManualAndIndex(config, |opts|)
      case _ => Reject(OptionsNotArray)
  }

  /** `validateConfig` (pair-aware). */
  function ValidateConfig(config: Json): (r: ValidationResult)
    ensures r.isValid ==> r.message == Empty && r.config == Some(config)
    ensures !r.isValid ==> r.message.Localized? && r.config == None
    ensures r.isValid ==> |Options(config)| > 0 && forall i :: 0 <= i < |Options(config)| ==> IsOptionShape(Options(config)[i])
  {
    Validate(config, IsOptionShape, OptionTypeError)
  }

  // ---- What a valid config is, stated without the order of the checks ----

  predicate ManualIsBooleanOrAbsent(config: Json) {
    var manual := Get(config, "manual");
    manual.None? || manual.value.JBool?
  }

  /** `defaultIndex` is absent, or an integer that indexes an option. */
  predicate DefaultIndexInRange(config: Json) {
    match Get(config, "defaultIndex")
    case None => true
    case Some(JInt(i)) => 0 <= i < |Options(config)|
    case Some(_) => false
  }

  /** The documents `Validate` accepts with the element test `optionOk`. */
  predicate Acceptable(config: Json, optionOk: Json -> bool) {
    && Truthy(config)
    && Get(config, "appendOptions").Some? && Get(config, "appendOptions").value.JArr?
    && |Options(config)| > 0
    && (forall i :: 0 <= i < |Options(config)| ==> optionOk(Options(config)[i]))
    && ManualIsBooleanOrAbsent(config)
    && DefaultIndexInRange(config)
  }

  lemma ValidateAcceptsExactly(config: Json, optionOk: Json -> bool, optionError: ErrorKind)
    ensures Validate(config, optionOk, optionError).isValid <==> Acceptable(config, optionOk)
  {
    AllOptionsExactly(Options(config), optionOk);
  }

  /**
   * A document passes `validateConfig` exactly when it is truthy, its
   * `appendOptions` is a non-empty array of strings and string pairs, `manual`
   * is absent or boolean, and `defaultIndex` is absent or an index of an option.
   */
  lemma ValidateConfigAcceptsExactly(config: Json)
    ensures ValidateConfig(config).isValid <==> Acceptable(config, IsOptionShape)
  {
    ValidateAcceptsExactly(config, IsOptionShape, OptionTypeError);
  }

  // ---- The order of the checks ----

  /** The checks, in the order the validator applies them. */
  datatype Check = Present | OptionsArray | OptionsNonEmpty | OptionsWellFormed | ManualBoolean | IndexInteger | IndexInRange

  function Rank(c: Check): nat {
    match c
    case Present => 0
    case OptionsArray => 1
    case OptionsNonEmpty => 2
    case OptionsWellFormed => 3
    case ManualBoolean => 4
    case IndexInteger => 5
    case IndexInRange => 6
  }

  /** Whether `config` meets check `c`, judged on its own. */
  predicate Passes(config: Json, c: Check, optionOk: Json -> bool) {
    match c
    case Present => Truthy(config)
    case OptionsArray => Get(config, "appendOptions").Some? && Get(config, "appendOptions").value.JArr?
    case OptionsNonEmpty => |Options(config)| > 0
    case OptionsWellFormed => forall i :: 0 <= i < |Options(config)| ==> optionOk(Options(config)[i])
    case ManualBoolean => ManualIsBooleanOrAbsent(config)
    case IndexInteger => Get(config, "defaultIndex").None? || Get(config, "defaultIndex").value.JInt?
    case IndexInRange =>
      match Get(config, "defaultIndex")
      case Some(JInt(i)) => 0 <= i < |Options(config)|
      case _ => true
  }

  /** The error each check reports. */
  function FailureKind(config: Json, c: Check, optionError: ErrorKind): ErrorKind {
    match c
    case Present => EmptyConfig
    case OptionsArray => OptionsNotArray
    case OptionsNonEmpty => OptionsEmpty
    case OptionsWellFormed => optionError
    case ManualBoolean => ManualTypeError
    case IndexInteger => DefaultIndexTypeError
    case IndexInRange => DefaultIndexRangeError(|Options(config)| - 1)
  }

  /** `c` fails and every check before it passes. */
  predicate IsFirstFailure(config: Json, c: Check, optionOk: Json -> bool) {
    && !Passes(config, c, optionOk)
    && forall d :: Rank(d) < Rank(c) ==> Passes(config, d, optionOk)
  }

  lemma ValidateReportsFirstFailure(config: Json, optionOk: Json -> bool, optionError: ErrorKind)
    ensures Validate(config, optionOk, optionError).isValid <==> forall c :: Passes(config, c, optionOk)
    ensures forall c :: IsFirstFailure(config, c, optionOk) ==>
              Validate(config, optionOk, optionError).message == Localized(FailureKind(config, c, optionError))
  {
    var r := Validate(config, optionOk, optionError);
    AllOptionsExactly(Options(config), optionOk);
    assert r.isValid <==> forall c :: Passes(config, c, optionOk) by {
      ValidateAcceptsExactly(config, optionOk, optionError);
      if r.isValid {
        forall c ensures Passes(config, c, optionOk) {
        }
      }
      if forall c :: Passes(config, c, optionOk) {
        assert Passes(config, Present, optionOk) && Passes(config, OptionsArray, optionOk);
        assert Passes(config, OptionsNonEmpty, optionOk) && Passes(config, OptionsWellFormed, optionOk);
        assert Passes(config, ManualBoolean, optionOk) && Passes(config, IndexInteger, optionOk);
        assert Passes(config, IndexInRange, optionOk);
      }
    }
    forall c | IsFirstFailure(config, c, optionOk)
      ensures r.message == Localized(FailureKind(config, c, optionError))
    {
      if Rank(c) > 0 { assert Passes(config, Present, optionOk); }
      if Rank(c) > 1 { assert Passes(config, OptionsArray, optionOk); }
      if Rank(c) > 2 { assert Passes(config, OptionsNonEmpty, optionOk); }
      if Rank(c) > 3 { assert Passes(config, OptionsWellFormed, optionOk); }
      if Rank(c) > 4 { assert Passes(config, ManualBoolean, optionOk); }
      if Rank(c) > 5 { assert Passes(config, IndexInteger, optionOk); }
    }
  }

  /**
   * The error `validateConfig` reports is the one of the first check that
   * fails, in the order: empty, not an array, empty array, element type,
   * `manual` type, `defaultIndex` type, `defaultIndex` range.
   */
  lemma ValidateConfigReportsFirstFailure(config: Json)
    ensures ValidateConfig(config).isValid <==> forall c :: Passes(config, c, IsOptionShape)
    ensures forall c :: IsFirstFailure(config, c, IsOptionShape) ==>
              ValidateConfig(config).message == Localized(FailureKind(config, c, OptionTypeError))
  {
    ValidateReportsFirstFailure(config, IsOptionShape, OptionTypeError);
  }

  /** The validator as the source runs it: early returns and a loop over the options. */
  method ValidateConfigStepwise(config: Json) returns (r: ValidationResult)
    ensures r == ValidateConfig(config)
  {
    if !Truthy(config) {
      return Reject(EmptyConfig);
    }
    var appendOptions := Get(config, "appendOptions");
    if appendOptions.None? || !appendOptions.value.JArr? {
      return Reject(OptionsNotArray);
    }
    var opts := appendOptions.value.elems;
    if |opts| == 0 {
      return Reject(OptionsEmpty);
    }
    AllOptionsExactly(opts, IsOptionShape);
    for i := 0 to |opts|
      invariant forall k :: 0 <= k < i ==> IsOptionShape(opts[k])
    {
      var option := opts[i];
      if option.JStr? {
        continue;
      }
      if !option.JArr? || |option.elems| < 2 || !option.elems[0].JStr? || !option.elems[1].JStr? {
        return Reject(OptionTypeError);
      }
    }
    var manual := Get(config, "manual");
    if manual.Some? && !manual.value.JBool? {
      return Reject(ManualTypeError);
    }
    var index := Get(config, "defaultIndex");
    if index.Some? {
      if !index.value.JInt? {
        return Reject(DefaultIndexTypeError);
      }
      if index.value.i < 0 || index.value.i >= |opts| {
        return Reject(DefaultIndexRangeError(|opts| - 1));
      }
    }
    return Accept(config);
  }
}
