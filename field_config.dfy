/** The per-field upload limits (src/FieldConfig.php): parsing a configuration
    array into maximum count and size, allowed MIME types, naming strategy and
    target directory, and the MIME allow-list check. A FieldConfig is never
    changed once built, so it is a value here. */
module FieldConfigs {
  import opened Wrappers
  import opened PhpStrings
  import opened PhpValues
  import opened PathNormalization

  /** The InvalidArgumentException each parser throws. */
  datatype ConfigError = NotAnInt | NotIntOrString | NotAString

  datatype FieldConfig = FieldConfig(
    maxCount: Option<int>,
    maxSize: Option<int>,
    mimeTypes: Value,
    name: string,
    namingStrategy: Value,
    targetDirectory: Option<string>)

  /** parsePositiveInt: nothing for an empty value; a number of at least 1 is kept;
      anything else throws, or gives nothing when invalid values are allowed. */
  function ParsePositiveInt(v: Value, allowInvalid: bool): (r: Result<Option<int>, ConfigError>)
    ensures r.Success? && r.value.Some? ==> IsNumeric(v) && r.value.value == NumericValue(v) && r.value.value >= 1
    ensures r.Failure? <==> !allowInvalid && !Empty(v) && !(IsNumeric(v) && NumericValue(v) >= 1)
    ensures r == Success(None) <==> Empty(v) || (allowInvalid && !(IsNumeric(v) && NumericValue(v) >= 1))
  {
    if Empty(v) then Success(None)
    else if !IsNumeric(v) || NumericValue(v) < 1 then
      (if allowInvalid then Success(None) else Failure(NotAnInt))
    else
      assert IntCast(v) == NumericValue(v) by {
        if v.Str? { IntCastOfIntegerString(v.s); }
      }
      Success(Some(IntCast(v)))
  }

  /** parseSize: nothing for an empty value; an int or a string is cast to int
      (with no check of its sign); anything else throws, or gives nothing when
      invalid values are allowed. */
  function ParseSize(v: Value, allowInvalid: bool): (r: Result<Option<int>, ConfigError>)
    ensures r.Success? && r.value.Some? ==> (v.Int? || v.Str?) && r.value.value == IntCast(v)
    ensures r.Failure? <==> !allowInvalid && !Empty(v) && !v.Int? && !v.Str?
    ensures r == Success(None) <==> Empty(v) || (allowInvalid && !v.Int? && !v.Str?)
  {
    if Empty(v) then Success(None)
    else if !v.Str? && !v.Int? then
      (if allowInvalid then Success(None) else Failure(NotIntOrString))
    else Success(Some(IntCast(v)))
  }

  /** parsePath: nothing for an empty value; a string is normalised; anything else
      throws, or gives nothing when invalid values are allowed. */
  function ParsePath(v: Value, allowInvalid: bool): (r: Result<Option<string>, ConfigError>)
    ensures r.Success? && r.value.Some? ==> v.Str? && Truthy(v.s) && r.value.value == NormalizePath(v.s)
    ensures r.Failure? <==> !allowInvalid && !Empty(v) && !v.Str?
    ensures r == Success(None) <==> Empty(v) || (allowInvalid && !v.Str?)
  {
    if Empty(v) then Success(None)
    else if !v.Str? then
      (if allowInvalid then Success(None) else Failure(NotAString))
    else Success(Some(NormalizePath(v.s)))
  }

  /** `$input[$key] ?? $default` */
  function Get(input: map<string, Value>, key: string, default: Value): (r: Value)
    ensures key !in input ==> r == default
    ensures key in input && !input[key].Null? ==> r == input[key]
  {
    if key in input && !input[key].Null? then input[key] else default
  }

  /** fromArray: each option parsed in turn, the first exception ending it; the
      target directory is parsed without the allowance for invalid values. */
  function FromArray(name: string, input: map<string, Value>, allowInvalid: bool): Result<FieldConfig, ConfigError> {
    var maxCount := ParsePositiveInt(Get(input, "maxcount", Null), allowInvalid);
    if maxCount.Failure? then Failure(maxCount.error)
    else
      var maxSize := ParseSize(Get(input, "maxsize", Null), allowInvalid);
      if maxSize.Failure? then Failure(maxSize.error)
      else
        var targetDirectory := ParsePath(Get(input, "target_directory", Null), false);
        if targetDirectory.Failure? then Failure(targetDirectory.error)
        else Success(FieldConfig(maxCount.value, maxSize.value, Get(input, "mimetypes", Arr([])), name,
                                 Get(input, "naming_strategy", Null), targetDirectory.value))
  }

  /** The three parsers decide whether fromArray throws, and the fields come from
      them; name, MIME list and naming strategy are stored as given. */
  lemma FromArrayFields(name: string, input: map<string, Value>, allowInvalid: bool)
    ensures var r := FromArray(name, input, allowInvalid);
            var count := ParsePositiveInt(Get(input, "maxcount", Null), allowInvalid);
            var size := ParseSize(Get(input, "maxsize", Null), allowInvalid);
            var dir := ParsePath(Get(input, "target_directory", Null), false);
            (r.Success? <==> count.Success? && size.Success? && dir.Success?) &&
            (r.Success? ==>
               r.value.maxCount == count.value && r.value.maxSize == size.value &&
               r.value.targetDirectory == dir.value && r.value.name == name &&
               r.value.mimeTypes == Get(input, "mimetypes", Arr([])) &&
               r.value.namingStrategy == Get(input, "naming_strategy", Null))
  {
  }

  /** A target directory that is not a string always throws, whatever the
      allowance for invalid values. */
  lemma FromArrayRejectsNonStringDirectory(name: string, input: map<string, Value>, allowInvalid: bool)
    requires "target_directory" in input
    requires !Empty(input["target_directory"]) && !input["target_directory"].Str?
    ensures FromArray(name, input, allowInvalid).Failure?
  {
  }

  /** An empty configuration array gives the defaults. */
  lemma FromArrayDefaults(name: string, allowInvalid: bool)
    ensures FromArray(name, map[], allowInvalid) == Success(FieldConfig(None, None, Arr([]), name, Null, None))
  {
  }

  /** A positive count, given as an int or as its decimal string, is read back. */
  lemma ParsePositiveIntOfNat(n: nat, allowInvalid: bool)
    requires n >= 1
    ensures ParsePositiveInt(Int(n), allowInvalid) == Success(Some(n))
    ensures ParsePositiveInt(Str(NatToString(n)), allowInvalid) == Success(Some(n))
  {
    NumeralCountRead(n, allowInvalid);
  }

  lemma NumeralCountRead(n: nat, allowInvalid: bool)
    requires n >= 1
    ensures ParsePositiveInt(Str(NatToString(n)), allowInvalid) == Success(Some(n))
  {
    var s := NatToString(n);
    IntegerStringOfNat(n);
    NonZeroNumeral(n);
    assert IsNumeric(Str(s)) && NumericValue(Str(s)) == n && !Empty(Str(s));
  }

  lemma NonZeroNumeral(n: nat)
    requires n >= 1
    ensures !Empty(Str(NatToString(n)))
  {
    if NatToString(n) == "0" {
      NatToStringInjective(n, 0);
    }
  }

  /** A size, given as a non-zero int or as a decimal string, is read back. */
  lemma ParseSizeOfNat(n: nat, allowInvalid: bool)
    requires n >= 1
    ensures ParseSize(Int(n), allowInvalid) == Success(Some(n))
    ensures ParseSize(Str(NatToString(n)), allowInvalid) == Success(Some(n))
  {
    IntCastStringOfNat(n);
    NonZeroNumeral(n);
  }

  /** A negative count is refused. */
  lemma NegativeCountRejected(i: int)
    requires i < 0
    ensures ParsePositiveInt(Int(i), false) == Failure(NotAnInt)
  {
  }

  /** isMimeTypeAllowed: every type when the list is falsy, else loose membership;
      a truthy list that is not an array makes in_array throw a TypeError. */
  function IsMimeTypeAllowed(config: FieldConfig, mimeType: string): (r: Option<bool>)
    ensures Empty(config.mimeTypes) ==> r == Some(true)
    ensures r.None? <==> !Empty(config.mimeTypes) && !config.mimeTypes.Arr?
    ensures config.mimeTypes.Arr? && r == Some(false) ==> forall k :: 0 <= k < |config.mimeTypes.items| ==>
              config.mimeTypes.items[k] != Str(mimeType)
  {
    if Empty(config.mimeTypes) then Some(true)
    else if !config.mimeTypes.Arr? then None
    else Some(InArray(mimeType, config.mimeTypes.items))
  }

  /** With a non-empty list of type names, a type is allowed exactly when it is
      listed. */
  lemma MimeAllowListIsMembership(config: FieldConfig, mimeType: string)
    requires config.mimeTypes.Arr? && config.mimeTypes.items != []
    requires forall k :: 0 <= k < |config.mimeTypes.items| ==> config.mimeTypes.items[k].Str?
    requires !IsIntegerString(mimeType)
    ensures IsMimeTypeAllowed(config, mimeType) == Some(Str(mimeType) in config.mimeTypes.items)
  {
    InArrayOfStrings(mimeType, config.mimeTypes.items);
  }

  function GetMaxCount(config: FieldConfig): Option<int> {
    config.maxCount
  }

  function GetMaxSize(config: FieldConfig): Option<int> {
    config.maxSize
  }

  function GetName(config: FieldConfig): string {
    config.name
  }

  function GetTargetDirectory(config: FieldConfig): Option<string> {
    config.targetDirectory
  }

  /** getAllowedMimeTypes(): ?array, a TypeError when the stored value is neither. */
  function GetAllowedMimeTypes(config: FieldConfig): (r: Result<Option<seq<Value>>, string>)
    ensures r.Success? <==> config.mimeTypes.Null? || config.mimeTypes.Arr?
    ensures r.Success? && r.value.Some? ==> config.mimeTypes == Arr(r.value.value)
  {
    match config.mimeTypes
    case Null => Success(None)
    case Arr(items) => Success(Some(items))
    case _ => Failure("TypeError")
  }

  /** getNamingStrategy(): ?string, a TypeError when the stored value is neither. */
  function GetNamingStrategy(config: FieldConfig): (r: Result<Option<string>, string>)
    ensures r.Success? <==> config.namingStrategy.Null? || config.namingStrategy.Str?
    ensures r.Success? && r.value.Some? ==> config.namingStrategy == Str(r.value.value)
  {
    match config.namingStrategy
    case Null => Success(None)
    case Str(s) => Success(Some(s))
    case _ => Failure("TypeError")
  }
}
