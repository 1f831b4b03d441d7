/** The request checks of the older upload endpoint (Controller/UploadController.php).
    It reads the same headers as module UploadHeaders, but refuses empty chunks,
    validates the token through the older session store, and reads the size limit
    by indexing the field's configuration as if it were an array. */
module LegacyUploadHeaders {
  import opened Wrappers
  import opened PhpStrings
  import opened PhpValues
  import opened FieldConfigs
  import opened SessionHandlers
  import opened LegacySessionHandlers
  import opened UploadHeaders

  /** parseRange as written. The empty-chunk test compares the captured digit
      runs as strings, so `5-05` passes it although both ends are 5. */
  function ParseRangeAsWritten(contentRange: string): (r: Option<ContentRange>)
    ensures r.Some? ==> r.value.start <= r.value.stop <= r.value.filesize
  {
    match MatchRange(Trim(contentRange, Whitespace))
    case None => None
    case Some((a, b, c)) =>
      var start: int := ParseDecimal(a);
      var stop: int := ParseDecimal(b);
      var filesize: int := ParseDecimal(c);
      if filesize < 0 || start < 0 || stop < 0 then None
      else if filesize < start || filesize < stop || stop < start then None
      else if a == b then None
      else Some(ContentRange(start, stop, filesize))
  }

  /** parseRange as evidently intended: a zero-sized chunk is refused whatever
      digits spell its ends. */
  function ParseRange(contentRange: string): (r: Option<ContentRange>)
    ensures r.Some? ==> r.value.start < r.value.stop <= r.value.filesize
  {
    match UploadHeaders.ParseRange(contentRange)
    case None => None
    case Some(range) => if range.start == range.stop then None else Some(range)
  }

  /** The corrected check accepts exactly the ranges of the current endpoint
      that are not empty, and never a range the written check refuses. */
  lemma ParseRangeRefinesAsWritten(contentRange: string)
    ensures ParseRange(contentRange).Some? <==>
              UploadHeaders.ParseRange(contentRange).Some? && UploadHeaders.ParseRange(contentRange).value.start
                                                             != UploadHeaders.ParseRange(contentRange).value.stop
    ensures ParseRange(contentRange).Some? ==> ParseRangeAsWritten(contentRange) == ParseRange(contentRange)
    ensures ParseRangeAsWritten(contentRange).Some? ==>
              UploadHeaders.ParseRange(contentRange) == ParseRangeAsWritten(contentRange)
  {
  }

  /** On a range printed without leading zeros both readings agree. */
  lemma {:induction false} PrintedRangesAgree(start: nat, stop: nat, filesize: nat)
    ensures ParseRangeAsWritten(RangeHeader(start, stop, filesize)) == ParseRange(RangeHeader(start, stop, filesize))
  {
    var h := RangeHeader(start, stop, filesize);
    var a, b, c := NatToString(start), NatToString(stop), NatToString(filesize);
    RangeTextIsTrimmed(a, b, c);
    MatchRangeOfText(a, b, c);
    AsWrittenDropsEqualRuns(h);
    ParseRangeOfHeader(start, stop, filesize);
    if a == b {
      NatToStringInjective(start, stop);
    }
  }

  /** The written check is the current endpoint's, except that it refuses a
      header whose first two digit runs are the same string. */
  lemma AsWrittenDropsEqualRuns(h: string)
    ensures var m := MatchRange(Trim(h, Whitespace));
            ParseRangeAsWritten(h) == if m.Some? && m.value.0 == m.value.1 then None else UploadHeaders.ParseRange(h)
  {
  }

  /** A leading zero on the end position lets an empty chunk through the check
      as written: `bytes n-0n/t` is read as the chunk [n, n), which the corrected
      check refuses. */
  lemma {:induction false} EmptyChunkSlipsThrough(n: nat, filesize: nat)
    requires n <= filesize
    ensures var h := RangeText(NatToString(n), "0" + NatToString(n), NatToString(filesize));
            ParseRangeAsWritten(h) == Some(ContentRange(n, n, filesize)) && ParseRange(h) == None
  {
    var a, b, c := NatToString(n), "0" + NatToString(n), NatToString(filesize);
    assert Zeros(1) == "0";
    ZeroPaddingKeepsValue(a, 1);
    ParseNatToString(n);
    ParseNatToString(filesize);
    assert IsDigits(b) by {
      assert forall k :: 0 < k < |b| ==> b[k] == a[k - 1];
    }
    assert a != b by {
      assert |a| != |b|;
    }
    RangeTextIsTrimmed(a, b, c);
    MatchRangeOfText(a, b, c);
  }

  /** What validateUploadedFile ends in: no message, access denied, the
      size-limit message, or an error. */
  datatype Validation = Pass | Deny | Message | Crash(error: string)

  /** validateUploadedFile. `tokenCheck` is what isTokenValid() answered, an error
      included, and `fieldConfig` what getFieldConfig() returned. The older
      session store hands back a FieldConfig object, and reading
      `$options['maxSize']` from an object that is not an array throws, so a
      named field with a non-zero file size ends in an error rather than a
      size check. */
  function ValidateUploadedFile(tokenCheck: Result<bool, string>, fieldName: string,
                                fieldConfig: Option<FieldConfig>, filesize: int): (r: Validation)
    ensures r.Pass? <==> tokenCheck == Success(true) && (Truthy(fieldName) ==> fieldConfig.Some? && filesize == 0)
    ensures r.Deny? <==> tokenCheck == Success(false) || (tokenCheck == Success(true) && Truthy(fieldName) && fieldConfig.None?)
    ensures !r.Message?
  {
    if tokenCheck.Failure? then Crash(tokenCheck.error)
    else if !tokenCheck.value then Deny
    else if Truthy(fieldName) then
      if fieldConfig.None? then Deny
      else if filesize != 0 then Crash("Error: cannot use object of type FieldConfig as array")
      else Pass
    else Pass
  }

  /** validateUploadedFile as evidently intended: the limit is read through
      getMaxSize(), and the message is returned when a non-zero file is above a
      non-zero limit, the rule of the current endpoint. */
  function ValidateUploadedFileIntended(tokenCheck: Result<bool, string>, fieldName: string,
                                        fieldConfig: Option<FieldConfig>, filesize: int): (r: Validation)
    ensures r.Pass? <==> tokenCheck == Success(true) &&
                         (Truthy(fieldName) ==> fieldConfig.Some? && !TooLarge(fieldConfig.value, filesize))
    ensures r.Message? <==> tokenCheck == Success(true) && Truthy(fieldName) && fieldConfig.Some? &&
                            filesize != 0 && GetMaxSize(fieldConfig.value).Some? &&
                            GetMaxSize(fieldConfig.value).value != 0 && GetMaxSize(fieldConfig.value).value < filesize
    ensures r.Deny? <==> tokenCheck == Success(false) || (tokenCheck == Success(true) && Truthy(fieldName) && fieldConfig.None?)
    ensures r.Crash? <==> tokenCheck.Failure?
  {
    if tokenCheck.Failure? then Crash(tokenCheck.error)
    else if !tokenCheck.value then Deny
    else if Truthy(fieldName) then
      if fieldConfig.None? then Deny
      else if TooLarge(fieldConfig.value, filesize) then Message
      else Pass
    else Pass
  }

  /** The two readings differ only where the written one throws on the array
      read: a named, configured field with a non-zero file size, which the
      intended one passes or answers with the size message. */
  lemma ValidationAsWrittenVsIntended(tokenCheck: Result<bool, string>, fieldName: string,
                                      fieldConfig: Option<FieldConfig>, filesize: int)
    ensures var w := ValidateUploadedFile(tokenCheck, fieldName, fieldConfig, filesize);
            var i := ValidateUploadedFileIntended(tokenCheck, fieldName, fieldConfig, filesize);
            w != i <==> tokenCheck == Success(true) && Truthy(fieldName) && fieldConfig.Some? && filesize != 0
    ensures var i := ValidateUploadedFileIntended(tokenCheck, fieldName, fieldConfig, filesize);
            ValidateUploadedFile(tokenCheck, fieldName, fieldConfig, filesize) != i ==> i.Pass? || i.Message?
  {
    if tokenCheck == Success(true) && Truthy(fieldName) && fieldConfig.Some? && filesize == 0 {
      assert !TooLarge(fieldConfig.value, filesize);
    }
  }

  /** The outcome of uploadAction() up to the write. */
  datatype LegacyVerdict = Forbidden | Oversized | Failed(error: string) | Accepted(filename: string, range: ContentRange, length: nat)

  /** uploadAction() once the name is decoded, the range parsed (None when either
      was refused) and the file validated, up to the write. The validation is
      consulted only when the name, the range and the length passed. */
  function Decide(filename: Option<string>, range: Option<ContentRange>, contentLength: Option<string>,
                  validation: Validation): LegacyVerdict
    requires range.Some? ==> range.value.start <= range.value.stop
  {
    if filename.None? || range.None? then Forbidden
    else if !ContentLengthMatches(range.value, contentLength) then Forbidden
    else match validation
      case Deny => Forbidden
      case Message => Oversized
      case Crash(error) => Failed(error)
      case Pass => Accepted(filename.value, range.value, range.value.stop - range.value.start)
  }

  /** uploadAction() as written, once the name is decoded and the range parsed. */
  function DecideAsWritten(filename: Option<string>, range: Option<ContentRange>, contentLength: Option<string>,
                           tokenCheck: Result<bool, string>, fieldName: string,
                           fieldConfig: Option<FieldConfig>): LegacyVerdict
    requires range.Some? ==> range.value.start <= range.value.stop
  {
    var filesize := if range.Some? then range.value.filesize else 0;
    Decide(filename, range, contentLength, ValidateUploadedFile(tokenCheck, fieldName, fieldConfig, filesize))
  }

  /** uploadAction() up to the write, from the raw headers. */
  function UploadChecksAsWritten(fileName: string, contentRange: string, contentLength: Option<string>,
                                 tokenCheck: Result<bool, string>, fieldName: string,
                                 fieldConfig: Option<FieldConfig>,
                                 base64Decode: string -> string, rawUrlDecode: string -> string): LegacyVerdict
  {
    DecideAsWritten(CleanupFilename(fileName, base64Decode, rawUrlDecode), ParseRangeAsWritten(contentRange),
                    contentLength, tokenCheck, fieldName, fieldConfig)
  }

  /** A chunk proceeds exactly when its name is given, its range and length are
      coherent and the token check answers yes; for a named field the file must
      moreover be empty, which only `bytes 0-00/0` and the like achieve. */
  lemma UploadChecksAsWrittenIff(filename: Option<string>, range: Option<ContentRange>, contentLength: Option<string>,
                                 tokenCheck: Result<bool, string>, fieldName: string,
                                 fieldConfig: Option<FieldConfig>)
    requires range.Some? ==> range.value.start <= range.value.stop <= range.value.filesize
    ensures var v := DecideAsWritten(filename, range, contentLength, tokenCheck, fieldName, fieldConfig);
            (v.Accepted? <==>
               filename.Some? && range.Some? && ContentLengthMatches(range.value, contentLength) &&
               tokenCheck == Success(true) && (Truthy(fieldName) ==> fieldConfig.Some? && range.value.filesize == 0)) &&
            (v.Accepted? ==>
               filename == Some(v.filename) && range == Some(v.range) && v.length == HeaderInt(contentLength) &&
               (Truthy(fieldName) ==> v.range == ContentRange(0, 0, 0)))
  {
    var filesize := if range.Some? then range.value.filesize else 0;
    DecideCases(filename, range, contentLength, ValidateUploadedFile(tokenCheck, fieldName, fieldConfig, filesize));
  }

  /** With the older session store's token check as written, no chunk ever
      reaches the write: before a token exists every request is denied, and
      afterwards the check throws. */
  lemma NoUploadProceeds(data: map<string, SessionValue>, token: string, fileName: string, contentRange: string,
                         contentLength: Option<string>, fieldName: string, fieldConfig: Option<FieldConfig>,
                         base64Decode: string -> string, rawUrlDecode: string -> string)
    ensures !UploadChecksAsWritten(fileName, contentRange, contentLength, TokenCheckAsWritten(data, token),
                                   fieldName, fieldConfig, base64Decode, rawUrlDecode).Accepted?
  {
    TokenCheckAsWrittenNeverAccepts(data, token);
  }

  /** uploadAction() up to the write as evidently intended: the empty-chunk test
      compares the positions, the token is checked against the stored one, and
      the size limit is read through getMaxSize(). */
  function UploadChecksIntended(fileName: string, contentRange: string, contentLength: Option<string>,
                                data: map<string, SessionValue>, token: string, fieldName: string,
                                fieldConfig: Option<FieldConfig>,
                                base64Decode: string -> string, rawUrlDecode: string -> string): LegacyVerdict
  {
    var range := ParseRange(contentRange);
    var filesize := if range.Some? then range.value.filesize else 0;
    Decide(CleanupFilename(fileName, base64Decode, rawUrlDecode), range, contentLength,
           ValidateUploadedFileIntended(Success(TokenValid(data, token)), fieldName, fieldConfig, filesize))
  }

  /** With the three corrections a chunk proceeds exactly when its name is given,
      its range is a non-empty chunk whose length the header states, the token is
      the stored one and, for a named field, a configuration exists and the file
      is within its limit; a file above the limit gets the size message. */
  lemma UploadChecksIntendedIff(fileName: string, contentRange: string, contentLength: Option<string>,
                                data: map<string, SessionValue>, token: string, fieldName: string,
                                fieldConfig: Option<FieldConfig>,
                                base64Decode: string -> string, rawUrlDecode: string -> string)
    ensures var v := UploadChecksIntended(fileName, contentRange, contentLength, data, token, fieldName,
                                          fieldConfig, base64Decode, rawUrlDecode);
            var range := ParseRange(contentRange);
            var admitted := Truthy(fileName) && range.Some? && ContentLengthMatches(range.value, contentLength) &&
                            TokenValid(data, token) && (Truthy(fieldName) ==> fieldConfig.Some?);
            (v.Accepted? <==> admitted && (Truthy(fieldName) ==> !TooLarge(fieldConfig.value, range.value.filesize))) &&
            (v.Oversized? <==> admitted && Truthy(fieldName) && TooLarge(fieldConfig.value, range.value.filesize)) &&
            !v.Failed? &&
            (v.Accepted? ==> range == Some(v.range) && v.range.start < v.range.stop && 0 < v.length)
  {
    var filename := CleanupFilename(fileName, base64Decode, rawUrlDecode);
    var range := ParseRange(contentRange);
    var filesize := if range.Some? then range.value.filesize else 0;
    var check := ValidateUploadedFileIntended(Success(TokenValid(data, token)), fieldName, fieldConfig, filesize);
    DecideCases(filename, range, contentLength, check);
  }

  /** Decide by outcome: each verdict comes from one validation outcome once the
      name, range and length have passed. */
  lemma DecideCases(filename: Option<string>, range: Option<ContentRange>, contentLength: Option<string>,
                    validation: Validation)
    requires range.Some? ==> range.value.start <= range.value.stop
    ensures var v := Decide(filename, range, contentLength, validation);
            var passed := filename.Some? && range.Some? && ContentLengthMatches(range.value, contentLength);
            (v.Accepted? <==> passed && validation.Pass?) && (v.Oversized? <==> passed && validation.Message?) &&
            (v.Failed? <==> passed && validation.Crash?) &&
            (v.Accepted? ==> filename == Some(v.filename) && range == Some(v.range) &&
                             v.length == v.range.stop - v.range.start)
  {
  }
}
