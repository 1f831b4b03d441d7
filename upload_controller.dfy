/** The request checks of the upload endpoint (src/Controller/UploadController.php):
    the Content-Range header `bytes S-E/T`, the Content-Length it must agree with,
    the X-File-Name header that may arrive base64- and percent-encoded, and the
    size limit of the field's configuration.

    The controller reads a chunk as the bytes from S up to, but not including, E:
    its length is E - S, unlike the inclusive last-byte position of section 4.2
    of RFC 7233. base64_decode (section 4 of RFC 4648) and rawurldecode (section
    2.1 of RFC 3986) are passed in as functions. */
module UploadHeaders {
  import opened Wrappers
  import opened PhpStrings
  import opened PhpValues
  import opened FieldConfigs

  const RangeUnit: string := "bytes "

  /** The three values of a Content-Range header: first byte, end and file size. */
  datatype ContentRange = ContentRange(start: nat, stop: nat, filesize: nat)

  /** The three digit runs `@^bytes (\d+)-(\d+)/(\d+)$@` captures, when it matches.
      The subject is trimmed, so `$` cannot match before a final newline. */
  function MatchRange(h: string): (r: Option<(string, string, string)>)
    ensures r.Some? ==> r.value.0 != [] && IsDigits(r.value.0) && r.value.1 != [] && IsDigits(r.value.1)
                        && r.value.2 != [] && IsDigits(r.value.2)
  {
    if |h| < |RangeUnit| || h[..|RangeUnit|] != RangeUnit then None
    else
      var rest := h[|RangeUnit|..];
      var a := LeadingDigits(rest);
      if a == [] || |a| == |rest| || rest[|a|] != '-' then None
      else
        var rest2 := rest[|a| + 1..];
        var b := LeadingDigits(rest2);
        if b == [] || |b| == |rest2| || rest2[|b|] != '/' then None
        else
          var c := rest2[|b| + 1..];
          if c == [] || !IsDigits(c) then None else Some((a, b, c))
  }

  function RangeText(a: string, b: string, c: string): string {
    RangeUnit + a + "-" + b + "/" + c
  }

  lemma JoinAt(s: string, x: string, sep: char, y: string)
    requires |x| < |s| && s[..|x|] == x && s[|x|] == sep && y == s[|x| + 1..]
    ensures s == x + ([sep] + y)
  {
    assert s == s[..|x|] + ([s[|x|]] + s[|x| + 1..]);
  }

  lemma RangeTextNested(a: string, b: string, c: string)
    ensures RangeText(a, b, c) == RangeUnit + (a + (['-'] + (b + (['/'] + c))))
  {
  }

  lemma RangeTextHead(a: string, b: string, c: string)
    ensures var h := RangeText(a, b, c);
            |RangeUnit| <= |h| && h[..|RangeUnit|] == RangeUnit && h[|RangeUnit|..] == a + (['-'] + (b + (['/'] + c)))
  {
    RangeTextNested(a, b, c);
  }

  /** A digit run followed by a separator: the run is what LeadingDigits takes,
      and the separator and the rest follow it. */
  lemma RunThenSeparator(x: string, sep: char, y: string)
    requires IsDigits(x) && !IsDigit(sep)
    ensures var s := x + ([sep] + y);
            LeadingDigits(s) == x && |x| < |s| && s[|x|] == sep && s[|x| + 1..] == y
  {
    LeadingDigitsAppend(x, [sep] + y);
    var s := x + ([sep] + y);
    assert s[|x| + 1..] == y;
  }

  /** What the pattern captures is the three digit runs of the header. */
  lemma MatchRangeShape(h: string)
    requires MatchRange(h).Some?
    ensures var m := MatchRange(h).value; h == RangeText(m.0, m.1, m.2)
  {
    var m := MatchRange(h).value;
    var rest := h[|RangeUnit|..];
    var rest2 := rest[|m.0| + 1..];
    MatchRangeSeparators(h);
    JoinAt(rest2, m.1, '/', m.2);
    JoinAt(rest, m.0, '-', rest2);
    assert h == h[..|RangeUnit|] + rest;
    RangeTextNested(m.0, m.1, m.2);
  }

  lemma MatchRangeSeparators(h: string)
    requires MatchRange(h).Some?
    ensures var m := MatchRange(h).value;
            var rest := h[|RangeUnit|..];
            var rest2 := rest[|m.0| + 1..];
            h[..|RangeUnit|] == RangeUnit && m.0 == rest[..|m.0|] && |m.0| < |rest| && rest[|m.0|] == '-' &&
            m.1 == rest2[..|m.1|] && |m.1| < |rest2| && rest2[|m.1|] == '/' && m.2 == rest2[|m.1| + 1..]
  {
  }

  /** Three non-empty digit runs written as `bytes a-b/c` are captured back. */
  lemma MatchRangeOfText(a: string, b: string, c: string)
    requires a != [] && IsDigits(a) && b != [] && IsDigits(b) && c != [] && IsDigits(c)
    ensures MatchRange(RangeText(a, b, c)) == Some((a, b, c))
  {
    RangeTextHead(a, b, c);
    RunThenSeparator(a, '-', b + (['/'] + c));
    RunThenSeparator(b, '/', c);
  }

  /** The header matches exactly when it is `bytes ` and three non-empty digit
      runs separated by `-` and `/`; the captures are those runs. */
  lemma MatchRangeIff(h: string, a: string, b: string, c: string)
    ensures MatchRange(h) == Some((a, b, c)) <==>
              a != [] && IsDigits(a) && b != [] && IsDigits(b) && c != [] && IsDigits(c) && h == RangeText(a, b, c)
  {
    if MatchRange(h) == Some((a, b, c)) {
      MatchRangeShape(h);
    }
    if a != [] && IsDigits(a) && b != [] && IsDigits(b) && c != [] && IsDigits(c) && h == RangeText(a, b, c) {
      MatchRangeOfText(a, b, c);
    }
  }

  /** parseRange: the trimmed header must match, and then 0 <= S <= E <= T; any
      other header is denied (None). The sign checks of the source can never
      fire on digit runs; they are kept in the order written. */
  function ParseRange(contentRange: string): (r: Option<ContentRange>)
    ensures r.Some? ==> r.value.start <= r.value.stop <= r.value.filesize
  {
    match MatchRange(Trim(contentRange, Whitespace))
    case None => None
    case Some((a, b, c)) =>
      var start: int := ParseDecimal(a);
      var stop: int := ParseDecimal(b);
      var filesize: int := ParseDecimal(c);
      if filesize < 0 || start < 0 || stop < 0 then None
      else if filesize < start || filesize < stop || stop < start then None
      else Some(ContentRange(start, stop, filesize))
  }

  /** Whatever parseRange accepts is `bytes S-E/T` with S <= E <= T once trimmed. */
  lemma ParseRangeSound(contentRange: string)
    requires ParseRange(contentRange).Some?
    ensures var r := ParseRange(contentRange).value;
            var m := MatchRange(Trim(contentRange, Whitespace));
            m.Some? && Trim(contentRange, Whitespace) == RangeText(m.value.0, m.value.1, m.value.2) &&
            ParseDecimal(m.value.0) == r.start && ParseDecimal(m.value.1) == r.stop &&
            ParseDecimal(m.value.2) == r.filesize && r.start <= r.stop <= r.filesize
  {
    var m := MatchRange(Trim(contentRange, Whitespace));
    MatchRangeIff(Trim(contentRange, Whitespace), m.value.0, m.value.1, m.value.2);
  }

  /** `bytes S-E/T` as the upload widget prints it. */
  function RangeHeader(start: nat, stop: nat, filesize: nat): string {
    RangeText(NatToString(start), NatToString(stop), NatToString(filesize))
  }

  /** A header that starts with `bytes ` and ends in a digit has nothing to trim. */
  lemma RangeTextIsTrimmed(a: string, b: string, c: string)
    requires c != [] && IsDigits(c)
    ensures Trim(RangeText(a, b, c), Whitespace) == RangeText(a, b, c)
  {
    var h := RangeText(a, b, c);
    assert h == (RangeUnit + a + "-" + b + "/") + c;
    assert h[|h| - 1] == c[|c| - 1];
    RTrimKeeps(h, Whitespace);
    LTrimKeeps(h, Whitespace);
  }

  /** A printed range is accepted exactly when S <= E <= T, and then read back. */
  lemma ParseRangeOfHeader(start: nat, stop: nat, filesize: nat)
    ensures ParseRange(RangeHeader(start, stop, filesize))
         == if start <= stop <= filesize then Some(ContentRange(start, stop, filesize)) else None
  {
    var a, b, c := NatToString(start), NatToString(stop), NatToString(filesize);
    RangeTextIsTrimmed(a, b, c);
    MatchRangeIff(RangeText(a, b, c), a, b, c);
    ParseNatToString(start);
    ParseNatToString(stop);
    ParseNatToString(filesize);
  }

  /** (int) of an optional header: a missing header is null, which casts to 0. */
  function HeaderInt(value: Option<string>): int {
    IntCast(if value.Some? then Str(value.value) else Null)
  }

  /** The chunk length E - S must be what Content-Length says. */
  predicate ContentLengthMatches(range: ContentRange, contentLength: Option<string>) {
    HeaderInt(contentLength) == range.stop - range.start
  }

  /** The decimal Content-Length of the chunk is accepted, any other decimal is
      refused, and a missing header passes only for an empty chunk. */
  lemma ContentLengthChecks(range: ContentRange, n: nat)
    ensures ContentLengthMatches(range, Some(NatToString(n))) <==> n == range.stop - range.start
    ensures ContentLengthMatches(range, None) <==> range.start == range.stop
  {
    IntCastStringOfNat(n);
  }

  predicate Base64Char(c: char) {
    'a' <= c <= 'z' || 'A' <= c <= 'Z' || '0' <= c <= '9' || c == '+' || c == '/'
  }

  predicate Base64Body(s: string) {
    s != [] && forall k :: 0 <= k < |s| ==> Base64Char(s[k])
  }

  /** `[a-zA-Z0-9\+/]+={0,2}` matching the whole of `s`. */
  predicate Base64Like(s: string) {
    Base64Body(s)
    || (|s| >= 1 && s[|s| - 1] == '=' && Base64Body(s[..|s| - 1]))
    || (|s| >= 2 && s[|s| - 2..] == "==" && Base64Body(s[..|s| - 2]))
  }

  /** With the `m` flag `^` and `$` also match next to a newline, so the pattern
      `#^[a-zA-Z0-9\+/]+={0,2}$#ims` holds when some line of `s` is base64-like. */
  predicate SomeLineBase64Like(s: string) {
    exists i, j :: 0 <= i <= j <= |s| && (i == 0 || s[i - 1] == '\n') && (j == |s| || s[j] == '\n')
                   && Base64Like(s[i..j])
  }

  /** The condition under which the name is base64-decoded. */
  predicate DecodesBase64(filename: string) {
    (|filename| >= 2 && filename[|filename| - 2..] == "==")
    || ('.' !in filename && SomeLineBase64Like(filename))
  }

  /** cleanupIncommingFilename: an empty name is denied (None); the name is
      base64-decoded when it looks encoded, then percent-decoded. */
  function CleanupFilename(filename: string, base64Decode: string -> string, rawUrlDecode: string -> string)
    : (r: Option<string>)
    ensures r.None? <==> !Truthy(filename)
    ensures r.Some? ==> r.value == rawUrlDecode(if DecodesBase64(filename) then base64Decode(filename) else filename)
  {
    if !Truthy(filename) then None
    else Some(rawUrlDecode(if DecodesBase64(filename) then base64Decode(filename) else filename))
  }

  /** A name that contains a dot and does not end in "==" is only percent-decoded. */
  lemma DottedNameIsNotBase64(filename: string, base64Decode: string -> string, rawUrlDecode: string -> string)
    requires Truthy(filename) && '.' in filename
    requires !(|filename| >= 2 && filename[|filename| - 2..] == "==")
    ensures CleanupFilename(filename, base64Decode, rawUrlDecode) == Some(rawUrlDecode(filename))
  {
  }

  /** A name made of base64 characters, padded with at most two '=', is decoded. */
  lemma EncodedNameIsDecoded(filename: string, base64Decode: string -> string, rawUrlDecode: string -> string)
    requires Base64Like(filename)
    ensures Truthy(filename) || filename == "0"
    ensures Truthy(filename) ==>
              CleanupFilename(filename, base64Decode, rawUrlDecode) == Some(rawUrlDecode(base64Decode(filename)))
  {
    assert filename[0..|filename|] == filename;
    Base64LikeHasNoDot(filename);
  }

  lemma Base64LikeHasNoDot(s: string)
    requires Base64Like(s)
    ensures '.' !in s
  {
    forall k | 0 <= k < |s|
      ensures s[k] != '.'
    {
      if Base64Body(s) {
        assert Base64Char(s[k]);
      } else if |s| >= 1 && s[|s| - 1] == '=' && Base64Body(s[..|s| - 1]) {
        if k < |s| - 1 {
          assert s[..|s| - 1][k] == s[k];
        }
      } else if k < |s| - 2 {
        assert s[..|s| - 2][k] == s[k];
      } else {
        assert s[|s| - 2..][k - (|s| - 2)] == s[k];
      }
    }
  }

  /** Because of the `m` flag one base64-like line is enough: a dotless name
      whose last line looks encoded is decoded whatever its first line holds. */
  lemma OneLineIsEnough(first: string, last: string)
    requires '.' !in first && '.' !in last && Base64Like(last)
    ensures DecodesBase64(first + "\n" + last)
  {
    var s := first + "\n" + last;
    var i := |first| + 1;
    assert s[i - 1] == '\n';
    assert s[i..|s|] == last;
    assert '.' !in s by {
      forall k | 0 <= k < |s|
        ensures s[k] != '.'
      {
        if k < |first| {
          assert s[k] == first[k];
        } else if k > |first| {
          assert s[k] == last[k - i];
        }
      }
    }
  }

  /** validateUploadedFile: a message (true) exactly when the size is non-zero,
      a non-zero maximum is configured, and the size is above it. */
  predicate TooLarge(config: FieldConfig, filesize: int) {
    filesize != 0 && GetMaxSize(config).Some? && GetMaxSize(config).value != 0 && GetMaxSize(config).value < filesize
  }

  /** A file within a positive maximum, or any file when no maximum is set, is
      never refused; a negative maximum refuses every non-empty file. */
  lemma TooLargeCases(config: FieldConfig, filesize: nat)
    ensures GetMaxSize(config).None? ==> !TooLarge(config, filesize)
    ensures GetMaxSize(config).Some? && 0 < GetMaxSize(config).value ==>
              (TooLarge(config, filesize) <==> GetMaxSize(config).value < filesize)
    ensures GetMaxSize(config).Some? && GetMaxSize(config).value < 0 ==>
              (TooLarge(config, filesize) <==> filesize != 0)
  {
  }

  /** The outcome of the checks upload() makes before it writes: access denied,
      the size message, or the decoded name, range, chunk length and the field's
      configuration when a field was named. */
  datatype Verdict = Denied | Refused | Proceed(filename: string, range: ContentRange, length: nat,
                                                config: Option<FieldConfig>)

  /** upload() once the name is decoded and the range parsed (None when either
      was refused), up to the write. `fieldConfig` is what getFieldConfig()
      returns for `fieldName`; it is consulted only when the field name is truthy. */
  function Decide(filename: Option<string>, range: Option<ContentRange>, contentLength: Option<string>,
                  tokenValid: bool, fieldName: string, fieldConfig: Option<FieldConfig>): Verdict
    requires range.Some? ==> range.value.start <= range.value.stop
  {
    if filename.None? || range.None? then Denied
    else if !ContentLengthMatches(range.value, contentLength) then Denied
    else if !tokenValid then Denied
    else if !Truthy(fieldName) then Proceed(filename.value, range.value, range.value.stop - range.value.start, None)
    else if fieldConfig.None? then Denied
    else if TooLarge(fieldConfig.value, range.value.filesize) then Refused
    else Proceed(filename.value, range.value, range.value.stop - range.value.start, fieldConfig)
  }

  /** upload() up to the write, from the raw headers. */
  function UploadChecks(fileName: string, contentRange: string, contentLength: Option<string>,
                        tokenValid: bool, fieldName: string, fieldConfig: Option<FieldConfig>,
                        base64Decode: string -> string, rawUrlDecode: string -> string): Verdict
  {
    Decide(CleanupFilename(fileName, base64Decode, rawUrlDecode), ParseRange(contentRange), contentLength,
           tokenValid, fieldName, fieldConfig)
  }

  /** A chunk proceeds to the write exactly when every check passes, and then
      carries the decoded name, the parsed range, a length equal to
      Content-Length and the field's configuration; the size message comes
      only after every access check has passed. */
  lemma UploadChecksIff(filename: Option<string>, range: Option<ContentRange>, contentLength: Option<string>,
                        tokenValid: bool, fieldName: string, fieldConfig: Option<FieldConfig>)
    requires range.Some? ==> range.value.start <= range.value.stop
    ensures var v := Decide(filename, range, contentLength, tokenValid, fieldName, fieldConfig);
            var admitted := filename.Some? && range.Some? && ContentLengthMatches(range.value, contentLength) &&
                            tokenValid && (Truthy(fieldName) ==> fieldConfig.Some?);
            (v.Proceed? <==> admitted && (Truthy(fieldName) ==> !TooLarge(fieldConfig.value, range.value.filesize))) &&
            (v.Refused? <==> admitted && Truthy(fieldName) && TooLarge(fieldConfig.value, range.value.filesize)) &&
            (v.Proceed? ==>
               filename == Some(v.filename) && range == Some(v.range) && v.length == HeaderInt(contentLength) &&
               v.config == (if Truthy(fieldName) then fieldConfig else None))
  {
  }

  /** An empty file passes every header check: `bytes 0-0/0` with no
      Content-Length is a chunk of length 0 into a file of size 0. */
  lemma EmptyUploadAccepted()
    ensures ParseRange(RangeHeader(0, 0, 0)) == Some(ContentRange(0, 0, 0))
    ensures ContentLengthMatches(ContentRange(0, 0, 0), None)
  {
    ParseRangeOfHeader(0, 0, 0);
  }
}
