/** The scheme registry of FileManager and everything that resolves a URI or a
    path against it: identify, getAbsolutePath, getURI, getRelativePathFrom,
    isPathWithin, getFileUrl, and the SchemeURI value they produce.

    The registry is filled and sorted once by the constructor and never changes
    afterwards, so it is a value here; the constructor is a method whose two loops
    are proved to compute a stable sort by descending working-directory length. */
module FileManagers {
  import opened Wrappers
  import opened PhpStrings
  import opened PathNormalization

  /** FileManager::SCHEME_LOCAL */
  const LocalScheme: string := "file"

  predicate IsAlnum(c: char) {
    'a' <= c <= 'z' || 'A' <= c <= 'Z' || '0' <= c <= '9'
  }

  predicate AllAlnum(s: string) {
    forall k :: 0 <= k < |s| ==> IsAlnum(s[k])
  }

  /** preg_match('@^[a-z0-9]+$@i', name): PCRE's `$` also matches before one final
      newline, so "abc\n" is accepted as well. */
  predicate ValidSchemeName(name: string) {
    (|name| > 0 && AllAlnum(name))
    || (|name| > 1 && name[|name| - 1] == '\n' && AllAlnum(name[..|name| - 1]))
  }

  lemma ValidSchemeNameHasNoColon(name: string)
    requires ValidSchemeName(name)
    ensures name != "" && ':' !in name
  {
    forall k | 0 <= k < |name|
      ensures name[k] != ':'
    {
      if !AllAlnum(name) && k < |name| - 1 {
        assert name[..|name| - 1][k] == name[k];
      }
    }
  }

  /** One registry entry: a scheme and its normalized working directory. */
  datatype SchemeEntry = SchemeEntry(scheme: string, workingDirectory: string)

  /** The class SchemeURI: a path relative to a scheme's working directory. */
  datatype SchemeURI = SchemeURI(scheme: string, relativePath: string, workingDirectory: string) {
    /** SchemeURI::getAbsolutePath */
    function AbsolutePath(): string {
      workingDirectory + "/" + relativePath
    }

    /** SchemeURI::__toString */
    function ToString(): string {
      scheme + "://" + relativePath
    }
  }

  predicate DistinctSchemes(entries: seq<SchemeEntry>) {
    forall i, j :: 0 <= i < j < |entries| ==> entries[i].scheme != entries[j].scheme
  }

  predicate SortedByLength(entries: seq<SchemeEntry>) {
    forall i, j :: 0 <= i < j < |entries| ==> |entries[i].workingDirectory| >= |entries[j].workingDirectory|
  }

  function SchemesOf(entries: seq<SchemeEntry>): set<string> {
    set e | e in entries :: e.scheme
  }

  /** The entries as the constructor stores them, before sorting. */
  function Normalized(entries: seq<SchemeEntry>): (r: seq<SchemeEntry>)
    ensures |r| == |entries|
    ensures forall i :: 0 <= i < |r| ==>
      r[i] == SchemeEntry(entries[i].scheme, NormalizePath(entries[i].workingDirectory))
  {
    if entries == [] then []
    else
      var last := entries[|entries| - 1];
      Normalized(entries[..|entries| - 1]) + [SchemeEntry(last.scheme, NormalizePath(last.workingDirectory))]
  }

  /** Where a stable sort by descending length puts a new last element: after every
      entry at least as long as it. */
  function InsertionPoint(sorted: seq<SchemeEntry>, e: SchemeEntry): (k: nat)
    ensures k <= |sorted|
    ensures forall i :: 0 <= i < k ==> |sorted[i].workingDirectory| >= |e.workingDirectory|
    ensures k < |sorted| ==> |sorted[k].workingDirectory| < |e.workingDirectory|
  {
    if sorted == [] || |sorted[0].workingDirectory| < |e.workingDirectory| then 0
    else 1 + InsertionPoint(sorted[1..], e)
  }

  function Insert(sorted: seq<SchemeEntry>, e: SchemeEntry): seq<SchemeEntry> {
    var k := InsertionPoint(sorted, e);
    sorted[..k] + [e] + sorted[k..]
  }

  /** uasort() with `strlen($b) - strlen($a)`: PHP's sort is stable, so entries of
      equal length keep their insertion order. */
  function SortByLength(entries: seq<SchemeEntry>): seq<SchemeEntry>
    decreases |entries|
  {
    if entries == [] then []
    else Insert(SortByLength(entries[..|entries| - 1]), entries[|entries| - 1])
  }

  lemma InsertIndex(sorted: seq<SchemeEntry>, e: SchemeEntry, i: nat)
    requires i <= |sorted|
    ensures var k := InsertionPoint(sorted, e);
      Insert(sorted, e)[i] == if i < k then sorted[i] else if i == k then e else sorted[i - 1]
  {
  }

  lemma InsertMultiset(sorted: seq<SchemeEntry>, e: SchemeEntry)
    ensures multiset(Insert(sorted, e)) == multiset(sorted) + multiset{e}
  {
    var k := InsertionPoint(sorted, e);
    assert sorted == sorted[..k] + sorted[k..];
  }

  lemma InsertKeepsSorted(sorted: seq<SchemeEntry>, e: SchemeEntry)
    requires SortedByLength(sorted)
    ensures SortedByLength(Insert(sorted, e))
  {
    var k := InsertionPoint(sorted, e);
    var r := Insert(sorted, e);
    forall i, j | 0 <= i < j < |r|
      ensures |r[i].workingDirectory| >= |r[j].workingDirectory|
    {
      InsertIndex(sorted, e, i);
      InsertIndex(sorted, e, j);
      if i == k {
        assert |sorted[k].workingDirectory| >= |sorted[j - 1].workingDirectory|;
      }
    }
  }

  /** The constructor's order: descending by working-directory length, and a
      permutation of what was registered. */
  lemma {:induction false} SortByLengthSorted(entries: seq<SchemeEntry>)
    decreases |entries|
    ensures SortedByLength(SortByLength(entries))
    ensures multiset(SortByLength(entries)) == multiset(entries)
  {
    if entries != [] {
      var init := entries[..|entries| - 1];
      SortByLengthSorted(init);
      InsertKeepsSorted(SortByLength(init), entries[|entries| - 1]);
      InsertMultiset(SortByLength(init), entries[|entries| - 1]);
      assert entries == init + [entries[|entries| - 1]];
    }
  }

  lemma SchemesOfMultiset(a: seq<SchemeEntry>, b: seq<SchemeEntry>)
    requires multiset(a) == multiset(b)
    ensures SchemesOf(a) == SchemesOf(b)
  {
    forall e | e in a ensures e in b {
      assert e in multiset(a);
    }
    forall e | e in b ensures e in a {
      assert e in multiset(b);
    }
  }

  lemma InsertKeepsDistinct(sorted: seq<SchemeEntry>, e: SchemeEntry)
    requires DistinctSchemes(sorted) && e.scheme !in SchemesOf(sorted)
    ensures DistinctSchemes(Insert(sorted, e))
  {
    var k := InsertionPoint(sorted, e);
    var r := Insert(sorted, e);
    forall i, j | 0 <= i < j < |r|
      ensures r[i].scheme != r[j].scheme
    {
      InsertIndex(sorted, e, i);
      InsertIndex(sorted, e, j);
      if i == k {
        assert sorted[j - 1] in sorted;
      } else if j == k {
        assert sorted[i] in sorted;
      }
    }
  }

  lemma {:induction false} SortByLengthDistinct(entries: seq<SchemeEntry>)
    requires DistinctSchemes(entries)
    decreases |entries|
    ensures DistinctSchemes(SortByLength(entries))
  {
    if entries != [] {
      var init := entries[..|entries| - 1];
      var e := entries[|entries| - 1];
      SortByLengthDistinct(init);
      SortByLengthSorted(init);
      SchemesOfMultiset(SortByLength(init), init);
      forall x | x in init ensures x.scheme != e.scheme {
        var i :| 0 <= i < |init| && init[i] == x;
        assert entries[i] == x;
      }
      InsertKeepsDistinct(SortByLength(init), e);
    }
  }

  /** isset($knownSchemes[$scheme]) and the value stored there. */
  function Lookup(entries: seq<SchemeEntry>, scheme: string): (r: Option<string>)
    ensures r.Some? ==> SchemeEntry(scheme, r.value) in entries
    ensures r.None? ==> scheme !in SchemesOf(entries)
  {
    if entries == [] then None
    else if entries[0].scheme == scheme then Some(entries[0].workingDirectory)
    else
      var r := Lookup(entries[1..], scheme);
      assert forall e :: e in entries[1..] ==> e in entries;
      assert r.None? ==> forall e :: e in entries ==> e == entries[0] || e in entries[1..];
      r
  }

  /** With distinct scheme names, looking a scheme up finds its one entry. */
  lemma LookupDistinct(entries: seq<SchemeEntry>, e: SchemeEntry)
    requires DistinctSchemes(entries) && e in entries
    ensures Lookup(entries, e.scheme) == Some(e.workingDirectory)
  {
    var r := Lookup(entries, e.scheme);
    var i :| 0 <= i < |entries| && entries[i] == e;
    var j :| 0 <= j < |entries| && entries[j] == SchemeEntry(e.scheme, r.value);
    assert i == j;
  }

  /** The index of the first entry whose working directory is a string prefix of
      path: substr($uri, 0, strlen($wd)) === $wd, tried in registry order. */
  function FirstPrefixFrom(entries: seq<SchemeEntry>, path: string, from: nat): (r: Option<nat>)
    decreases |entries| - from
    ensures r.Some? ==> (from <= r.value < |entries|
      && Prefix(path, |entries[r.value].workingDirectory|) == entries[r.value].workingDirectory)
    ensures r.Some? ==> forall j :: from <= j < r.value ==> !(entries[j].workingDirectory <= path)
    ensures r.None? ==> forall j :: from <= j < |entries| ==> !(entries[j].workingDirectory <= path)
  {
    if from >= |entries| then None
    else
      var wd := entries[from].workingDirectory;
      PrefixTest(path, wd);
      if Prefix(path, |wd|) == wd then Some(from) else FirstPrefixFrom(entries, path, from + 1)
  }

  /** The body of getRelativePathFrom once both arguments are absolute paths. */
  function RelativeTo(path: string, directory: string): Option<string> {
    if Prefix(path, |directory|) != directory then None
    else Some(LTrim(path[|directory|..], {'/'}))
  }

  /** FileManager, as left by its constructor. */
  datatype FileManager = FileManager(knownSchemes: seq<SchemeEntry>, webroot: Option<string>) {

    predicate Valid() {
      SortedByLength(knownSchemes) && DistinctSchemes(knownSchemes)
    }

    /** FileManager::isKnownScheme */
    predicate IsKnownScheme(scheme: string) {
      Lookup(knownSchemes, scheme).Some?
    }

    /** FileManager::getWorkingDirectory: an unknown scheme throws. */
    function GetWorkingDirectory(scheme: string): (r: Result<string, string>)
      ensures r.Success? <==> IsKnownScheme(scheme)
      ensures r.Success? ==> SchemeEntry(scheme, r.value) in knownSchemes
      ensures r.Failure? ==> r.error == scheme
    {
      match Lookup(knownSchemes, scheme)
      case Some(wd) => Success(wd)
      case None => Failure(scheme)
    }

    /** The dynamic lookup at the end of unsafeIdentify. */
    function DynamicIdentify(path: string): Option<SchemeURI> {
      match FirstPrefixFrom(knownSchemes, path, 0)
      case Some(i) =>
        var e := knownSchemes[i];
        Some(SchemeURI(e.scheme, LTrim(path[|e.workingDirectory|..], {'/'}), e.workingDirectory))
      case None => None
    }

    /** FileManager::unsafeIdentify, on an already normalized URI. */
    function UnsafeIdentify(uri: string): Option<SchemeURI> {
      var scheme := GetScheme(uri);
      if scheme == Some(LocalScheme) then
        // "file://" + rest: a rooted local path, looked up dynamically
        assert OccursAt(uri, "://", 4);
        DynamicIdentify("/" + Trim(uri[7..], {'/'}))
      else if scheme.Some? && Truthy(scheme.value) then
        match Lookup(knownSchemes, scheme.value)
        case Some(wd) => Some(SchemeURI(scheme.value, LTrim(StripScheme(uri), {'/'}), wd))
        case None => None
      else DynamicIdentify(uri)
    }

    /** FileManager::identify */
    function Identify(uri: string): Option<SchemeURI> {
      UnsafeIdentify(NormalizePath(uri))
    }

    /** FileManager::getAbsolutePath */
    function GetAbsolutePath(uri: string): string {
      var rootScheme := if |uri| >= 3 then uri[..|uri| - 3] else "";
      if |uri| >= 3 && uri[|uri| - 3..] == "://" && Truthy(rootScheme) && IsKnownScheme(rootScheme) then
        GetWorkingDirectory(rootScheme).value
      else
        var n := NormalizePath(uri);
        match UnsafeIdentify(n)
        case Some(id) => id.AbsolutePath()
        case None => n
    }

    /** FileManager::getURI */
    function GetURI(filename: string): string {
      var n := NormalizePath(filename);
      match UnsafeIdentify(n)
      case Some(id) => id.ToString()
      case None => n
    }

    /** FileManager::unsafeIsPathWithin: strpos($filename, $directory) === 0. */
    predicate UnsafeIsPathWithin(filename: string, directory: string) {
      Find(filename, directory) == Some(0)
    }

    /** FileManager::isPathWithin */
    predicate IsPathWithin(uri: string, directory: string) {
      UnsafeIsPathWithin(GetAbsolutePath(uri), GetAbsolutePath(directory))
    }

    /** FileManager::getRelativePathFrom */
    function GetRelativePathFrom(uri: string, directory: string): Option<string> {
      RelativeTo(GetAbsolutePath(uri), GetAbsolutePath(directory))
    }

    /** FileManager::getFileUrl */
    function GetFileUrl(filenameOrUri: string): Option<string> {
      match webroot
      case Some(w) => if Truthy(w) then GetRelativePathFrom(filenameOrUri, w) else None
      case None => None
    }
  }

  /** strpos(...) === 0 is exactly a prefix test (an empty directory is a prefix
      of everything). */
  lemma PathWithinIsPrefix(fm: FileManager, filename: string, directory: string)
    ensures fm.UnsafeIsPathWithin(filename, directory) <==> directory <= filename
  {
    if directory <= filename {
      assert OccursAt(filename, directory, 0) by {
        assert filename[0..|directory|] == directory;
      }
    }
  }

  /** On absolute paths, the relative path exists exactly when the directory is a
      prefix, and it is what follows the directory once the separating '/' are
      dropped. */
  lemma RelativeToSplits(path: string, directory: string)
    ensures RelativeTo(path, directory).Some? <==> directory <= path
    ensures RelativeTo(path, directory).Some? ==>
      var rel := RelativeTo(path, directory).value;
      var cut := |path| - |rel|;
      |directory| <= cut <= |path| && path == directory + path[|directory|..cut] + rel
      && forall k :: |directory| <= k < cut ==> path[k] == '/'
  {
    PrefixTest(path, directory);
    if directory <= path {
      RelativeToOfPrefix(path, directory);
      var rel := LTrim(path[|directory|..], {'/'});
      TrimmedTailEnds(path, |directory|);
      LTrimSplit(path, |directory|);
      SplitAt(path, directory, rel, |path| - |rel|);
    }
  }

  lemma RelativeToOfPrefix(path: string, directory: string)
    requires directory <= path
    ensures RelativeTo(path, directory) == Some(LTrim(path[|directory|..], {'/'}))
  {
    PrefixTest(path, directory);
  }

  /** What follows a prefix is a run of '/' and then the trimmed rest. */
  lemma TrimmedTailEnds(path: string, from: nat)
    requires from <= |path|
    ensures var rel := LTrim(path[from..], {'/'});
      from <= |path| - |rel| && path[|path| - |rel|..] == rel
  {
    var tail := path[from..];
    var rel := LTrim(tail, {'/'});
    DropOfDrop(path, from, |tail| - |rel|);
  }

  lemma DropOfDrop(s: string, from: nat, m: nat)
    requires from + m <= |s|
    ensures s[from..][m..] == s[from + m..]
  {
  }

  lemma SplitAt(path: string, d: string, rel: string, cut: nat)
    requires d <= path && |d| <= cut <= |path| && path[cut..] == rel
    ensures path == d + path[|d|..cut] + rel
  {
    assert path == path[..|d|] + path[|d|..cut] + path[cut..];
  }

  lemma LTrimSplit(path: string, from: nat)
    requires from <= |path|
    ensures var rel := LTrim(path[from..], {'/'});
      forall k :: from <= k < |path| - |rel| ==> path[k] == '/'
  {
    var tail := path[from..];
    var rel := LTrim(tail, {'/'});
    assert forall k :: 0 <= k < |tail| - |rel| ==> tail[k] in {'/'};
    assert forall k :: from <= k < |path| - |rel| ==> path[k] == tail[k - from];
  }

  /** getRelativePathFrom yields a path exactly when isPathWithin holds. */
  lemma RelativePathIffWithin(fm: FileManager, uri: string, directory: string)
    ensures fm.GetRelativePathFrom(uri, directory).Some? <==> fm.IsPathWithin(uri, directory)
  {
    var u := fm.GetAbsolutePath(uri);
    var d := fm.GetAbsolutePath(directory);
    RelativeToSplits(u, d);
    PathWithinIsPrefix(fm, u, d);
  }

  /** getFileUrl gives a path exactly when a truthy webroot is configured and the
      file lies within it, and then it is the path relative to the webroot. */
  lemma FileUrlIffWithinWebroot(fm: FileManager, filenameOrUri: string)
    ensures fm.GetFileUrl(filenameOrUri).Some? <==>
              fm.webroot.Some? && Truthy(fm.webroot.value) && fm.IsPathWithin(filenameOrUri, fm.webroot.value)
    ensures fm.GetFileUrl(filenameOrUri).Some? ==>
              fm.GetFileUrl(filenameOrUri) == fm.GetRelativePathFrom(filenameOrUri, fm.webroot.value)
  {
    if fm.webroot.Some? && Truthy(fm.webroot.value) {
      RelativePathIffWithin(fm, filenameOrUri, fm.webroot.value);
    }
  }

  /** unsafeIdentify on "file://rest" looks the rooted path "/" + trim(rest, '/') up
      among the working directories. */
  lemma IdentifyLocalFile(fm: FileManager, rest: string)
    ensures fm.UnsafeIdentify(LocalScheme + "://" + rest) == fm.DynamicIdentify("/" + Trim(rest, {'/'}))
  {
    SchemeRoundTrip(LocalScheme, rest);
    assert (LocalScheme + "://" + rest)[7..] == rest;
  }

  /** An explicit, truthy scheme other than "file": a known scheme yields its
      working directory and the rest without leading '/', an unknown one yields null. */
  lemma IdentifyExplicitScheme(fm: FileManager, scheme: string, rest: string)
    requires ValidSchemeName(scheme) && Truthy(scheme) && scheme != LocalScheme
    ensures fm.UnsafeIdentify(scheme + "://" + rest) ==
      match Lookup(fm.knownSchemes, scheme)
      case Some(wd) => Some(SchemeURI(scheme, LTrim(rest, {'/'}), wd))
      case None => None
  {
    ValidSchemeNameHasNoColon(scheme);
    SchemeRoundTrip(scheme, rest);
  }

  /** For a path without a scheme, identify picks a longest working directory that
      is a string prefix of the path, because the registry is sorted longest first;
      it yields null exactly when no working directory is a prefix. */
  lemma IdentifyLongestPrefix(fm: FileManager, path: string)
    requires fm.Valid() && GetScheme(path).None?
    ensures fm.UnsafeIdentify(path).Some? <==>
      exists e :: e in fm.knownSchemes && e.workingDirectory <= path
    ensures fm.UnsafeIdentify(path).Some? ==>
      var id := fm.UnsafeIdentify(path).value;
      SchemeEntry(id.scheme, id.workingDirectory) in fm.knownSchemes
      && path == id.workingDirectory + path[|id.workingDirectory|..]
      && id.relativePath == LTrim(path[|id.workingDirectory|..], {'/'})
      && forall e :: e in fm.knownSchemes && e.workingDirectory <= path ==>
           |e.workingDirectory| <= |id.workingDirectory|
  {
    assert fm.UnsafeIdentify(path) == fm.DynamicIdentify(path);
    DynamicLongestPrefix(fm, path);
  }

  lemma DynamicLongestPrefix(fm: FileManager, path: string)
    requires fm.Valid()
    ensures fm.DynamicIdentify(path).Some? <==>
      exists e :: e in fm.knownSchemes && e.workingDirectory <= path
    ensures fm.DynamicIdentify(path).Some? ==>
      var id := fm.DynamicIdentify(path).value;
      SchemeEntry(id.scheme, id.workingDirectory) in fm.knownSchemes
      && path == id.workingDirectory + path[|id.workingDirectory|..]
      && id.relativePath == LTrim(path[|id.workingDirectory|..], {'/'})
      && forall e :: e in fm.knownSchemes && e.workingDirectory <= path ==>
           |e.workingDirectory| <= |id.workingDirectory|
  {
    var ks := fm.knownSchemes;
    match FirstPrefixFrom(ks, path, 0)
    case Some(i) =>
      PrefixTest(path, ks[i].workingDirectory);
      PrefixSplit(path, ks[i].workingDirectory);
      FirstPrefixIsLongest(ks, path, i);
    case None =>
      NoPrefixFound(ks, path);
  }

  /** In a registry sorted longest first, the first matching working directory is
      at least as long as any other that matches. */
  lemma FirstPrefixIsLongest(ks: seq<SchemeEntry>, path: string, i: nat)
    requires SortedByLength(ks) && FirstPrefixFrom(ks, path, 0) == Some(i)
    ensures forall e :: e in ks && e.workingDirectory <= path ==>
              |e.workingDirectory| <= |ks[i].workingDirectory|
  {
    forall e | e in ks && e.workingDirectory <= path
      ensures |e.workingDirectory| <= |ks[i].workingDirectory|
    {
      var j :| 0 <= j < |ks| && ks[j] == e;
      assert i <= j;
    }
  }

  lemma NoPrefixFound(ks: seq<SchemeEntry>, path: string)
    requires FirstPrefixFrom(ks, path, 0).None?
    ensures forall e :: e in ks ==> !(e.workingDirectory <= path)
  {
    forall e | e in ks
      ensures !(e.workingDirectory <= path)
    {
      var j :| 0 <= j < |ks| && ks[j] == e;
    }
  }

  /** The string form of an identity identifies back to the same identity: the
      scheme is recognised and the relative path survives the leading-'/' trim. */
  lemma SchemeURIRoundTrip(fm: FileManager, id: SchemeURI)
    requires fm.Valid() && SchemeEntry(id.scheme, id.workingDirectory) in fm.knownSchemes
    requires ValidSchemeName(id.scheme) && Truthy(id.scheme) && id.scheme != LocalScheme
    requires id.relativePath == [] || id.relativePath[0] != '/'
    ensures fm.UnsafeIdentify(id.ToString()) == Some(id)
  {
    IdentifyExplicitScheme(fm, id.scheme, id.relativePath);
    LookupDistinct(fm.knownSchemes, SchemeEntry(id.scheme, id.workingDirectory));
  }

  /** getAbsolutePath("scheme://") is the scheme's working directory. */
  lemma AbsolutePathOfSchemeRoot(fm: FileManager, scheme: string)
    requires Truthy(scheme) && fm.IsKnownScheme(scheme)
    ensures fm.GetAbsolutePath(scheme + "://") == Lookup(fm.knownSchemes, scheme).value
  {
    var u := scheme + "://";
    assert u[..|u| - 3] == scheme && u[|u| - 3..] == "://";
  }

  /** Every identity unsafeIdentify returns is a registry entry with the rest of
      the path, which never starts with '/'. */
  lemma IdentityIsEntry(fm: FileManager, uri: string)
    requires fm.UnsafeIdentify(uri).Some?
    ensures var id := fm.UnsafeIdentify(uri).value;
            SchemeEntry(id.scheme, id.workingDirectory) in fm.knownSchemes &&
            (id.relativePath == [] || id.relativePath[0] != '/')
  {
    var scheme := GetScheme(uri);
    if scheme == Some(LocalScheme) {
      DynamicIsEntry(fm, "/" + Trim(uri[7..], {'/'}));
    } else if scheme.Some? && Truthy(scheme.value) {
    } else {
      DynamicIsEntry(fm, uri);
    }
  }

  lemma DynamicIsEntry(fm: FileManager, path: string)
    requires fm.DynamicIdentify(path).Some?
    ensures var id := fm.DynamicIdentify(path).value;
            SchemeEntry(id.scheme, id.workingDirectory) in fm.knownSchemes &&
            (id.relativePath == [] || id.relativePath[0] != '/')
  {
    var i := FirstPrefixFrom(fm.knownSchemes, path, 0).value;
    assert fm.knownSchemes[i] in fm.knownSchemes;
  }

  /** Scheme names that survive their own string form: accepted by the
      constructor, truthy, and not the local scheme "file". */
  predicate RoundTripSchemes(entries: seq<SchemeEntry>) {
    forall e :: e in entries ==> ValidSchemeName(e.scheme) && Truthy(e.scheme) && e.scheme != LocalScheme
  }

  /** getURI: an identified path comes back as the identity's `scheme://rel`, which
      identifies back to that very identity; any other path comes back normalized. */
  lemma GetURIRoundTrip(fm: FileManager, filename: string)
    requires fm.Valid() && RoundTripSchemes(fm.knownSchemes)
    ensures fm.UnsafeIdentify(NormalizePath(filename)).Some? ==>
      var id := fm.UnsafeIdentify(NormalizePath(filename)).value;
      fm.GetURI(filename) == id.ToString() && fm.UnsafeIdentify(fm.GetURI(filename)) == Some(id)
    ensures fm.UnsafeIdentify(NormalizePath(filename)).None? ==>
      fm.GetURI(filename) == NormalizePath(filename)
  {
    var n := NormalizePath(filename);
    if fm.UnsafeIdentify(n).Some? {
      var id := fm.UnsafeIdentify(n).value;
      IdentityIsEntry(fm, n);
      SchemeURIRoundTrip(fm, id);
    }
  }

  /** The registry of the unit tests, as the constructor stores it. */
  const TestRegistry: seq<SchemeEntry> := [SchemeEntry("private", "/some/private"),
    SchemeEntry("public", "/var/www/html"), SchemeEntry("upload", "/tmp/upload"), SchemeEntry("temporary", "/tmp")]

  /** A file under the private directory is identified as `private://file/is/here.png`. */
  lemma IdentifyPrivateFile(fm: FileManager)
    requires fm.knownSchemes == TestRegistry
    ensures fm.UnsafeIdentify("/some/private/file/is/here.png")
         == Some(SchemeURI("private", "file/is/here.png", "/some/private"))
    ensures fm.UnsafeIdentify("/some/private/file/is/here.png").value.ToString() == "private://file/is/here.png"
  {
    var wd, rel := "/some/private", "file/is/here.png";
    assert wd + "/" + rel == "/some/private/file/is/here.png";
    assert NoDoubleSlash(wd + "/" + rel);
    IdentifyUnderFirstEntry(fm, wd, rel);
    PrivateFileText();
  }

  lemma PrivateFileText()
    ensures SchemeURI("private", "file/is/here.png", "/some/private").ToString() == "private://file/is/here.png"
  {
    assert "private" + "://" + "file/is/here.png" == "private://file/is/here.png";
  }

  /** A path one '/' below the first registry entry's directory, in which no "//"
      occurs, is identified with that entry and the rest of the path. */
  lemma IdentifyUnderFirstEntry(fm: FileManager, wd: string, rel: string)
    requires fm.knownSchemes != [] && fm.knownSchemes[0].workingDirectory == wd
    requires NoDoubleSlash(wd + "/" + rel) && (rel == [] || rel[0] != '/')
    ensures fm.UnsafeIdentify(wd + "/" + rel) == Some(SchemeURI(fm.knownSchemes[0].scheme, rel, wd))
  {
    var path := wd + "/" + rel;
    IdentifyWithoutScheme(fm, path);
    SlashThenRest(wd, rel);
    assert FirstPrefixFrom(fm.knownSchemes, path, 0) == Some(0);
  }

  lemma IdentifyWithoutScheme(fm: FileManager, path: string)
    requires NoDoubleSlash(path)
    ensures fm.UnsafeIdentify(path) == fm.DynamicIdentify(path)
  {
    NoDoubleSlashHasNoScheme(path);
  }

  lemma SlashThenRest(wd: string, rel: string)
    requires rel == [] || rel[0] != '/'
    ensures Prefix(wd + "/" + rel, |wd|) == wd
    ensures LTrim((wd + "/" + rel)[|wd|..], {'/'}) == rel
  {
    var path := wd + "/" + rel;
    PrefixTest(path, wd);
    assert path[|wd|..] == "/" + rel;
    LeadingSlashTrimmed(rel);
  }

  lemma LeadingSlashTrimmed(rel: string)
    requires rel == [] || rel[0] != '/'
    ensures LTrim("/" + rel, {'/'}) == rel
  {
    LTrimStep("/" + rel, {'/'});
    assert ("/" + rel)[1..] == rel;
    LTrimKeeps(rel, {'/'});
  }

  /** The stored registry: every registered scheme maps to its normalized working
      directory, and the entries are ordered longest first. */
  function Registry(schemes: seq<SchemeEntry>): seq<SchemeEntry> {
    SortByLength(Normalized(schemes))
  }

  lemma RegistryContents(schemes: seq<SchemeEntry>)
    requires DistinctSchemes(schemes)
    ensures FileManager(Registry(schemes), None).Valid()
    ensures forall i :: 0 <= i < |schemes| ==>
      Lookup(Registry(schemes), schemes[i].scheme) == Some(NormalizePath(schemes[i].workingDirectory))
    ensures SchemesOf(Registry(schemes)) == SchemesOf(schemes)
  {
    var n := Normalized(schemes);
    assert DistinctSchemes(n);
    SortByLengthSorted(n);
    SortByLengthDistinct(n);
    SchemesOfMultiset(Registry(schemes), n);
    NormalizedSchemes(schemes);
    forall i | 0 <= i < |schemes|
      ensures Lookup(Registry(schemes), schemes[i].scheme) == Some(NormalizePath(schemes[i].workingDirectory))
    {
      RegistryLookup(schemes, i);
    }
  }

  lemma NormalizedSchemes(schemes: seq<SchemeEntry>)
    ensures SchemesOf(Normalized(schemes)) == SchemesOf(schemes)
  {
    var n := Normalized(schemes);
    forall s | s in SchemesOf(schemes) ensures s in SchemesOf(n) {
      var e :| e in schemes && e.scheme == s;
      var i :| 0 <= i < |schemes| && schemes[i] == e;
      assert n[i] in n;
    }
    forall s | s in SchemesOf(n) ensures s in SchemesOf(schemes) {
      var e :| e in n && e.scheme == s;
      var i :| 0 <= i < |n| && n[i] == e;
      assert schemes[i] in schemes;
    }
  }

  lemma RegistryLookup(schemes: seq<SchemeEntry>, i: nat)
    requires DistinctSchemes(schemes) && i < |schemes|
    ensures Lookup(Registry(schemes), schemes[i].scheme) == Some(NormalizePath(schemes[i].workingDirectory))
  {
    var n := Normalized(schemes);
    assert DistinctSchemes(n);
    SortByLengthSorted(n);
    SortByLengthDistinct(n);
    assert n[i] in multiset(n);
    assert n[i] in Registry(schemes);
    LookupDistinct(Registry(schemes), n[i]);
  }

  /** FileManager::__construct: every scheme name is validated in order (the first
      invalid one throws), every working directory is normalized, and the registry
      is sorted by descending working-directory length. */
  method NewFileManager(schemes: seq<SchemeEntry>, webroot: Option<string>)
    returns (r: Result<FileManager, string>)
    requires DistinctSchemes(schemes)
    ensures r.Success? <==> forall i :: 0 <= i < |schemes| ==> ValidSchemeName(schemes[i].scheme)
    ensures r.Failure? ==>
      exists i :: 0 <= i < |schemes| && r.error == schemes[i].scheme && !ValidSchemeName(r.error)
                  && forall k :: 0 <= k < i ==> ValidSchemeName(schemes[k].scheme)
    ensures r.Success? ==> r.value == FileManager(Registry(schemes), webroot)
  {
    var filled: seq<SchemeEntry> := [];
    var i := 0;
    while i < |schemes|
      invariant 0 <= i <= |schemes|
      invariant filled == Normalized(schemes[..i])
      invariant forall k :: 0 <= k < i ==> ValidSchemeName(schemes[k].scheme)
    {
      if !ValidSchemeName(schemes[i].scheme) {
        return Failure(schemes[i].scheme);
      }
      NormalizedSnoc(schemes, i);
      filled := filled + [SchemeEntry(schemes[i].scheme, NormalizePath(schemes[i].workingDirectory))];
      i := i + 1;
    }
    assert schemes[..i] == schemes;
    var sorted := SortEntries(filled);
    return Success(FileManager(sorted, webroot));
  }

  lemma NormalizedSnoc(schemes: seq<SchemeEntry>, i: nat)
    requires i < |schemes|
    ensures Normalized(schemes[..i + 1]) ==
      Normalized(schemes[..i]) + [SchemeEntry(schemes[i].scheme, NormalizePath(schemes[i].workingDirectory))]
  {
    assert schemes[..i + 1][..i] == schemes[..i];
  }

  /** The uasort() call, as a straight insertion sort: each entry goes after every
      entry at least as long as it. */
  method SortEntries(entries: seq<SchemeEntry>) returns (sorted: seq<SchemeEntry>)
    ensures sorted == SortByLength(entries)
    ensures SortedByLength(sorted) && multiset(sorted) == multiset(entries)
  {
    sorted := [];
    var n := 0;
    while n < |entries|
      invariant 0 <= n <= |entries|
      invariant sorted == SortByLength(entries[..n])
    {
      var e := entries[n];
      SortByLengthSorted(entries[..n]);
      var k := FindInsertionPoint(sorted, e);
      assert SortByLength(entries[..n + 1]) == Insert(SortByLength(entries[..n]), e) by {
        assert entries[..n + 1][..n] == entries[..n];
      }
      sorted := sorted[..k] + [e] + sorted[k..];
      n := n + 1;
    }
    assert entries[..n] == entries;
    SortByLengthSorted(entries);
  }

  /** The scan for the first entry shorter than e. */
  method FindInsertionPoint(sorted: seq<SchemeEntry>, e: SchemeEntry) returns (k: nat)
    requires SortedByLength(sorted)
    ensures k == InsertionPoint(sorted, e)
  {
    k := 0;
    while k < |sorted| && |sorted[k].workingDirectory| >= |e.workingDirectory|
      invariant 0 <= k <= |sorted|
      invariant forall m :: 0 <= m < k ==> |sorted[m].workingDirectory| >= |e.workingDirectory|
    {
      k := k + 1;
    }
    InsertionPointUnique(sorted, e, k);
  }

  /** In a sorted registry, the insertion point is the first entry shorter than e. */
  lemma InsertionPointUnique(sorted: seq<SchemeEntry>, e: SchemeEntry, k: nat)
    requires SortedByLength(sorted) && k <= |sorted|
    requires forall m :: 0 <= m < k ==> |sorted[m].workingDirectory| >= |e.workingDirectory|
    requires k < |sorted| ==> |sorted[k].workingDirectory| < |e.workingDirectory|
    ensures InsertionPoint(sorted, e) == k
  {
  }
}
