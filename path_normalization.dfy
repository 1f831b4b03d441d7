/** The purely lexical part of FileManager: splitting off a `scheme://` prefix and
    normalizing a path without touching the filesystem.

    normalizePath rewrites its input with two PCRE substitutions. Each is modelled
    as a left-to-right scanner that reproduces PCRE's leftmost, greedy matching,
    including `$`, which (without the D modifier) also matches just before a final
    newline. */
module PathNormalization {
  import opened Wrappers
  import opened PhpStrings

  /** Index of the first "://" when that index is > 0 (strpos() used as a truth value). */
  function SchemeSeparator(uri: string): (r: Option<nat>)
    ensures r.Some? ==> 0 < r.value && OccursAt(uri, "://", r.value)
    ensures r.Some? ==> forall k :: 0 <= k < r.value ==> !OccursAt(uri, "://", k)
  {
    match Find(uri, "://")
    case Some(p) => if p > 0 then Some(p) else None
    case None => None
  }

  /** FileManager::getScheme */
  function GetScheme(uri: string): Option<string> {
    match SchemeSeparator(uri)
    case Some(p) => Some(uri[..p])
    case None => None
  }

  /** FileManager::stripScheme */
  function StripScheme(uri: string): string {
    match SchemeSeparator(uri)
    case Some(p) => uri[p + 3..]
    case None => uri
  }

  /** getScheme and stripScheme cut the URI at the first "://", and only when it is
      not at index 0; otherwise there is no scheme and the URI is kept whole. */
  lemma SchemeSplit(uri: string)
    ensures GetScheme(uri).Some? ==>
      var sch := GetScheme(uri).value;
      sch != "" && uri == sch + "://" + StripScheme(uri)
      && forall k :: 0 <= k < |sch| ==> !OccursAt(uri, "://", k)
    ensures GetScheme(uri).None? ==> StripScheme(uri) == uri
    ensures GetScheme(uri).None? ==> forall k :: 0 < k ==> !OccursAt(uri, "://", k) || OccursAt(uri, "://", 0)
  {
    match Find(uri, "://")
    case Some(p) =>
      if p > 0 {
        assert uri[p..p + 3] == "://";
        assert uri == uri[..p] + uri[p..p + 3] + uri[p + 3..];
      }
    case None =>
  }

  /** A scheme name without ':' followed by "://" is recognized exactly. */
  lemma {:induction false} SchemeRoundTrip(sch: string, rest: string)
    requires sch != "" && ':' !in sch
    ensures GetScheme(sch + "://" + rest) == Some(sch)
    ensures StripScheme(sch + "://" + rest) == rest
  {
    var u := sch + "://" + rest;
    assert OccursAt(u, "://", |sch|) by {
      assert u[|sch|..|sch| + 3] == "://";
    }
    forall k | 0 <= k < |sch|
      ensures !OccursAt(u, "://", k)
    {
      assert u[k] == sch[k];
    }
    match Find(u, "://")
    case Some(p) =>
      assert p == |sch|;
      assert u[..p] == sch && u[p + 3..] == rest;
    case None =>
      assert false;
  }

  /** PCRE `$` without the D modifier. */
  predicate AtEnd(s: string, j: nat) {
    j == |s| || (j + 1 == |s| && s[j] == '\n')
  }

  /** How many "/." pairs follow one another from index i. */
  function DotPairs(s: string, i: nat): (k: nat)
    requires i <= |s|
    decreases |s| - i
    ensures i + 2 * k <= |s|
  {
    if i + 1 < |s| && s[i] == '/' && s[i + 1] == '.' then 1 + DotPairs(s, i + 2) else 0
  }

  /** preg_replace('@^\./|(/\.)+/|/\.$@', '/', s[i..]) with the scan resumed at i. */
  function DotScan(s: string, i: nat): string
    decreases |s| - i
  {
    if i >= |s| then ""
    else if i == 0 && |s| >= 2 && s[0] == '.' && s[1] == '/' then "/" + DotScan(s, 2)
    else if s[i] == '/' then
      var k := DotPairs(s, i);
      // (/\.)+/ : greedy repetition, then one backtracking step if needed
      if k >= 1 && i + 2 * k < |s| && s[i + 2 * k] == '/' then "/" + DotScan(s, i + 2 * k + 1)
      else if k >= 2 then "/" + DotScan(s, i + 2 * k - 1)
      // /\.$
      else if k == 1 && AtEnd(s, i + 2) then "/" + DotScan(s, i + 2)
      else [s[i]] + DotScan(s, i + 1)
    else [s[i]] + DotScan(s, i + 1)
  }

  predicate NoDoubleSlash(s: string) {
    forall k :: 0 <= k < |s| - 1 ==> !(s[k] == '/' && s[k + 1] == '/')
  }

  /** preg_replace('@//+@', '/', s) */
  function CollapseSlashes(s: string): (r: string)
    ensures |r| <= |s|
    ensures |s| > 0 ==> |r| > 0 && r[0] == s[0]
    ensures NoDoubleSlash(r)
  {
    if |s| <= 1 then s
    else if s[0] == '/' && s[1] == '/' then CollapseSlashes(s[1..])
    else [s[0]] + CollapseSlashes(s[1..])
  }

  /** First index at or after i holding '/', or |s|. */
  function SegmentEnd(s: string, i: nat): (j: nat)
    requires i <= |s|
    decreases |s| - i
    ensures i <= j <= |s| && (j < |s| ==> s[j] == '/')
  {
    if i == |s| || s[i] == '/' then i else SegmentEnd(s, i + 1)
  }

  /** First index at or after i not holding '/', or |s|. */
  function SlashesEnd(s: string, i: nat): (j: nat)
    requires i <= |s|
    decreases |s| - i
    ensures i <= j <= |s|
  {
    if i == |s| || s[i] != '/' then i else SlashesEnd(s, i + 1)
  }

  /** The end of a match of `[^/]+/+\.\.(/+|$)` starting at i, if there is one. */
  function ParentMatch(s: string, i: nat): (r: Option<nat>)
    requires i < |s|
    ensures r.Some? ==> i + 4 <= r.value <= |s|
  {
    var j := SegmentEnd(s, i);
    var k := SlashesEnd(s, j);
    if s[i] != '/' && j < |s| && k + 2 <= |s| && s[k] == '.' && s[k + 1] == '.' then
      if k + 2 < |s| && s[k + 2] == '/' then Some(SlashesEnd(s, k + 2))
      else if AtEnd(s, k + 2) then Some(k + 2)
      else None
    else None
  }

  /** preg_replace('@[^/]+/+\.\.(/+|$)@', '$2', s[i..], -1, $count): every match is
      deleted, because group 2 does not exist; the second component is $count. */
  function ParentScan(s: string, i: nat): (r: (string, nat))
    requires i <= |s|
    decreases |s| - i
    ensures |r.0| <= |s| - i
    ensures r.1 == 0 ==> r.0 == s[i..]
    ensures r.1 > 0 ==> |r.0| < |s| - i
  {
    if i == |s| then ("", 0)
    else match ParentMatch(s, i)
      case Some(e) =>
        var rest := ParentScan(s, e);
        (rest.0, rest.1 + 1)
      case None =>
        var rest := ParentScan(s, i + 1);
        ([s[i]] + rest.0, rest.1)
  }

  /** The do { ... } while ($count) loop: collapse slashes, delete `seg/..`, and
      repeat while something was deleted. */
  function ResolveLoop(s: string): (r: string)
    decreases |s|
    ensures NoDoubleSlash(r)
  {
    var t := CollapseSlashes(s);
    var u := ParentScan(t, 0);
    if u.1 > 0 then ResolveLoop(u.0) else u.0
  }

  /** Everything normalizePath does to the part after the scheme, before the final rtrim. */
  function Rewrite(p: string): string {
    ResolveLoop(DotScan(p, 0))
  }

  /** FileManager::normalizePath (the Windows separator branch is not modelled). */
  function NormalizePath(s: string): string {
    if '/' !in s || s == "/" || s == "." || s == ".." then s
    else
      var t := RTrim(s, {'/'});
      if t == "" then ""
      else match SchemeSeparator(t)
        case Some(p) =>
          var scheme := t[..p];
          (if Truthy(scheme) then scheme + "://" else "") + RTrim(Rewrite(t[p + 3..]), {'/'})
        case None => RTrim(Rewrite(t), {'/'})
  }

  /** Inputs without '/' and the three special strings come back unchanged. */
  lemma NormalizeSpecialCases(s: string)
    requires '/' !in s || s == "/" || s == "." || s == ".."
    ensures NormalizePath(s) == s
  {
  }

  lemma NoDoubleSlashPrefix(a: string, b: string)
    requires NoDoubleSlash(b) && a <= b
    ensures NoDoubleSlash(a)
  {
  }

  lemma NoDoubleSlashHasNoScheme(s: string)
    requires NoDoubleSlash(s)
    ensures SchemeSeparator(s).None? && StripScheme(s) == s
  {
    forall k: nat | k + 3 <= |s|
      ensures !OccursAt(s, "://", k)
    {
      assert s[k + 1] == s[k..k + 3][1] && s[k + 2] == s[k..k + 3][2];
    }
  }

  /** The first "://" of a string is found again in any string that agrees with it
      up to the end of that occurrence. */
  lemma SeparatorAgrees(a: string, b: string, p: nat)
    requires SchemeSeparator(a) == Some(p)
    requires p + 3 <= |a| && p + 3 <= |b| && a[..p + 3] == b[..p + 3]
    ensures SchemeSeparator(b) == Some(p)
  {
    assert OccursAt(b, "://", p) by {
      assert b[p..p + 3] == a[p..p + 3];
    }
    forall k | 0 <= k < p
      ensures !OccursAt(b, "://", k)
    {
      assert !OccursAt(a, "://", k);
      assert b[k..k + 3] == a[k..k + 3];
    }
    match Find(b, "://")
    case Some(q) =>
      assert q == p;
    case None =>
      assert false;
  }

  /** Free of "//" and without a trailing '/'. */
  predicate PathShaped(q: string) {
    NoDoubleSlash(q) && (q == [] || q[|q| - 1] != '/')
  }

  lemma RTrimShaped(y: string)
    requires NoDoubleSlash(y)
    ensures PathShaped(RTrim(y, {'/'})) && NoDoubleSlash(RTrim(y, {'/'}))
  {
    NoDoubleSlashPrefix(RTrim(y, {'/'}), y);
  }

  /** The part after the scheme, once a scheme was found in the trimmed input. */
  lemma SchemePartShaped(t: string, p: nat)
    requires SchemeSeparator(t) == Some(p)
    ensures var x := RTrim(Rewrite(t[p + 3..]), {'/'});
            var r := (if Truthy(t[..p]) then t[..p] + "://" else "") + x;
            StripScheme(r) == x && PathShaped(x) && (Truthy(t[..p]) ==> GetScheme(r) == Some(t[..p]))
  {
    var scheme := t[..p];
    var x := RTrim(Rewrite(t[p + 3..]), {'/'});
    RTrimShaped(Rewrite(t[p + 3..]));
    if Truthy(scheme) {
      var u := scheme + "://" + x;
      assert u[..p + 3] == t[..p + 3];
      SeparatorAgrees(t, u, p);
      assert StripScheme(u) == x && u[..p] == scheme;
    } else {
      assert ("" + x) == x;
      NoDoubleSlashHasNoScheme(x);
    }
  }

  lemma SpecialCaseShaped(s: string)
    requires ('/' !in s || s == "." || s == "..") && s != "/"
    ensures PathShaped(StripScheme(NormalizePath(s)))
  {
    NormalizeSpecialCases(s);
    assert NoDoubleSlash(s);
    NoDoubleSlashHasNoScheme(s);
    assert s == [] || s[|s| - 1] in s;
  }

  lemma TrimmedShaped(s: string)
    requires '/' in s && s != "/" && s != "." && s != ".."
    ensures PathShaped(StripScheme(NormalizePath(s)))
  {
    var r := NormalizePath(s);
    var t := RTrim(s, {'/'});
    if t == "" {
      assert r == "";
      NoDoubleSlashHasNoScheme("");
    } else {
      match SchemeSeparator(t)
      case Some(p) =>
        SchemePartShaped(t, p);
      case None =>
        var x := RTrim(Rewrite(t), {'/'});
        assert r == x;
        RTrimShaped(Rewrite(t));
        NoDoubleSlashHasNoScheme(x);
    }
  }

  /** The part after the scheme is free of "//" and has no trailing '/'. */
  lemma NormalizedPathShape(s: string)
    requires NormalizePath(s) != "/"
    ensures NoDoubleSlash(StripScheme(NormalizePath(s)))
    ensures var q := StripScheme(NormalizePath(s)); q == [] || q[|q| - 1] != '/'
  {
    if '/' !in s || s == "/" || s == "." || s == ".." {
      NormalizeSpecialCases(s);
      SpecialCaseShaped(s);
    } else {
      TrimmedShaped(s);
    }
  }

  /** normalizePath once a scheme separator was found in the trimmed input. */
  lemma NormalizeWithSeparator(s: string, p: nat)
    requires SchemeSeparator(RTrim(s, {'/'})) == Some(p)
    ensures var t := RTrim(s, {'/'});
            NormalizePath(s) == (if Truthy(t[..p]) then t[..p] + "://" else "") + RTrim(Rewrite(t[p + 3..]), {'/'})
  {
    var t := RTrim(s, {'/'});
    assert t[p + 1] == '/' && s[p + 1] == t[p + 1];
    assert '/' in s && s != "/" && s != "." && s != "..";
  }

  /** A truthy scheme prefix survives normalization verbatim: the result has the
      same scheme, and its path part is the rewritten one. */
  lemma NormalizeKeepsScheme(s: string, sch: string)
    requires GetScheme(RTrim(s, {'/'})) == Some(sch) && Truthy(sch)
    ensures GetScheme(NormalizePath(s)) == Some(sch)
    ensures StripScheme(NormalizePath(s)) == RTrim(Rewrite(StripScheme(RTrim(s, {'/'}))), {'/'})
  {
    var t := RTrim(s, {'/'});
    var p := SchemeSeparator(t).value;
    assert t[..p] == sch && StripScheme(t) == t[p + 3..];
    NormalizeWithSeparator(s, p);
    SchemePartShaped(t, p);
  }

  /** Collapsing slashes leaves a string without "//" as it is. */
  lemma {:induction false} CollapseKeeps(s: string)
    requires NoDoubleSlash(s)
    decreases |s|
    ensures CollapseSlashes(s) == s
  {
    if |s| > 1 {
      assert !(s[0] == '/' && s[1] == '/');
      CollapseKeeps(s[1..]);
      assert s == [s[0]] + s[1..];
    }
  }

  /** A one-character segment: neither a separator nor a dot. */
  predicate Plain(c: char) {
    c != '/' && c != '.'
  }

  lemma DotScanOfParentAtEnd(a: char, b: char)
    requires Plain(a) && Plain(b)
    ensures DotScan([a, '/', b, '/', '.', '.'], 0) == [a, '/', b, '/', '.', '.']
  {
    var s := [a, '/', b, '/', '.', '.'];
    assert DotPairs(s, 5) == 0 && DotPairs(s, 3) == 1 && DotPairs(s, 1) == 0;
    assert DotScan(s, 6) == "";
    assert DotScan(s, 5) == s[5..];
    assert DotScan(s, 4) == s[4..];
    assert DotScan(s, 3) == s[3..];
    assert DotScan(s, 2) == s[2..];
    assert DotScan(s, 1) == s[1..];
  }

  /** One step of the scan: a match is deleted and counted. */
  lemma ParentScanMatch(s: string, i: nat, e: nat)
    requires i < |s| && ParentMatch(s, i) == Some(e)
    ensures ParentScan(s, i) == (ParentScan(s, e).0, ParentScan(s, e).1 + 1)
  {
  }

  /** One step of the scan: without a match the character is kept. */
  lemma ParentScanSkip(s: string, i: nat)
    requires i < |s| && ParentMatch(s, i).None?
    ensures ParentScan(s, i) == ([s[i]] + ParentScan(s, i + 1).0, ParentScan(s, i + 1).1)
  {
  }

  lemma ParentScanOfParentAtEnd(a: char, b: char)
    requires Plain(a) && Plain(b)
    ensures ParentScan([a, '/', b, '/', '.', '.'], 0) == ([a, '/'], 1)
  {
    var s := [a, '/', b, '/', '.', '.'];
    assert SegmentEnd(s, 0) == 1 && SlashesEnd(s, 1) == 2;
    assert SegmentEnd(s, 2) == 3 && SlashesEnd(s, 3) == 4;
    ParentScanMatch(s, 2, 6);
    assert ParentScan(s, 6) == ("", 0);
    assert ParentScan(s, 2) == ("", 1);
    ParentScanSkip(s, 1);
    assert [s[1]] + "" == "/";
    assert ParentScan(s, 1) == ("/", 1);
    ParentScanSkip(s, 0);
    assert [s[0]] + "/" == [a, '/'];
  }

  lemma ResolveOfParentAtEnd(a: char, b: char)
    requires Plain(a) && Plain(b)
    ensures ResolveLoop([a, '/', b, '/', '.', '.']) == [a, '/']
  {
    var s, u := [a, '/', b, '/', '.', '.'], [a, '/'];
    assert NoDoubleSlash(s) && NoDoubleSlash(u);
    CollapseKeeps(s);
    CollapseKeeps(u);
    ParentScanOfParentAtEnd(a, b);
    assert SegmentEnd(u, 0) == 1 && SlashesEnd(u, 1) == 2;
    ParentScanSkip(u, 1);
    ParentScanSkip(u, 0);
    assert ParentScan(u, 0) == (u, 0);
  }

  /** normalizePath on a path with a '/' that is no special case and has no scheme. */
  lemma NormalizeWithoutScheme(s: string)
    requires '/' in s && s != "/" && s != "." && s != ".."
    requires RTrim(s, {'/'}) != "" && SchemeSeparator(RTrim(s, {'/'})).None?
    ensures NormalizePath(s) == RTrim(Rewrite(RTrim(s, {'/'})), {'/'})
  {
  }

  /** `a/b/..` becomes `a`, whatever plain characters stand for a and b: the
      trailing `seg/..` is deleted, and so is the '/' it leaves behind. */
  lemma ParentAtEnd(a: char, b: char)
    requires Plain(a) && Plain(b)
    ensures NormalizePath([a, '/', b, '/', '.', '.']) == [a]
  {
    var s := [a, '/', b, '/', '.', '.'];
    assert s[1] == '/' && s[|s| - 1] == '.';
    assert RTrim(s, {'/'}) == s;
    assert NoDoubleSlash(s);
    NoDoubleSlashHasNoScheme(s);
    NormalizeWithoutScheme(s);
    DotScanOfParentAtEnd(a, b);
    ResolveOfParentAtEnd(a, b);
    var u := [a, '/'];
    assert u[..|u| - 1] == [a];
    assert RTrim(u, {'/'}) == [a];
  }

  /** "./" and "../" lose their trailing '/' and nothing else. */
  lemma DotsWithSlash()
    ensures NormalizePath("./") == "."
    ensures NormalizePath("../") == ".."
  {
    var d, dd := "./", "../";
    assert d[1] == '/' && RTrim(d, {'/'}) == ".";
    assert dd[2] == '/' && RTrim(dd, {'/'}) == "..";
    NoDoubleSlashHasNoScheme(".");
    NoDoubleSlashHasNoScheme("..");
    NormalizeWithoutScheme(d);
    NormalizeWithoutScheme(dd);
    assert DotScan(".", 0) == ".";
    assert DotScan("..", 0) == "..";
    CollapseKeeps(".");
    CollapseKeeps("..");
    ParentScanSkip(".", 0);
    ParentScanSkip("..", 1);
    ParentScanSkip("..", 0);
    assert ResolveLoop(".") == ".";
    assert ResolveLoop("..") == "..";
  }
}
