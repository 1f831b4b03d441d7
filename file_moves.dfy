/** The parts of FileManager that act on the filesystem: unsafeDeduplicate's search
    for a free name, and unsafeRename's decision procedure followed by mkdir and
    rename, with the public deduplicate, rename and renameIfNotWithin around them.

    The filesystem is a class whose fields map regular files to their contents and
    list the directories; the duplicate check (size, MIME type and sha1 of both
    files) and the current date are parameters. */
module FileMoves {
  import opened Wrappers
  import opened PhpStrings
  import opened FileManagers

  /** The local filesystem, as far as moving files goes. */
  class Filesystem {
    var files: map<string, seq<byte>>
    var dirs: set<string>

    constructor (files0: map<string, seq<byte>>, dirs0: set<string>)
      ensures files == files0 && dirs == dirs0
    {
      files := files0;
      dirs := dirs0;
    }

    /** Every path file_exists() is true for. */
    function Paths(): set<string>
      reads this
    {
      files.Keys + dirs
    }

    /** Filesystem::mkdir (parent directories are not tracked). */
    method Mkdir(path: string)
      modifies this
      ensures files == old(files) && dirs == old(dirs) + {path}
    {
      dirs := dirs + {path};
    }

    /** Filesystem::rename($from, $to, true). */
    method Move(from: string, to: string)
      requires from in Paths()
      modifies this
      ensures (files, dirs) == Moved(old(files), old(dirs), from, to)
    {
      if from in files {
        var content := files[from];
        files := (files - {from})[to := content];
      } else {
        dirs := dirs - {from} + {to};
      }
    }
  }

  /** The filesystem after moving `from` to `to`, replacing whatever file was there. */
  function Moved(files: map<string, seq<byte>>, dirs: set<string>, from: string, to: string)
    : (r: (map<string, seq<byte>>, set<string>))
    requires from in files || from in dirs
    ensures from in files ==> to in r.0 && r.0[to] == files[from]
    ensures from in files ==> forall p :: p in files && p != from && p != to ==> p in r.0 && r.0[p] == files[p]
    ensures from in files && from != to ==> from !in r.0
    ensures from !in files ==> r.0 == files && to in r.1
  {
    if from in files then ((files - {from})[to := files[from]], dirs)
    else (files, dirs - {from} + {to})
  }

  /* ---- unsafeDeduplicate ---- */

  /** The basename split at its last '.', when that dot is not its first character. */
  function SplitExtension(basename: string): (r: (string, Option<string>))
    ensures r.1.None? ==> r.0 == basename
    ensures r.1.Some? ==> basename == r.0 + "." + r.1.value && r.0 != "" && '.' !in r.1.value
  {
    match FindLast(basename, '.')
    case Some(pos) =>
      if pos > 0 then
        assert basename == basename[..pos] + "." + basename[pos + 1..];
        (basename[..pos], Some(basename[pos + 1..]))
      else (basename, None)
    case None => (basename, None)
  }

  /** The n-th name tried: "dir/base_N.ext", or "dir/base_N" when the extension is
      absent or falsy. */
  function Candidate(dir: string, base: string, ext: Option<string>, n: nat): string {
    if ext.Some? && Truthy(ext.value) then dir + "/" + base + "_" + NatToString(n) + "." + ext.value
    else dir + "/" + base + "_" + NatToString(n)
  }

  /** Different counters give different names. */
  lemma CandidateInjective(dir: string, base: string, ext: Option<string>, m: nat, n: nat)
    requires Candidate(dir, base, ext, m) == Candidate(dir, base, ext, n)
    ensures m == n
  {
    var pre := dir + "/" + base + "_";
    var suf := if ext.Some? && Truthy(ext.value) then "." + ext.value else "";
    var a := Candidate(dir, base, ext, m);
    assert a == pre + NatToString(m) + suf;
    assert Candidate(dir, base, ext, n) == pre + NatToString(n) + suf;
    assert |NatToString(m)| == |NatToString(n)|;
    assert NatToString(m) == a[|pre|..|a| - |suf|];
    NatToStringInjective(m, n);
  }

  /** The names tried with counters 1..n. */
  function Tried(dir: string, base: string, ext: Option<string>, n: nat): set<string> {
    if n == 0 then {} else Tried(dir, base, ext, n - 1) + {Candidate(dir, base, ext, n)}
  }

  /** A later counter's name is not among those tried before it. */
  lemma {:induction false} LaterCandidateUntried(dir: string, base: string, ext: Option<string>, n: nat, m: nat)
    requires n < m
    ensures Candidate(dir, base, ext, m) !in Tried(dir, base, ext, n)
  {
    if n > 0 {
      LaterCandidateUntried(dir, base, ext, n - 1, m);
      if Candidate(dir, base, ext, m) == Candidate(dir, base, ext, n) {
        CandidateInjective(dir, base, ext, m, n);
      }
    }
  }

  lemma {:induction false} TriedSize(dir: string, base: string, ext: Option<string>, n: nat)
    ensures |Tried(dir, base, ext, n)| == n
  {
    if n > 0 {
      TriedSize(dir, base, ext, n - 1);
      LaterCandidateUntried(dir, base, ext, n - 1, n);
    }
  }

  lemma {:induction false} TriedWithin(existing: set<string>, dir: string, base: string, ext: Option<string>, n: nat)
    requires forall k :: 1 <= k <= n ==> Candidate(dir, base, ext, k) in existing
    ensures Tried(dir, base, ext, n) <= existing
  {
    if n > 0 {
      TriedWithin(existing, dir, base, ext, n - 1);
    }
  }

  /** Pigeonhole: the counter cannot run past the number of existing paths. */
  lemma TriedBound(existing: set<string>, dir: string, base: string, ext: Option<string>, n: nat)
    requires forall k :: 1 <= k <= n ==> Candidate(dir, base, ext, k) in existing
    ensures n <= |existing|
  {
    TriedSize(dir, base, ext, n);
    TriedWithin(existing, dir, base, ext, n);
    SubsetSize(Tried(dir, base, ext, n), existing);
  }

  lemma SubsetSize<T>(a: set<T>, b: set<T>)
    requires a <= b
    ensures |a| <= |b|
  {
    assert b == a + (b - a);
  }

  /** The smallest counter >= n whose name is free. */
  function FirstFree(existing: set<string>, dir: string, base: string, ext: Option<string>, n: nat): (r: nat)
    requires 1 <= n
    requires forall k :: 1 <= k < n ==> Candidate(dir, base, ext, k) in existing
    decreases |existing| + 1 - n
    ensures n <= r && Candidate(dir, base, ext, r) !in existing
    ensures forall k :: 1 <= k < r ==> Candidate(dir, base, ext, k) in existing
  {
    if Candidate(dir, base, ext, n) !in existing then n
    else
      TriedBound(existing, dir, base, ext, n);
      FirstFree(existing, dir, base, ext, n + 1)
  }

  /** The name unsafeDeduplicate returns, given the set of existing paths. */
  function DeduplicateName(existing: set<string>, filename: string): string {
    var split := SplitExtension(Basename(filename));
    var dir := Dirname(filename);
    Candidate(dir, split.0, split.1, FirstFree(existing, dir, split.0, split.1, 1))
  }

  /** The deduplicated name is free, and every smaller counter was taken. */
  lemma DeduplicateNameIsFirstFree(existing: set<string>, filename: string)
    ensures DeduplicateName(existing, filename) !in existing
    ensures var split := SplitExtension(Basename(filename));
      exists n :: n >= 1 && DeduplicateName(existing, filename) == Candidate(Dirname(filename), split.0, split.1, n)
        && forall k :: 1 <= k < n ==> Candidate(Dirname(filename), split.0, split.1, k) in existing
  {
    var split := SplitExtension(Basename(filename));
    var n := FirstFree(existing, Dirname(filename), split.0, split.1, 1);
    assert DeduplicateName(existing, filename) == Candidate(Dirname(filename), split.0, split.1, n);
  }

  /** FileManager::unsafeDeduplicate: try base_1, base_2, ... until a name is free. */
  method UnsafeDeduplicate(fs: Filesystem, filename: string) returns (candidate: string)
    ensures candidate == DeduplicateName(fs.Paths(), filename)
    ensures candidate !in fs.Paths()
  {
    var basename := Basename(filename);
    var dirname := Dirname(filename);
    var ext: Option<string> := None;
    match FindLast(basename, '.') {
      case Some(pos) =>
        if pos > 0 {
          ext := Some(basename[pos + 1..]);
          basename := basename[..pos];
        }
      case None =>
    }
    assert (basename, ext) == SplitExtension(Basename(filename));
    ghost var existing := fs.Paths();
    var counter := 1;
    candidate := Candidate(dirname, basename, ext, counter);
    while candidate in fs.files || candidate in fs.dirs
      invariant 1 <= counter
      invariant candidate == Candidate(dirname, basename, ext, counter)
      invariant forall k :: 1 <= k < counter ==> Candidate(dirname, basename, ext, k) in existing
      invariant FirstFree(existing, dirname, basename, ext, 1) == FirstFree(existing, dirname, basename, ext, counter)
      decreases |existing| + 1 - counter
    {
      TriedBound(existing, dirname, basename, ext, counter);
      counter := counter + 1;
      candidate := Candidate(dirname, basename, ext, counter);
    }
  }

  /* ---- unsafeRename ---- */

  datatype RenameError =
    | SourceMissing(path: string)
    | UnknownStrategy(strategy: string)
    | DestinationExists(source: string, target: string)

  /** FileManager::MOVE_CONFLICT_OVERWRITE and MOVE_CONFLICT_RENAME. */
  const MoveConflictOverwrite: nat := 4
  const MoveConflictRename: nat := 2

  /** $flags & $flag for a one-bit flag, in two's complement. */
  predicate HasFlag(flags: int, flag: nat)
    requires flag > 0
  {
    (flags / flag) % 2 == 1
  }

  /** The current time, as the date strategies read it. */
  datatype Date = Date(year: nat, month: nat, day: nat, hour: nat, minute: nat)

  predicate ValidDate(d: Date) {
    1 <= d.month <= 12 && 1 <= d.day <= 31 && d.hour < 24 && d.minute < 60
  }

  /** The 'h' format: the hour on a 12-hour clock, 12 for midnight and noon. */
  function Hour12(hour: nat): (r: nat)
    ensures 1 <= r <= 12 && r % 12 == hour % 12
  {
    if hour % 12 == 0 then 12 else hour % 12
  }

  /** The directory a strategy selects: the directory itself without a strategy,
      "/Y/m/d" below it for 'date', "/Y/m/d/h/i" for 'datetime'. */
  function StrategyDirectory(directory: string, strategy: Option<string>, date: Date): Result<string, RenameError> {
    if strategy.None? || !Truthy(strategy.value) then Success(directory)
    else if strategy.value == "date" then
      Success(directory + "/" + PadDigits(date.year, 4) + "/" + PadDigits(date.month, 2) + "/" + PadDigits(date.day, 2))
    else if strategy.value == "datetime" then
      Success(directory + "/" + PadDigits(date.year, 4) + "/" + PadDigits(date.month, 2) + "/" + PadDigits(date.day, 2)
              + "/" + PadDigits(Hour12(date.hour), 2) + "/" + PadDigits(date.minute, 2))
    else Failure(UnknownStrategy(strategy.value))
  }

  /** The date directories hold the date's fields as zero-padded decimal numbers. */
  lemma StrategyDirectoryFields(directory: string, strategy: string, date: Date)
    requires ValidDate(date) && (strategy == "date" || strategy == "datetime")
    ensures StrategyDirectory(directory, Some(strategy), date).Success?
    ensures var d := StrategyDirectory(directory, Some(strategy), date).value;
      var y := PadDigits(date.year, 4);
      var m := PadDigits(date.month, 2);
      var dd := PadDigits(date.day, 2);
      |m| == 2 && |dd| == 2 && |y| >= 4
      && ParseDecimal(y) == date.year && ParseDecimal(m) == date.month && ParseDecimal(dd) == date.day
      && (strategy == "date" ==> d == directory + "/" + y + "/" + m + "/" + dd)
      && (strategy == "datetime" ==>
            var h := PadDigits(Hour12(date.hour), 2);
            var i := PadDigits(date.minute, 2);
            d == directory + "/" + y + "/" + m + "/" + dd + "/" + h + "/" + i
            && |h| == 2 && |i| == 2
            && 1 <= ParseDecimal(h) <= 12 && ParseDecimal(h) % 12 == date.hour % 12
            && ParseDecimal(i) == date.minute)
  {
  }

  /** What unsafeRename returns and what the filesystem looks like afterwards. */
  function RenameEffect(files: map<string, seq<byte>>, dirs: set<string>, filename: string,
                        directory: string, flags: int, strategy: Option<string>, date: Date,
                        isDuplicate: (string, string) -> bool)
    : (Result<string, RenameError>, map<string, seq<byte>>, set<string>)
  {
    if filename !in files && filename !in dirs then (Failure(SourceMissing(filename)), files, dirs)
    else match StrategyDirectory(directory, strategy, date)
      case Failure(e) => (Failure(e), files, dirs)
      case Success(destination) =>
        var dirs1 := dirs + {destination};
        var target := destination + "/" + Basename(filename);
        if target in files || target in dirs1 then
          if isDuplicate(filename, target) then (Success(target), files, dirs1)
          else if HasFlag(flags, MoveConflictOverwrite) then
            var m := Moved(files, dirs1, filename, target);
            (Success(target), m.0, m.1)
          else if HasFlag(flags, MoveConflictRename) then
            var freeName := DeduplicateName(files.Keys + dirs1, target);
            var m := Moved(files, dirs1, filename, freeName);
            (Success(freeName), m.0, m.1)
          else (Failure(DestinationExists(filename, target)), files, dirs1)
        else
          var m := Moved(files, dirs1, filename, target);
          (Success(target), m.0, m.1)
  }

  /** A missing source or an unknown strategy fails before anything is touched. */
  lemma RenameFailsEarly(files: map<string, seq<byte>>, dirs: set<string>, filename: string,
                         directory: string, flags: int, strategy: Option<string>, date: Date,
                         isDuplicate: (string, string) -> bool)
    requires (filename !in files && filename !in dirs)
             || StrategyDirectory(directory, strategy, date).Failure?
    ensures var e := RenameEffect(files, dirs, filename, directory, flags, strategy, date, isDuplicate);
      e.0.Failure? && e.1 == files && e.2 == dirs
      && (filename !in files && filename !in dirs ==> e.0.error == SourceMissing(filename))
      && (filename in files || filename in dirs ==> e.0.error.UnknownStrategy?)
  {
  }

  /** Without MOVE_CONFLICT_OVERWRITE no other file is ever replaced or lost: a
      conflicting name is either the duplicate (nothing moves), renamed to a free
      name, or an error. */
  lemma RenameKeepsOtherFiles(files: map<string, seq<byte>>, dirs: set<string>, filename: string,
                              directory: string, flags: int, strategy: Option<string>, date: Date,
                              isDuplicate: (string, string) -> bool)
    requires !HasFlag(flags, MoveConflictOverwrite)
    ensures var e := RenameEffect(files, dirs, filename, directory, flags, strategy, date, isDuplicate);
      forall p :: p in files && p != filename ==> p in e.1 && e.1[p] == files[p]
  {
    var e := RenameEffect(files, dirs, filename, directory, flags, strategy, date, isDuplicate);
    if (filename in files || filename in dirs) && StrategyDirectory(directory, strategy, date).Success? {
      var destination := StrategyDirectory(directory, strategy, date).value;
      var dirs1 := dirs + {destination};
      var target := destination + "/" + Basename(filename);
      if (target in files || target in dirs1) && !isDuplicate(filename, target) && HasFlag(flags, MoveConflictRename) {
        DeduplicateNameIsFirstFree(files.Keys + dirs1, target);
      }
    }
  }

  /** A successful rename leaves the source's contents under the returned name
      (unless it returned the already present duplicate), and a name differing from
      the source no longer holds the source. */
  lemma RenameMovesContents(files: map<string, seq<byte>>, dirs: set<string>, filename: string,
                            directory: string, flags: int, strategy: Option<string>, date: Date,
                            isDuplicate: (string, string) -> bool)
    requires filename in files
    ensures var e := RenameEffect(files, dirs, filename, directory, flags, strategy, date, isDuplicate);
      e.0.Success? ==>
        (isDuplicate(filename, e.0.value) && e.1 == files)
        || (e.0.value in e.1 && e.1[e.0.value] == files[filename]
            && (e.0.value != filename ==> filename !in e.1))
  {
  }

  /** OVERWRITE wins over RENAME, and with neither flag a conflict is an error,
      whichever directory the naming strategy chose. */
  lemma RenameConflictPolicy(files: map<string, seq<byte>>, dirs: set<string>, filename: string,
                             directory: string, flags: int, strategy: Option<string>, date: Date,
                             isDuplicate: (string, string) -> bool)
    requires filename in files || filename in dirs
    requires StrategyDirectory(directory, strategy, date).Success?
    requires var destination := StrategyDirectory(directory, strategy, date).value;
      var target := destination + "/" + Basename(filename);
      (target in files || target in dirs + {destination}) && !isDuplicate(filename, target)
    ensures var destination := StrategyDirectory(directory, strategy, date).value;
      var target := destination + "/" + Basename(filename);
      var e := RenameEffect(files, dirs, filename, directory, flags, strategy, date, isDuplicate);
      (HasFlag(flags, MoveConflictOverwrite) ==> e.0 == Success(target))
      && (!HasFlag(flags, MoveConflictOverwrite) && HasFlag(flags, MoveConflictRename) ==>
            e.0.Success? && e.0.value != target && e.0.value !in files && e.0.value !in dirs + {destination})
      && (!HasFlag(flags, MoveConflictOverwrite) && !HasFlag(flags, MoveConflictRename) ==>
            e.0 == Failure(DestinationExists(filename, target)))
  {
    var destination := StrategyDirectory(directory, strategy, date).value;
    var target := destination + "/" + Basename(filename);
    DeduplicateNameIsFirstFree(files.Keys + (dirs + {destination}), target);
  }

  /** FileManager::unsafeRename */
  method UnsafeRename(fs: Filesystem, filename: string, directory: string, flags: int,
                      strategy: Option<string>, date: Date, isDuplicate: (string, string) -> bool)
    returns (r: Result<string, RenameError>)
    modifies fs
    ensures (r, fs.files, fs.dirs)
            == RenameEffect(old(fs.files), old(fs.dirs), filename, directory, flags, strategy, date, isDuplicate)
  {
    if filename !in fs.files && filename !in fs.dirs {
      return Failure(SourceMissing(filename));
    }
    var destination: string;
    if strategy.Some? && Truthy(strategy.value) {
      if strategy.value == "date" {
        destination := directory + "/" + PadDigits(date.year, 4) + "/" + PadDigits(date.month, 2)
                       + "/" + PadDigits(date.day, 2);
      } else if strategy.value == "datetime" {
        destination := directory + "/" + PadDigits(date.year, 4) + "/" + PadDigits(date.month, 2)
                       + "/" + PadDigits(date.day, 2) + "/" + PadDigits(Hour12(date.hour), 2)
                       + "/" + PadDigits(date.minute, 2);
      } else {
        return Failure(UnknownStrategy(strategy.value));
      }
    } else {
      destination := directory;
    }
    fs.Mkdir(destination);
    var target := destination + "/" + Basename(filename);
    if target in fs.files || target in fs.dirs {
      if isDuplicate(filename, target) {
        return Success(target);
      }
      if HasFlag(flags, MoveConflictOverwrite) {
        // the existing file is overwritten below
      } else if HasFlag(flags, MoveConflictRename) {
        target := UnsafeDeduplicate(fs, target);
      } else {
        return Failure(DestinationExists(filename, target));
      }
    }
    fs.Move(filename, target);
    return Success(target);
  }

  /** FileManager::rename: both arguments are resolved to absolute paths, and the
      new location is returned as a URI. */
  method Rename(fm: FileManager, fs: Filesystem, source: string, destination: string, flags: int,
                strategy: Option<string>, date: Date, isDuplicate: (string, string) -> bool)
    returns (r: Result<string, RenameError>)
    modifies fs
    ensures var e := RenameEffect(old(fs.files), old(fs.dirs), fm.GetAbsolutePath(source),
                                  fm.GetAbsolutePath(destination), flags, strategy, date, isDuplicate);
      fs.files == e.1 && fs.dirs == e.2
      && r == (if e.0.Success? then Success(fm.GetURI(e.0.value)) else Failure(e.0.error))
  {
    var moved := UnsafeRename(fs, fm.GetAbsolutePath(source), fm.GetAbsolutePath(destination),
                              flags, strategy, date, isDuplicate);
    if moved.Success? {
      r := Success(fm.GetURI(moved.value));
    } else {
      r := Failure(moved.error);
    }
  }

  /** FileManager::renameIfNotWithin: a source already below the destination is
      left alone and its URI returned. */
  method RenameIfNotWithin(fm: FileManager, fs: Filesystem, source: string, destination: string,
                           flags: int, strategy: Option<string>, date: Date,
                           isDuplicate: (string, string) -> bool)
    returns (r: Result<string, RenameError>)
    modifies fs
    ensures fm.GetAbsolutePath(destination) <= fm.GetAbsolutePath(source) ==>
      r == Success(fm.GetURI(fm.GetAbsolutePath(source)))
      && fs.files == old(fs.files) && fs.dirs == old(fs.dirs)
    ensures !(fm.GetAbsolutePath(destination) <= fm.GetAbsolutePath(source)) ==>
      var e := RenameEffect(old(fs.files), old(fs.dirs), fm.GetAbsolutePath(source),
                            fm.GetAbsolutePath(destination), flags, strategy, date, isDuplicate);
      fs.files == e.1 && fs.dirs == e.2
      && r == (if e.0.Success? then Success(fm.GetURI(e.0.value)) else Failure(e.0.error))
  {
    var sourcePath := fm.GetAbsolutePath(source);
    var destinationPath := fm.GetAbsolutePath(destination);
    PathWithinIsPrefix(fm, sourcePath, destinationPath);
    if fm.UnsafeIsPathWithin(sourcePath, destinationPath) {
      return Success(fm.GetURI(sourcePath));
    }
    var moved := UnsafeRename(fs, sourcePath, destinationPath, flags, strategy, date, isDuplicate);
    if moved.Success? {
      r := Success(fm.GetURI(moved.value));
    } else {
      r := Failure(moved.error);
    }
  }

  /** FileManager::deduplicate */
  method Deduplicate(fm: FileManager, fs: Filesystem, uri: string) returns (r: string)
    ensures r == fm.GetURI(DeduplicateName(fs.Paths(), fm.GetAbsolutePath(uri)))
  {
    var path := UnsafeDeduplicate(fs, fm.GetAbsolutePath(uri));
    r := fm.GetURI(path);
  }
}
