/** What both versions of FileBuilder do to the disk, as pure functions: the
    target file under assembly, its ".metadata.json" sidecar recording
    {size, offset}, and the builder's offset. The two FileBuilder classes are
    proved against these functions, and the properties of chunked assembly
    (acceptance only at the recorded offset, resuming from the sidecar, restart
    at offset 0, reassembly of a whole upload) are lemmas about them. */
module ChunkStore {
  import opened Wrappers
  import opened PhpStrings

  /** The decoded contents of a sidecar file. `Unreadable` covers a failed read and
      a JSON document that decodes to a falsy value; `Record` holds the integer
      casts of its "size" and "offset" properties. */
  datatype Sidecar = Unreadable | Record(size: int, offset: int)

  /** The files a builder can see: regular files with their bytes, and sidecars by
      their own path. */
  datatype Disk = Disk(files: map<string, seq<byte>>, sidecars: map<string, Sidecar>)

  /** The exceptions a builder throws (I/O failures are not modelled). */
  datatype BuildError =
    | MetadataUnreadable
    | SizeMismatch(recorded: int)
    | ExistingSizeMismatch(existing: nat)

  /** What write() returns when it does not throw: false, or the bytes copied. */
  datatype WriteOutcome = Rejected | Written(count: nat)

  /** The disk and the builder's offset after a step, and whether it threw. */
  datatype Step = Step(disk: Disk, offset: int, err: Option<BuildError>)

  /** The disk and the builder's offset after write(), and what write() gave back. */
  datatype Outcome = Outcome(disk: Disk, offset: int, result: Result<WriteOutcome, BuildError>)

  /** The directory the builders write in: target files and their sidecars. */
  class Volume {
    var files: map<string, seq<byte>>
    var sidecars: map<string, Sidecar>

    constructor (files0: map<string, seq<byte>>, sidecars0: map<string, Sidecar>)
      ensures files == files0 && sidecars == sidecars0
    {
      files := files0;
      sidecars := sidecars0;
    }

    function Contents(): Disk
      reads this
    {
      Disk(files, sidecars)
    }
  }

  /** The sidecar of a target file. */
  function SidecarPath(main: string): (r: string)
    ensures |r| > |main| && r[..|main|] == main
  {
    main + ".metadata.json"
  }

  function Max(a: int, b: int): int {
    if a >= b then a else b
  }

  function Min(a: int, b: int): int {
    if a <= b then a else b
  }

  function ZeroBytes(k: nat): (r: seq<byte>)
    ensures |r| == k && forall i :: 0 <= i < k ==> r[i] == 0
  {
    if k == 0 then [] else [0] + ZeroBytes(k - 1)
  }

  /* ---- Constructor guard ---- */

  /** PHP's `<` between two booleans. */
  function BoolLess(a: bool, b: bool): bool {
    !a && b
  }

  /** The constructor guard `!0 < $filesize` as PHP parses it, `(!0) < $filesize`:
      the integer is compared as a boolean against `true`. */
  function GuardAsWritten(filesize: int): bool {
    BoolLess(true, filesize != 0)
  }

  /** The guard as intended: there is no point in a file of no bytes. */
  predicate GuardRejects(filesize: int) {
    !(0 < filesize)
  }

  /** A new file after fopen('cb'), fseek($filesize - 1) and fwrite('a'); a seek to
      a negative position fails and leaves the write at position 0. */
  function Preallocate(filesize: int): (r: seq<byte>)
    ensures |r| == Max(filesize, 1) && r[|r| - 1] == 97
    ensures forall i :: 0 <= i < |r| - 1 ==> r[i] == 0
  {
    if filesize >= 1 then ZeroBytes(filesize - 1) + [97] else [97]
  }

  /** As written the guard never throws: a zero size passes and the builder then
      creates a one-byte file for it. */
  lemma GuardNeverRejects(filesize: int)
    ensures !GuardAsWritten(filesize)
    ensures filesize == 0 ==> |Preallocate(filesize)| == 1
  {
  }

  /** The intended guard rejects exactly the sizes that preallocation cannot
      produce a file of. */
  lemma GuardRejectsUnallocatable(filesize: int)
    ensures GuardRejects(filesize) <==> |Preallocate(filesize)| != filesize
  {
  }

  /* ---- Writing bytes ---- */

  /** `data` written at `pos` of a file holding `f`. Seeking past the end leaves a
      gap of zero bytes once something is written; writing nothing changes nothing. */
  function WriteAt(f: seq<byte>, pos: nat, data: seq<byte>): (r: seq<byte>)
    ensures data == [] ==> r == f
    ensures data != [] ==> |r| == Max(|f|, pos + |data|)
    ensures data != [] ==> r[pos..pos + |data|] == data
    ensures data != [] ==> forall i :: 0 <= i < |r| && !(pos <= i < pos + |data|) ==>
                                       r[i] == (if i < |f| then f[i] else 0)
  {
    if data == [] then f
    else
      var head := if pos <= |f| then f[..pos] else f + ZeroBytes(pos - |f|);
      var tail := if pos + |data| < |f| then f[pos + |data|..] else [];
      assert |head| == pos;
      head + data + tail
  }

  /** The number of bytes stream_copy_to_stream copies from `input`: at most
      `length` when it is truthy, everything otherwise. */
  function CopyCount(input: seq<byte>, length: nat): (r: nat)
    ensures r <= |input|
    ensures length > 0 ==> r <= length && (r == length || r == |input|)
    ensures length == 0 ==> r == |input|
  {
    if length > 0 then Min(length, |input|) else |input|
  }

  /* ---- The steps of a write ---- */

  /** The recorded state agrees with the builder's size. */
  predicate Matches(s: Sidecar, filesize: int) {
    s.Record? && s.size == filesize
  }

  /** readMetadataFile: a stale sidecar of a missing file is deleted; a sidecar
      beside the file is believed when it records the builder's size, and deleted
      (with an exception) otherwise; a file without sidecar leaves the offset. */
  function ReadMetadata(d: Disk, main: string, filesize: int, offset: int): Step
  {
    var sc := SidecarPath(main);
    if main !in d.files then Step(d.(sidecars := d.sidecars - {sc}), offset, None)
    else if sc !in d.sidecars then Step(d, offset, None)
    else match d.sidecars[sc]
      case Unreadable => Step(d.(sidecars := d.sidecars - {sc}), offset, Some(MetadataUnreadable))
      case Record(size, recorded) =>
        if size != filesize then Step(d.(sidecars := d.sidecars - {sc}), offset, Some(SizeMismatch(size)))
        else Step(d, recorded, None)
  }

  /** What reading the sidecar does: files are never touched; the sidecar survives
      exactly when the file exists and the sidecar records the builder's size, and
      then its offset is taken; it throws exactly when a sidecar beside the file
      does not match; in every other case the offset is kept. */
  lemma ReadMetadataContract(d: Disk, main: string, filesize: int, offset: int)
    ensures var r := ReadMetadata(d, main, filesize, offset);
            var sc := SidecarPath(main);
            r.disk.files == d.files &&
            (r.disk.sidecars == d.sidecars || r.disk.sidecars == d.sidecars - {sc}) &&
            (r.err.Some? <==> main in d.files && sc in d.sidecars && !Matches(d.sidecars[sc], filesize)) &&
            (sc in r.disk.sidecars <==> main in d.files && sc in d.sidecars && Matches(d.sidecars[sc], filesize)) &&
            (sc in r.disk.sidecars ==> r.disk.sidecars[sc] == d.sidecars[sc] && r.offset == d.sidecars[sc].offset) &&
            (sc !in r.disk.sidecars ==> r.offset == offset)
  {
  }

  /** openFile: a missing file is created at its full size; an existing file of
      another size is refused; an existing file of the right size is opened. */
  function OpenFile(d: Disk, main: string, filesize: int): (r: Result<Disk, BuildError>)
    requires filesize > 0
    ensures r.Failure? <==> main in d.files && |d.files[main]| != filesize
    ensures r.Success? ==> main in r.value.files && |r.value.files[main]| == filesize
    ensures r.Success? ==> r.value.sidecars == d.sidecars
    ensures r.Success? ==> r.value.files == d.files[main := r.value.files[main]]
    ensures r.Success? && main in d.files ==> r.value == d
    ensures r.Success? && main !in d.files ==> r.value.files[main] == Preallocate(filesize)
  {
    if main !in d.files then Success(d.(files := d.files[main := Preallocate(filesize)]))
    else if |d.files[main]| != filesize then Failure(ExistingSizeMismatch(|d.files[main]|))
    else Success(d)
  }

  /** The copy and bookkeeping of an accepted write: the chunk lands at `start`,
      the offset becomes start + length, and the sidecar is dropped once the file
      is complete and rewritten otherwise. */
  function Accept(d: Disk, main: string, filesize: int, input: seq<byte>, start: nat, length: nat)
    : Outcome
    requires main in d.files
  {
    var count := CopyCount(input, length);
    var f := WriteAt(d.files[main], start, input[..count]);
    var offset := start + length;
    var sidecars :=
      if offset == filesize then d.sidecars - {SidecarPath(main)}
      else d.sidecars[SidecarPath(main) := Record(filesize, offset)];
    Outcome(Disk(d.files[main := f], sidecars), offset, Success(Written(count)))
  }

  /** The start-at-zero recovery: sidecar and file deleted, the file created anew. */
  function Restart(d: Disk, main: string, filesize: int): (r: Disk)
    requires filesize > 0
    ensures main in r.files && r.files[main] == Preallocate(filesize)
    ensures r.sidecars == d.sidecars - {SidecarPath(main)}
  {
    var cleared := Disk(d.files - {main}, d.sidecars - {SidecarPath(main)});
    var opening := OpenFile(cleared, main, filesize);
    opening.value
  }

  /** The try block of the current write(): read the sidecar and open the file;
      on any failure restart when start is 0, and rethrow otherwise. */
  function Prepare(d: Disk, main: string, filesize: int, offset: int, start: nat): (r: Step)
    requires filesize > 0
    ensures var read := ReadMetadata(d, main, filesize, offset);
            r.err.Some? <==> start != 0 && (read.err.Some? || OpenFile(read.disk, main, filesize).Failure?)
    ensures r.err.None? ==> main in r.disk.files && |r.disk.files[main]| == filesize
    ensures r.offset == ReadMetadata(d, main, filesize, offset).offset
  {
    var read := ReadMetadata(d, main, filesize, offset);
    var opening := if read.err.Some? then Failure(read.err.value) else OpenFile(read.disk, main, filesize);
    if opening.Failure? && start != 0 then Step(read.disk, read.offset, Some(opening.error))
    else Step(if opening.Success? then opening.value else Restart(read.disk, main, filesize), read.offset, None)
  }

  /** write() of the current builder: prepare, then refuse a start that is not the
      offset, and accept the chunk. */
  function WriteEffect(d: Disk, main: string, filesize: int, offset: int,
                       input: seq<byte>, start: nat, length: nat): Outcome
    requires filesize > 0
  {
    var ready := Prepare(d, main, filesize, offset, start);
    if ready.err.Some? then Outcome(ready.disk, ready.offset, Failure(ready.err.value))
    else if ready.offset != start then Outcome(ready.disk, ready.offset, Success(Rejected))
    else Accept(ready.disk, main, filesize, input, start, length)
  }

  /** write() of the older builder, whose sidecar was read at construction: a start
      that is not the offset is refused before any file is touched, and a failure
      to open the file is never recovered. */
  function LegacyWriteEffect(d: Disk, main: string, filesize: int, offset: int,
                             input: seq<byte>, start: nat, length: nat): (r: Outcome)
    requires filesize > 0
  {
    if offset != start then Outcome(d, offset, Success(Rejected))
    else match OpenFile(d, main, filesize)
      case Failure(e) => Outcome(d, offset, Failure(e))
      case Success(ready) => Accept(ready, main, filesize, input, start, length)
  }

  /** delete(): `unlink(file) || unlink(sidecar)`; the sidecar is only tried when
      there was no file to unlink. */
  function DeleteEffect(d: Disk, main: string): (r: (Disk, bool))
    ensures r.1 <==> main in d.files || SidecarPath(main) in d.sidecars
    ensures main !in r.0.files && r.0.files == d.files - {main}
    ensures main in d.files ==> r.0.sidecars == d.sidecars
    ensures main !in d.files ==> r.0.sidecars == d.sidecars - {SidecarPath(main)}
  {
    if main in d.files then (d.(files := d.files - {main}), true)
    else if SidecarPath(main) in d.sidecars then (d.(sidecars := d.sidecars - {SidecarPath(main)}), true)
    else (d, false)
  }

  /* ---- Properties of the current write() ---- */

  /** A write at offset 0 never throws: every failure is recovered by a restart. */
  lemma StartZeroNeverFails(d: Disk, main: string, filesize: int, offset: int,
                            input: seq<byte>, length: nat)
    requires filesize > 0
    ensures WriteEffect(d, main, filesize, offset, input, 0, length).result.Success?
  {
  }

  /** A write that throws has a non-zero start, leaves every file's bytes as they
      were, and only what reading the sidecar did persists. */
  lemma FailureTouchesNoFile(d: Disk, main: string, filesize: int, offset: int,
                             input: seq<byte>, start: nat, length: nat)
    requires filesize > 0
    ensures var r := WriteEffect(d, main, filesize, offset, input, start, length);
            r.result.Failure? ==>
              start != 0 && r.disk.files == d.files &&
              r.disk == ReadMetadata(d, main, filesize, offset).disk &&
              r.offset == ReadMetadata(d, main, filesize, offset).offset
  {
  }

  /** write() rethrows exactly when the start is not 0 and reading the sidecar
      or opening the file failed. */
  lemma WriteFailsIff(d: Disk, main: string, filesize: int, offset: int,
                      input: seq<byte>, start: nat, length: nat)
    requires filesize > 0
    ensures var read := ReadMetadata(d, main, filesize, offset);
            WriteEffect(d, main, filesize, offset, input, start, length).result.Failure? <==>
              start != 0 && (read.err.Some? || OpenFile(read.disk, main, filesize).Failure?)
  {
    var ready := Prepare(d, main, filesize, offset, start);
    if ready.err.None? && ready.offset == start {
      assert Accept(ready.disk, main, filesize, input, start, length).result.Success?;
    }
  }

  /** A write that goes through is Accept applied to the prepared disk. */
  lemma WrittenIsAccepted(d: Disk, main: string, filesize: int, offset: int,
                          input: seq<byte>, start: nat, length: nat)
    requires filesize > 0
    ensures var ready := Prepare(d, main, filesize, offset, start);
            var r := WriteEffect(d, main, filesize, offset, input, start, length);
            r.result.Success? && r.result.value.Written? ==>
              ready.err.None? && ready.offset == start && main in ready.disk.files &&
              r == Accept(ready.disk, main, filesize, input, start, length)
  {
  }

  /** When the sidecar read gives `start` and the file opens, write() is Accept on
      the opened file. */
  lemma WriteAtReadOffset(d: Disk, main: string, filesize: int, offset: int,
                          input: seq<byte>, start: nat, length: nat)
    requires filesize > 0
    requires var read := ReadMetadata(d, main, filesize, offset);
             read.err.None? && read.offset == start && OpenFile(read.disk, main, filesize).Success?
    ensures var file := OpenFile(ReadMetadata(d, main, filesize, offset).disk, main, filesize).value;
            main in file.files &&
            WriteEffect(d, main, filesize, offset, input, start, length)
              == Accept(file, main, filesize, input, start, length)
  {
  }

  /** A chunk is written exactly when its start equals the offset in force after
      the sidecar was read, unless the write threw. */
  lemma AcceptedIffAtOffset(d: Disk, main: string, filesize: int, offset: int,
                            input: seq<byte>, start: nat, length: nat)
    requires filesize > 0
    ensures var r := WriteEffect(d, main, filesize, offset, input, start, length);
            r.result.Success? ==>
              (r.result.value.Written? <==> ReadMetadata(d, main, filesize, offset).offset == start)
  {
  }

  /** A refused write copies no byte of the input: the file is the one found or a
      freshly preallocated one; the offset is the one read; and this upload's
      sidecar is never written (at most it is deleted). */
  lemma RejectWritesNothing(d: Disk, main: string, filesize: int, offset: int,
                            input: seq<byte>, start: nat, length: nat)
    requires filesize > 0
    ensures var r := WriteEffect(d, main, filesize, offset, input, start, length);
            r.result == Success(Rejected) ==>
              r.offset != start &&
              r.offset == ReadMetadata(d, main, filesize, offset).offset &&
              main in r.disk.files &&
              ((main in d.files && r.disk.files[main] == d.files[main]) ||
               r.disk.files[main] == Preallocate(filesize)) &&
              (SidecarPath(main) in r.disk.sidecars ==>
                 SidecarPath(main) in d.sidecars &&
                 r.disk.sidecars[SidecarPath(main)] == d.sidecars[SidecarPath(main)])
  {
  }

  /** An accepted write copies the chunk to `start`, leaves the other bytes alone
      when the chunk fits the file, moves the offset to start + length whatever was
      copied, and records the new offset unless the file is complete. */
  lemma AcceptedWrite(d: Disk, main: string, filesize: int, offset: int,
                      input: seq<byte>, start: nat, length: nat)
    requires filesize > 0
    ensures var r := WriteEffect(d, main, filesize, offset, input, start, length);
            var count := CopyCount(input, length);
            r.result.Success? && r.result.value.Written? ==>
              r.result.value.count == count &&
              r.offset == start + length &&
              main in r.disk.files &&
              (count > 0 ==> r.disk.files[main][start..start + count] == input[..count]) &&
              (start + count <= filesize ==> |r.disk.files[main]| == filesize) &&
              (r.offset == filesize <==> SidecarPath(main) !in r.disk.sidecars) &&
              (r.offset != filesize ==> r.disk.sidecars[SidecarPath(main)] == Record(filesize, r.offset))
  {
    WrittenIsAccepted(d, main, filesize, offset, input, start, length);
  }

  /** The progress of an unfinished upload survives in its sidecar: a new builder
      (offset 0) over the same file reads back start + length. */
  lemma ResumeFromSidecar(d: Disk, main: string, filesize: int, offset: int,
                          input: seq<byte>, start: nat, length: nat)
    requires filesize > 0
    requires var r := WriteEffect(d, main, filesize, offset, input, start, length);
             r.result.Success? && r.result.value.Written? && r.offset != filesize
    ensures var r := WriteEffect(d, main, filesize, offset, input, start, length);
            var again := ReadMetadata(r.disk, main, filesize, 0);
            again.err.None? && again.offset == start + length
  {
  }

  /** The restart at offset 0 keeps an offset read from a sidecar: a file of the
      wrong size whose sidecar records offset 1 is recreated, and the chunk at 0 is
      still refused. */
  lemma RestartKeepsStaleOffset()
    ensures var d := Disk(map["f" := [7]], map[SidecarPath("f") := Record(2, 1)]);
            var r := WriteEffect(d, "f", 2, 0, [1, 2], 0, 2);
            r.result == Success(Rejected) && r.offset == 1 &&
            r.disk.files["f"] == Preallocate(2) && SidecarPath("f") !in r.disk.sidecars
  {
    var d := Disk(map["f" := [7]], map[SidecarPath("f") := Record(2, 1)]);
    var read := ReadMetadata(d, "f", 2, 0);
    assert read.offset == 1 && read.err.None?;
    assert OpenFile(read.disk, "f", 2).Failure?;
  }

  /* ---- Properties of the older write() ---- */

  /** The older builder refuses a write exactly when start is not its offset, and
      then the disk is untouched. */
  lemma LegacyRejectIff(d: Disk, main: string, filesize: int, offset: int,
                        input: seq<byte>, start: nat, length: nat)
    requires filesize > 0
    ensures var r := LegacyWriteEffect(d, main, filesize, offset, input, start, length);
            (r.result == Success(Rejected) <==> offset != start) &&
            (r.result == Success(Rejected) ==> r.disk == d && r.offset == offset)
  {
  }

  /** The older builder has no recovery: an existing file of another size makes
      every write at the offset throw, and nothing changes. */
  lemma LegacyNoRestart(d: Disk, main: string, filesize: int, offset: int,
                        input: seq<byte>, start: nat, length: nat)
    requires filesize > 0
    requires main in d.files && |d.files[main]| != filesize && start == offset
    ensures var r := LegacyWriteEffect(d, main, filesize, offset, input, start, length);
            r == Outcome(d, offset, Failure(ExistingSizeMismatch(|d.files[main]|)))
  {
  }

  /** An accepted write of the older builder behaves as the current one's. */
  lemma LegacyAcceptedWrite(d: Disk, main: string, filesize: int, offset: int,
                            input: seq<byte>, start: nat, length: nat)
    requires filesize > 0
    ensures var r := LegacyWriteEffect(d, main, filesize, offset, input, start, length);
            r.result.Success? && r.result.value.Written? ==>
              start == offset && r.offset == start + length &&
              (r.offset == filesize <==> SidecarPath(main) !in r.disk.sidecars) &&
              (r.offset != filesize ==> r.disk.sidecars[SidecarPath(main)] == Record(filesize, r.offset))
  {
  }

  /* ---- Reassembly of a whole upload ---- */

  function Flatten(chunks: seq<seq<byte>>): seq<byte> {
    if chunks == [] then [] else chunks[0] + Flatten(chunks[1..])
  }

  predicate NonEmpty(chunks: seq<seq<byte>>) {
    forall i :: 0 <= i < |chunks| ==> chunks[i] != []
  }

  /** The disk between two requests of an upload that has reached `start`: nothing
      yet, or the preallocated file with the sidecar recording `start` until the
      file is complete. */
  predicate Between(d: Disk, main: string, filesize: int, start: nat) {
    (start == 0 && main !in d.files && SidecarPath(main) !in d.sidecars) ||
    (main in d.files && |d.files[main]| == filesize &&
     (start < filesize ==> SidecarPath(main) in d.sidecars &&
                           d.sidecars[SidecarPath(main)] == Record(filesize, start)) &&
     (start == filesize ==> SidecarPath(main) !in d.sidecars))
  }

  /** Requests sent one after the other, one per chunk, each starting where the
      previous one ended; `step` is what one request does to the disk. */
  function Run(step: (Disk, seq<byte>, nat) -> Disk, d: Disk, chunks: seq<seq<byte>>, start: nat): Disk
    decreases |chunks|
  {
    if chunks == [] then d else Run(step, step(d, chunks[0], start), chunks[1..], start + |chunks[0]|)
  }

  /** The disk after one request of an upload: a new builder (offset 0) writes
      the chunk with its size as length, as the controller does. */
  function NextDisk(d: Disk, main: string, filesize: int, c: seq<byte>, start: nat): Disk
    requires filesize > 0
  {
    WriteEffect(d, main, filesize, 0, c, start, |c|).disk
  }

  function Request(main: string, filesize: int): (Disk, seq<byte>, nat) -> Disk
    requires filesize > 0
  {
    (d: Disk, c: seq<byte>, start: nat) => NextDisk(d, main, filesize, c, start)
  }

  /** An upload sent as consecutive chunks through the builder of src/File. */
  function Upload(d: Disk, main: string, filesize: int, chunks: seq<seq<byte>>, start: nat): Disk
    requires filesize > 0
  {
    Run(Request(main, filesize), d, chunks, start)
  }

  /** One request through the older builder: construct (read the sidecar), then
      write. */
  function LegacyNextDisk(d: Disk, main: string, filesize: int, c: seq<byte>, start: nat): Disk
    requires filesize > 0
  {
    var read := ReadMetadata(d, main, filesize, 0);
    if read.err.Some? then read.disk
    else LegacyWriteEffect(read.disk, main, filesize, read.offset, c, start, |c|).disk
  }

  function LegacyRequest(main: string, filesize: int): (Disk, seq<byte>, nat) -> Disk
    requires filesize > 0
  {
    (d: Disk, c: seq<byte>, start: nat) => LegacyNextDisk(d, main, filesize, c, start)
  }

  /** The same upload through the older builder. */
  function LegacyUpload(d: Disk, main: string, filesize: int, chunks: seq<seq<byte>>, start: nat): Disk
    requires filesize > 0
  {
    Run(LegacyRequest(main, filesize), d, chunks, start)
  }

  /** The chunk `c` placed at `start` of the file, and the sidecar updated: what
      a request of an upload in progress amounts to. */
  function PlaceChunk(d: Disk, main: string, filesize: int, c: seq<byte>, start: nat): Disk {
    var f := if main in d.files then d.files[main] else Preallocate(filesize);
    var offset := start + |c|;
    var sc := SidecarPath(main);
    Disk(d.files[main := WriteAt(f, start, c)],
         if offset == filesize then d.sidecars - {sc} else d.sidecars[sc := Record(filesize, offset)])
  }

  /** The chunks of an upload placed one after the other. */
  function Placed(d: Disk, main: string, filesize: int, chunks: seq<seq<byte>>, start: nat): Disk
    decreases |chunks|
  {
    if chunks == [] then d
    else Placed(PlaceChunk(d, main, filesize, chunks[0], start), main, filesize, chunks[1..], start + |chunks[0]|)
  }

  /** One request of an upload in progress: both builders accept the chunk and
      place it. */
  lemma ChunkStep(d: Disk, main: string, filesize: int, c: seq<byte>, start: nat)
    requires filesize > 0 && c != [] && start + |c| <= filesize
    requires Between(d, main, filesize, start)
    ensures var r := WriteEffect(d, main, filesize, 0, c, start, |c|);
            r.result == Success(Written(|c|)) &&
            r.disk == PlaceChunk(d, main, filesize, c, start)
    ensures var read := ReadMetadata(d, main, filesize, 0);
            read.err.None? && read.offset == start &&
            LegacyWriteEffect(read.disk, main, filesize, read.offset, c, start, |c|)
              == WriteEffect(d, main, filesize, 0, c, start, |c|)
  {
    var sc := SidecarPath(main);
    var read := ReadMetadata(d, main, filesize, 0);
    assert read.err.None? && read.offset == start;
    assert read.disk == d by {
      if main !in d.files {
        assert d.sidecars - {sc} == d.sidecars;
      }
    }
    var opening := OpenFile(read.disk, main, filesize);
    assert opening.Success?;
    WriteAtReadOffset(d, main, filesize, 0, c, start, |c|);
    assert c[..CopyCount(c, |c|)] == c;
  }

  /** One request of an upload in progress, as each builder sees it. */
  lemma NextDiskPlaces(d: Disk, main: string, filesize: int, c: seq<byte>, start: nat)
    requires filesize > 0 && c != [] && start + |c| <= filesize
    requires Between(d, main, filesize, start)
    ensures NextDisk(d, main, filesize, c, start) == PlaceChunk(d, main, filesize, c, start)
    ensures LegacyNextDisk(d, main, filesize, c, start) == PlaceChunk(d, main, filesize, c, start)
  {
    ChunkStep(d, main, filesize, c, start);
  }

  /** A request that places every chunk of an upload in progress. */
  ghost predicate Places(step: (Disk, seq<byte>, nat) -> Disk, main: string, filesize: int) {
    forall d: Disk, c: seq<byte>, start: nat ::
      c != [] && start + |c| <= filesize && Between(d, main, filesize, start) ==>
        step(d, c, start) == PlaceChunk(d, main, filesize, c, start)
  }

  lemma RequestsPlace(main: string, filesize: int)
    requires filesize > 0
    ensures Places(Request(main, filesize), main, filesize)
    ensures Places(LegacyRequest(main, filesize), main, filesize)
  {
    forall d: Disk, c: seq<byte>, start: nat | c != [] && start + |c| <= filesize && Between(d, main, filesize, start)
      ensures Request(main, filesize)(d, c, start) == PlaceChunk(d, main, filesize, c, start)
      ensures LegacyRequest(main, filesize)(d, c, start) == PlaceChunk(d, main, filesize, c, start)
    {
      NextDiskPlaces(d, main, filesize, c, start);
    }
  }

  /** A placed chunk leaves the disk ready for the next one. */
  lemma PlaceChunkBetween(d: Disk, main: string, filesize: int, c: seq<byte>, start: nat)
    requires filesize > 0 && c != [] && start + |c| <= filesize
    requires Between(d, main, filesize, start)
    ensures Between(PlaceChunk(d, main, filesize, c, start), main, filesize, start + |c|)
  {
  }

  /** A placed chunk lands at `start` and keeps the bytes before it. */
  lemma PlaceChunkContent(d: Disk, main: string, filesize: int, c: seq<byte>, start: nat)
    requires filesize > 0 && c != [] && start + |c| <= filesize
    requires Between(d, main, filesize, start)
    ensures var f := PlaceChunk(d, main, filesize, c, start).files;
            main in f && |f[main]| == filesize && f[main][start..start + |c|] == c &&
            (main in d.files ==> f[main][..start] == d.files[main][..start])
  {
    var f := PlaceChunk(d, main, filesize, c, start).files[main];
    if main in d.files {
      forall i | 0 <= i < start ensures f[..start][i] == d.files[main][..start][i] {
        assert f[i] == d.files[main][i];
      }
    }
  }

  lemma NonEmptyTail(chunks: seq<seq<byte>>)
    requires chunks != [] && NonEmpty(chunks)
    ensures NonEmpty(chunks[1..])
  {
    forall i | 0 <= i < |chunks| - 1 ensures chunks[1..][i] != [] {
      assert chunks[1..][i] == chunks[i + 1];
    }
  }

  /** The first request of a run places the first chunk and leaves the rest of
      the upload ready to be placed. */
  lemma RunStep(step: (Disk, seq<byte>, nat) -> Disk, d: Disk, main: string,
                filesize: int, chunks: seq<seq<byte>>, start: nat)
    requires Places(step, main, filesize)
    requires filesize > 0 && NonEmpty(chunks) && start + |Flatten(chunks)| <= filesize
    requires Between(d, main, filesize, start) && chunks != []
    ensures var c := chunks[0];
            var next := PlaceChunk(d, main, filesize, c, start);
            NonEmpty(chunks[1..]) && start + |c| + |Flatten(chunks[1..])| <= filesize &&
            Between(next, main, filesize, start + |c|) &&
            Run(step, d, chunks, start) == Run(step, next, chunks[1..], start + |c|) &&
            Placed(d, main, filesize, chunks, start) == Placed(next, main, filesize, chunks[1..], start + |c|)
  {
    var c := chunks[0];
    assert |Flatten(chunks)| == |c| + |Flatten(chunks[1..])|;
    assert step(d, c, start) == PlaceChunk(d, main, filesize, c, start);
    PlaceChunkBetween(d, main, filesize, c, start);
    NonEmptyTail(chunks);
  }

  /** Requests that place each chunk, sent one after the other, do what placing
      the chunks does. */
  lemma {:induction false} RunIsPlaced(step: (Disk, seq<byte>, nat) -> Disk, d: Disk, main: string,
                                       filesize: int, chunks: seq<seq<byte>>, start: nat)
    requires Places(step, main, filesize)
    requires filesize > 0 && NonEmpty(chunks) && start + |Flatten(chunks)| <= filesize
    requires Between(d, main, filesize, start)
    decreases |chunks|
    ensures Run(step, d, chunks, start) == Placed(d, main, filesize, chunks, start)
  {
    if chunks != [] {
      RunStep(step, d, main, filesize, chunks, start);
      RunIsPlaced(step, PlaceChunk(d, main, filesize, chunks[0], start), main, filesize, chunks[1..],
                  start + |chunks[0]|);
    }
  }

  /** Both builders, request after request, do what placing the chunks does. */
  lemma UploadIsPlaced(d: Disk, main: string, filesize: int, chunks: seq<seq<byte>>, start: nat)
    requires filesize > 0 && NonEmpty(chunks) && start + |Flatten(chunks)| <= filesize
    requires Between(d, main, filesize, start)
    ensures Upload(d, main, filesize, chunks, start) == Placed(d, main, filesize, chunks, start)
    ensures LegacyUpload(d, main, filesize, chunks, start) == Placed(d, main, filesize, chunks, start)
  {
    RequestsPlace(main, filesize);
    RunIsPlaced(Request(main, filesize), d, main, filesize, chunks, start);
    RunIsPlaced(LegacyRequest(main, filesize), d, main, filesize, chunks, start);
  }

  /** After the chunks are placed the disk is ready for the next request. */
  lemma {:induction false} PlacedBetween(d: Disk, main: string, filesize: int,
                                         chunks: seq<seq<byte>>, start: nat)
    requires filesize > 0 && NonEmpty(chunks) && start + |Flatten(chunks)| <= filesize
    requires Between(d, main, filesize, start)
    decreases |chunks|
    ensures Between(Placed(d, main, filesize, chunks, start), main, filesize, start + |Flatten(chunks)|)
  {
    if chunks == [] {
      assert Flatten(chunks) == [];
    } else {
      var c := chunks[0];
      assert |Flatten(chunks)| == |c| + |Flatten(chunks[1..])|;
      PlaceChunkBetween(d, main, filesize, c, start);
      NonEmptyTail(chunks);
      PlacedBetween(PlaceChunk(d, main, filesize, c, start), main, filesize, chunks[1..], start + |c|);
    }
  }

  /** Gluing the piece a chunk wrote to the pieces written after it. */
  lemma Glue(e: seq<byte>, f: seq<byte>, start: nat, c: seq<byte>, rest: seq<byte>)
    requires start + |c| + |rest| <= |e| && start + |c| <= |f|
    requires e[..start + |c|] == f[..start + |c|]
    requires f[start..start + |c|] == c
    requires e[start + |c|..start + |c| + |rest|] == rest
    ensures e[start..start + |c| + |rest|] == c + rest
    ensures e[..start] == f[..start]
  {
    assert e[start..start + |c|] == f[start..start + |c|];
    assert e[start..start + |c| + |rest|] == e[start..start + |c|] + e[start + |c|..start + |c| + |rest|];
    assert e[..start] == e[..start + |c|][..start];
  }

  /** The main file after the chunks are placed, followed on the file alone. */
  function PlacedFile(f: seq<byte>, chunks: seq<seq<byte>>, start: nat): seq<byte>
    decreases |chunks|
  {
    if chunks == [] then f else PlacedFile(WriteAt(f, start, chunks[0]), chunks[1..], start + |chunks[0]|)
  }

  /** Placing chunks on the disk places them in the main file. */
  lemma {:induction false} PlacedMainFile(d: Disk, main: string, filesize: int, chunks: seq<seq<byte>>, start: nat)
    requires main in d.files
    decreases |chunks|
    ensures var e := Placed(d, main, filesize, chunks, start);
            main in e.files && e.files[main] == PlacedFile(d.files[main], chunks, start)
  {
    if chunks != [] {
      var c := chunks[0];
      var next := PlaceChunk(d, main, filesize, c, start);
      PlacedMainFile(next, main, filesize, chunks[1..], start + |c|);
    }
  }

  lemma WriteAtKeepsPrefix(f: seq<byte>, pos: nat, data: seq<byte>)
    requires pos <= |f|
    ensures WriteAt(f, pos, data)[..pos] == f[..pos]
  {
    var r := WriteAt(f, pos, data);
    if data != [] {
      forall i | 0 <= i < pos ensures r[..pos][i] == f[..pos][i] {
        assert r[i] == f[i];
      }
    }
  }

  /** Chunks placed in order in a file of the right size lie at `start` as their
      concatenation, and the bytes before `start` are kept. */
  lemma {:induction false} PlacedFileContent(f: seq<byte>, filesize: int, chunks: seq<seq<byte>>, start: nat)
    requires |f| == filesize && NonEmpty(chunks) && start + |Flatten(chunks)| <= filesize
    decreases |chunks|
    ensures var g := PlacedFile(f, chunks, start);
            |g| == filesize && g[start..start + |Flatten(chunks)|] == Flatten(chunks) && g[..start] == f[..start]
  {
    if chunks == [] {
      assert Flatten(chunks) == [];
    } else {
      var c, rest := chunks[0], chunks[1..];
      assert Flatten(chunks) == c + Flatten(rest);
      var next := WriteAt(f, start, c);
      var g := PlacedFile(next, rest, start + |c|);
      assert PlacedFile(f, chunks, start) == g;
      NonEmptyTail(chunks);
      PlacedFileContent(next, filesize, rest, start + |c|);
      PlaceFirstChunk(f, next, g, start, c, Flatten(rest));
    }
  }

  /** One step of PlacedFileContent: the first chunk written at `start`, then the
      rest written after it, leave both in a row and the bytes before `start` as
      they were. */
  lemma PlaceFirstChunk(f: seq<byte>, next: seq<byte>, g: seq<byte>, start: nat, c: seq<byte>, rest: seq<byte>)
    requires c != [] && start + |c| + |rest| <= |f|
    requires next == WriteAt(f, start, c)
    requires |g| == |next| && g[start + |c|..start + |c| + |rest|] == rest
    requires g[..start + |c|] == next[..start + |c|]
    ensures |g| == |f| && g[start..start + |c| + |rest|] == c + rest && g[..start] == f[..start]
  {
    WriteAtKeepsPrefix(f, start, c);
    Glue(g, next, start, c, rest);
  }

  /** Chunks placed in order lie at `start` as their concatenation, and the bytes
      before `start` are kept. */
  lemma PlacedContent(d: Disk, main: string, filesize: int, chunks: seq<seq<byte>>, start: nat)
    requires filesize > 0 && NonEmpty(chunks) && start + |Flatten(chunks)| <= filesize
    requires Between(d, main, filesize, start)
    ensures var e := Placed(d, main, filesize, chunks, start);
            (chunks != [] || main in d.files) ==>
              main in e.files && |e.files[main]| == filesize &&
              e.files[main][start..start + |Flatten(chunks)|] == Flatten(chunks) &&
              (main in d.files ==> e.files[main][..start] == d.files[main][..start])
  {
    if main in d.files {
      PlacedMainFile(d, main, filesize, chunks, start);
      PlacedFileContent(d.files[main], filesize, chunks, start);
    } else if chunks != [] {
      var c := chunks[0];
      var f := Preallocate(filesize);
      var next := PlaceChunk(d, main, filesize, c, start);
      assert next.files[main] == WriteAt(f, start, c);
      PlacedMainFile(next, main, filesize, chunks[1..], start + |c|);
      PlacedFileContent(f, filesize, chunks, start);
    }
  }

  /** A whole upload, from a disk holding neither file nor sidecar, leaves exactly
      the concatenation of its chunks and no sidecar, with either builder. */
  lemma UploadReassembles(d: Disk, main: string, filesize: int, chunks: seq<seq<byte>>)
    requires filesize > 0 && NonEmpty(chunks) && |Flatten(chunks)| == filesize
    requires main !in d.files && SidecarPath(main) !in d.sidecars
    ensures var e := Upload(d, main, filesize, chunks, 0);
            e == LegacyUpload(d, main, filesize, chunks, 0) &&
            main in e.files && e.files[main] == Flatten(chunks) &&
            SidecarPath(main) !in e.sidecars
  {
    UploadIsPlaced(d, main, filesize, chunks, 0);
    PlacedBetween(d, main, filesize, chunks, 0);
    assert chunks != [];
    PlacedContent(d, main, filesize, chunks, 0);
    var e := Placed(d, main, filesize, chunks, 0);
    assert e.files[main] == e.files[main][0..filesize];
  }
}
