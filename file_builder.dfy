/** The current FileBuilder (src/File/FileBuilder.php): a builder per request that
    assembles one target file out of chunks, keeping its progress in a
    ".metadata.json" sidecar. The files live in a Volume shared by every builder;
    each method is proved against the functions of module ChunkStore. */
module FileBuilders {
  import opened Wrappers
  import opened PhpStrings
  import opened ChunkStore

  class FileBuilder {
    const volume: Volume
    const filesize: int
    const filename: string
    const path: string
    var offset: int
    var lastWriteSize: nat

    /** `systemTemp` stands for sys_get_temp_dir(), used when no path is given
        (a null path is the empty string here). The size must be positive: the
        source's guard meant to demand it does not. */
    constructor (volume: Volume, filesize: int, filename: string, path: string, systemTemp: string)
      requires !GuardRejects(filesize)
      ensures this.volume == volume && this.filesize == filesize && this.filename == filename
      ensures this.path == (if Truthy(path) then path else systemTemp)
      ensures offset == 0 && lastWriteSize == 0
    {
      this.volume := volume;
      this.filesize := filesize;
      this.filename := filename;
      this.path := if Truthy(path) then path else systemTemp;
      offset := 0;
      lastWriteSize := 0;
    }

    function AbsolutePath(): string {
      path + "/" + filename
    }

    function MetadataPath(): string {
      SidecarPath(AbsolutePath())
    }

    method DeleteMetadataFile()
      modifies volume
      ensures volume.files == old(volume.files)
      ensures volume.sidecars == old(volume.sidecars) - {MetadataPath()}
    {
      if MetadataPath() in volume.sidecars {
        volume.sidecars := volume.sidecars - {MetadataPath()};
      }
    }

    method WriteMetadataFile()
      modifies volume
      ensures volume.files == old(volume.files)
      ensures volume.sidecars == old(volume.sidecars)[MetadataPath() := Record(filesize, offset)]
    {
      volume.sidecars := volume.sidecars[MetadataPath() := Record(filesize, offset)];
    }

    method DeleteTemporaryFile()
      modifies volume
      ensures volume.files == old(volume.files) - {AbsolutePath()}
      ensures volume.sidecars == old(volume.sidecars)
    {
      if AbsolutePath() in volume.files {
        volume.files := volume.files - {AbsolutePath()};
      }
    }

    method ReadMetadataFile() returns (err: Option<BuildError>)
      modifies this`offset, volume
      ensures Step(volume.Contents(), offset, err)
           == ReadMetadata(old(volume.Contents()), AbsolutePath(), filesize, old(offset))
    {
      var main := AbsolutePath();
      var sc := MetadataPath();
      err := None;
      if main !in volume.files {
        if sc in volume.sidecars {
          volume.sidecars := volume.sidecars - {sc};
        }
        assert volume.sidecars == old(volume.sidecars) - {sc};
      } else if sc in volume.sidecars {
        match volume.sidecars[sc]
        case Unreadable =>
          volume.sidecars := volume.sidecars - {sc};
          err := Some(MetadataUnreadable);
        case Record(size, recorded) =>
          if filesize != size {
            volume.sidecars := volume.sidecars - {sc};
            err := Some(SizeMismatch(size));
          } else {
            offset := recorded;
          }
      }
    }

    method OpenFile() returns (err: Option<BuildError>)
      requires filesize > 0
      modifies volume
      ensures match ChunkStore.OpenFile(old(volume.Contents()), AbsolutePath(), filesize)
              case Success(d) => err.None? && volume.Contents() == d
              case Failure(e) => err == Some(e) && volume.Contents() == old(volume.Contents())
    {
      var main := AbsolutePath();
      err := None;
      if main !in volume.files {
        volume.files := volume.files[main := Preallocate(filesize)];
      } else {
        var existing := |volume.files[main]|;
        if filesize != existing {
          err := Some(ExistingSizeMismatch(existing));
        }
      }
    }

    /** The try/catch at the head of write(). */
    method Prepare(start: nat) returns (err: Option<BuildError>)
      requires filesize > 0
      modifies this`offset, volume
      ensures Step(volume.Contents(), offset, err)
           == ChunkStore.Prepare(old(volume.Contents()), AbsolutePath(), filesize, old(offset), start)
    {
      err := ReadMetadataFile();
      ghost var read := Step(volume.Contents(), offset, err);
      if err.None? {
        err := OpenFile();
      }
      if err.Some? && start == 0 {
        DeleteMetadataFile();
        DeleteTemporaryFile();
        var again := OpenFile();
        assert again.None?;
        assert volume.Contents() == Restart(read.disk, AbsolutePath(), filesize);
        err := None;
      }
    }

    /** The copy and bookkeeping of an accepted write. */
    method Accept(input: seq<byte>, start: nat, length: nat) returns (count: nat)
      requires AbsolutePath() in volume.files
      modifies this, volume
      ensures Outcome(volume.Contents(), offset, Success(Written(count)))
           == ChunkStore.Accept(old(volume.Contents()), AbsolutePath(), filesize, input, start, length)
      ensures lastWriteSize == count
    {
      var main := AbsolutePath();
      count := CopyCount(input, length);
      volume.files := volume.files[main := WriteAt(volume.files[main], start, input[..count])];
      offset := start + length;
      if IsComplete() {
        DeleteMetadataFile();
      } else {
        WriteMetadataFile();
      }
      lastWriteSize := count;
    }

    /** write($input, $start, $length): `input` is what is left to read of the
        request body, and a null length is 0. */
    method Write(input: seq<byte>, start: nat, length: nat) returns (r: Result<WriteOutcome, BuildError>)
      requires filesize > 0
      modifies this, volume
      ensures Outcome(volume.Contents(), offset, r)
           == WriteEffect(old(volume.Contents()), AbsolutePath(), filesize, old(offset), input, start, length)
      ensures lastWriteSize == (if r.Success? && r.value.Written? then r.value.count else old(lastWriteSize))
    {
      var err := Prepare(start);
      if err.Some? {
        return Failure(err.value);
      }
      if offset != start {
        return Success(Rejected);
      }
      var count := Accept(input, start, length);
      r := Success(Written(count));
    }

    /** delete(): true when the file or, failing that, the sidecar was unlinked. */
    method Delete() returns (deleted: bool)
      modifies volume
      ensures (volume.Contents(), deleted) == DeleteEffect(old(volume.Contents()), AbsolutePath())
    {
      var main := AbsolutePath();
      deleted := false;
      if main in volume.files {
        volume.files := volume.files - {main};
        deleted := true;
      }
      if !deleted && MetadataPath() in volume.sidecars {
        volume.sidecars := volume.sidecars - {MetadataPath()};
        deleted := true;
      }
    }

    /** The bytes the last accepted write copied; 0 before any. */
    function GetLastWriteSize(): nat
      reads this
    {
      lastWriteSize
    }

    /** The offset the next chunk must start at. */
    function GetOffset(): int
      reads this
    {
      offset
    }

    predicate IsComplete()
      reads this
    {
      offset == filesize
    }
  }
}
