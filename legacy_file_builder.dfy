/** The older FileBuilder (File/FileBuilder.php). It reads the sidecar when it is
    constructed, refuses a chunk at the wrong offset before touching any file, and
    has no restart path. Each method is proved against the functions of module
    ChunkStore. */
module LegacyFileBuilders {
  import opened Wrappers
  import opened PhpStrings
  import opened ChunkStore

  class LegacyFileBuilder {
    const volume: Volume
    const filesize: int
    const filename: string
    const path: string
    var offset: int

    /** The assignments of the source's constructor; `Open` adds the sidecar read
        that can make construction throw. */
    constructor Init(volume: Volume, filesize: int, filename: string, path: string, systemTemp: string)
      requires !GuardRejects(filesize)
      ensures this.volume == volume && this.filesize == filesize && this.filename == filename
      ensures this.path == (if Truthy(path) then path else systemTemp)
      ensures offset == 0
    {
      this.volume := volume;
      this.filesize := filesize;
      this.filename := filename;
      this.path := if Truthy(path) then path else systemTemp;
      offset := 0;
    }

    /** `new FileBuilder($filesize, $filename, $path)`: a builder whose offset was
        read from the sidecar, or the exception reading it threw (after the bad
        sidecar was deleted). */
    static method Open(volume: Volume, filesize: int, filename: string, path: string, systemTemp: string)
      returns (r: Result<LegacyFileBuilder, BuildError>)
      requires !GuardRejects(filesize)
      modifies volume
      ensures var main := (if Truthy(path) then path else systemTemp) + "/" + filename;
              var read := ReadMetadata(old(volume.Contents()), main, filesize, 0);
              volume.Contents() == read.disk &&
              (read.err.Some? ==> r == Failure(read.err.value)) &&
              (read.err.None? ==> r.Success? && fresh(r.value) && r.value.volume == volume &&
                                  r.value.filesize == filesize && r.value.AbsolutePath() == main &&
                                  r.value.offset == read.offset)
    {
      var b := new LegacyFileBuilder.Init(volume, filesize, filename, path, systemTemp);
      var err := b.ReadMetadataFile();
      if err.Some? {
        return Failure(err.value);
      }
      r := Success(b);
    }

    function AbsolutePath(): string {
      path + "/" + filename
    }

    function MetadataPath(): string {
      SidecarPath(AbsolutePath())
    }

    method DeleteMetadataFile()
      modifies volume
      ensures volume.files == old(volume.files)
      ensures volume.sidecars == old(volume.sidecars) - {MetadataPath()}
    {
      if MetadataPath() in volume.sidecars {
        volume.sidecars := volume.sidecars - {MetadataPath()};
      }
    }

    method WriteMetadataFile()
      modifies volume
      ensures volume.files == old(volume.files)
      ensures volume.sidecars == old(volume.sidecars)[MetadataPath() := Record(filesize, offset)]
    {
      volume.sidecars := volume.sidecars[MetadataPath() := Record(filesize, offset)];
    }

    method ReadMetadataFile() returns (err: Option<BuildError>)
      modifies this`offset, volume
      ensures Step(volume.Contents(), offset, err)
           == ReadMetadata(old(volume.Contents()), AbsolutePath(), filesize, old(offset))
    {
      var main := AbsolutePath();
      var sc := MetadataPath();
      err := None;
      if main !in volume.files {
        if sc in volume.sidecars {
          volume.sidecars := volume.sidecars - {sc};
        }
        assert volume.sidecars == old(volume.sidecars) - {sc};
      } else if sc in volume.sidecars {
        match volume.sidecars[sc]
        case Unreadable =>
          volume.sidecars := volume.sidecars - {sc};
          err := Some(MetadataUnreadable);
        case Record(size, recorded) =>
          if filesize != size {
            volume.sidecars := volume.sidecars - {sc};
            err := Some(SizeMismatch(size));
          } else {
            offset := recorded;
          }
      }
    }

    method OpenFile() returns (err: Option<BuildError>)
      requires filesize > 0
      modifies volume
      ensures match ChunkStore.OpenFile(old(volume.Contents()), AbsolutePath(), filesize)
              case Success(d) => err.None? && volume.Contents() == d
              case Failure(e) => err == Some(e) && volume.Contents() == old(volume.Contents())
    {
      var main := AbsolutePath();
      err := None;
      if main !in volume.files {
        volume.files := volume.files[main := Preallocate(filesize)];
      } else {
        var existing := |volume.files[main]|;
        if filesize != existing {
          err := Some(ExistingSizeMismatch(existing));
        }
      }
    }

    /** write($input, $start, $length): `input` is what is left to read of the
        request body, and a null length is 0. */
    method Write(input: seq<byte>, start: nat, length: nat) returns (r: Result<WriteOutcome, BuildError>)
      requires filesize > 0
      modifies this, volume
      ensures Outcome(volume.Contents(), offset, r)
           == LegacyWriteEffect(old(volume.Contents()), AbsolutePath(), filesize, old(offset), input, start, length)
    {
      if offset != start {
        return Success(Rejected);
      }
      var err := OpenFile();
      if err.Some? {
        return Failure(err.value);
      }
      var main := AbsolutePath();
      var count := CopyCount(input, length);
      volume.files := volume.files[main := WriteAt(volume.files[main], start, input[..count])];
      offset := start + length;
      if IsComplete() {
        DeleteMetadataFile();
      } else {
        WriteMetadataFile();
      }
      r := Success(Written(count));
    }

    /** The offset the next chunk must start at. */
    function GetOffset(): int
      reads this
    {
      offset
    }

    predicate IsComplete()
      reads this
    {
      offset == filesize
    }
  }
}
