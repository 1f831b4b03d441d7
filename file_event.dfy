/** The event dispatched when an upload has finished (FileEvent.php). Listeners
    may move the file and record its new location; the original location never
    changes, and once a listener has moved the file away the event says so for
    good. */
module FileEvents {
  import opened Wrappers
  import opened FieldConfigs

  /** FileEvent::EVENT_UPLOAD_FINISHED */
  const UploadFinished: string := "filechunk:upload"

  /** Whether any of the locations set so far differs from the original one. */
  predicate MovedAway(original: string, locations: seq<string>) {
    exists i :: 0 <= i < |locations| && locations[i] != original
  }

  /** Once moved, always moved: later locations, the original among them, do not
      undo it. */
  lemma MovedAwayIsSticky(original: string, locations: seq<string>, later: seq<string>)
    requires MovedAway(original, locations)
    ensures MovedAway(original, locations + later)
  {
    var i :| 0 <= i < |locations| && locations[i] != original;
    assert (locations + later)[i] == locations[i];
  }

  /** Setting one more location moves the file exactly when it had moved before
      or the new location is not the original. */
  lemma MovedAwayStep(original: string, locations: seq<string>, uri: string)
    ensures MovedAway(original, locations + [uri]) <==> MovedAway(original, locations) || uri != original
  {
    var next := locations + [uri];
    if uri != original {
      assert next[|locations|] == uri;
    }
    if MovedAway(original, locations) {
      MovedAwayIsSticky(original, locations, [uri]);
    }
    if MovedAway(original, next) {
      var i :| 0 <= i < |next| && next[i] != original;
      if i < |locations| {
        assert locations[i] == next[i];
      }
    }
  }

  class FileEvent {
    const fieldConfig: Option<FieldConfig>
    const filesize: int
    const mimetype: Option<string>
    const originalUri: string
    const sha1sum: Option<string>
    var uri: string
    var hasMoved: bool
    /** Every location setNewLocation has received, in order. */
    ghost var locations: seq<string>

    /** The current location is the last one set, or the original one; the moved
        flag tells whether any location set so far was not the original. */
    ghost predicate Valid()
      reads this
    {
      uri == (if locations == [] then originalUri else locations[|locations| - 1]) &&
      (hasMoved <==> MovedAway(originalUri, locations))
    }

    /** FileEvent::with(): the file is where it was uploaded and has not moved. */
    constructor With(uri: string, filesize: int, sha1sum: Option<string>, mimetype: Option<string>,
                     fieldConfig: Option<FieldConfig>)
      ensures Valid()
      ensures GetFileUri() == uri && GetOriginalFileUri() == uri && !HasFileMoved()
      ensures this.filesize == filesize && this.sha1sum == sha1sum && this.mimetype == mimetype
      ensures this.fieldConfig == fieldConfig && locations == []
    {
      this.fieldConfig := fieldConfig;
      this.filesize := filesize;
      this.mimetype := mimetype;
      this.sha1sum := sha1sum;
      this.originalUri := uri;
      this.uri := uri;
      hasMoved := false;
      locations := [];
    }

    /** setNewLocation: the file is now at `newUri`; it has moved if it was moved
        before or `newUri` is not where it was uploaded. */
    method SetNewLocation(newUri: string)
      requires Valid()
      modifies this
      ensures Valid()
      ensures GetFileUri() == newUri && locations == old(locations) + [newUri]
      ensures HasFileMoved() <==> old(HasFileMoved()) || newUri != originalUri
    {
      MovedAwayStep(originalUri, locations, newUri);
      uri := newUri;
      if newUri != originalUri {
        hasMoved := true;
      }
      locations := locations + [newUri];
    }

    function GetOriginalFileUri(): string {
      originalUri
    }

    function HasFileMoved(): bool
      reads this
    {
      hasMoved
    }

    function HasFieldConfig(): (r: bool)
      ensures r <==> GetFieldConfig().Some?
    {
      fieldConfig.Some?
    }

    function GetFieldConfig(): Option<FieldConfig> {
      fieldConfig
    }

    function GetFileUri(): string
      reads this
    {
      uri
    }

    function GetFilesize(): int {
      filesize
    }

    /** getSha1Summary(): string, a TypeError when no checksum was given. */
    function GetSha1Summary(): (r: Result<string, string>)
      ensures r.Success? <==> sha1sum.Some?
      ensures r.Success? ==> sha1sum == Some(r.value)
    {
      if sha1sum.Some? then Success(sha1sum.value) else Failure("TypeError")
    }
  }

  /** A listener moves the file away and a later one puts it back: the file is
      where it started, and the event still says it moved. */
  lemma MovedAwayThenBack(original: string, elsewhere: string)
    requires elsewhere != original
    ensures MovedAway(original, [elsewhere, original])
  {
    assert [elsewhere, original][0] != original;
  }
}
