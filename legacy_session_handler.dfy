/** The older session store (FileSessionHandler.php): the same token, field
    configuration and upload-directory logic as module SessionHandlers, reaching
    the session through the main request. Its token check reads a property the
    class never declares; both that check as written and the intended one are
    modelled. */
module LegacySessionHandlers {
  import opened Wrappers
  import opened PhpStrings
  import opened FieldConfigs
  import opened FileManagers
  import opened SessionHandlers

  /** isTokenValid as written: `$this->session` is undefined, so it is null, and
      once the token key is present the call `->get()` on it throws an Error. */
  function TokenCheckAsWritten(data: map<string, SessionValue>, token: string): (r: Result<bool, string>)
    ensures r.Failure? <==> TokenKey in data
    ensures r.Success? ==> !r.value
  {
    if TokenKey !in data then Success(false)
    else Failure("Error: call to a member function get() on null")
  }

  /** The check as written never accepts a token: before a token is stored it
      answers false, and afterwards it throws, even for the current token. */
  lemma TokenCheckAsWrittenNeverAccepts(data: map<string, SessionValue>, token: string)
    ensures TokenCheckAsWritten(data, token) != Success(true)
    ensures StoredToken(data) == Some(token) ==> TokenCheckAsWritten(data, token).Failure?
    ensures StoredToken(data) == Some(token) ==> TokenValid(data, token)
  {
  }

  class LegacyFileSessionHandler {
    const fileManager: FileManager
    /** `$requestStack->getMainRequest()->getSession()` */
    const session: Session
    const systemTemp: string
    var globalFields: map<string, FieldConfig>
    var uploadDirectory: Option<string>

    constructor(fileManager: FileManager, session: Session, systemTemp: string)
      requires WellKept(session.data)
      ensures Valid()
      ensures this.fileManager == fileManager && this.session == session && this.systemTemp == systemTemp
      ensures globalFields == map[] && uploadDirectory == None
    {
      this.fileManager := fileManager;
      this.session := session;
      this.systemTemp := systemTemp;
      globalFields := map[];
      uploadDirectory := None;
    }

    predicate Valid()
      reads this, session
    {
      WellKept(session.data)
    }

    method GetCurrentToken() returns (token: string)
      requires Valid()
      modifies session
      ensures Valid()
      ensures StoredToken(session.data) == Some(token)
      ensures old(StoredToken(session.data)).Some? ==>
                token == old(StoredToken(session.data)).value && session.data == old(session.data)
      ensures old(StoredToken(session.data)).None? ==> session.data == old(session.data)[TokenKey := Text(token)]
    {
      var stored := StoredToken(session.data);
      if stored.Some? {
        token := stored.value;
      } else {
        token := FileSessionHandler.NewToken();
        session.data := session.data[TokenKey := Text(token)];
      }
    }

    method RegenerateToken() returns (token: string)
      requires Valid()
      modifies session
      ensures Valid()
      ensures StoredToken(session.data) == Some(token)
      ensures session.data == old(session.data)[TokenKey := Text(token)]
    {
      session.data := session.data - {TokenKey};
      token := GetCurrentToken();
    }

    method GetUploadDirectory() returns (directory: string)
      modifies this`uploadDirectory
      ensures old(uploadDirectory).Some? ==> directory == old(uploadDirectory).value
      ensures old(uploadDirectory).None? ==> directory == UploadDirectoryFor(fileManager, systemTemp)
      ensures uploadDirectory == Some(directory)
    {
      if uploadDirectory.None? {
        uploadDirectory := Some(UploadDirectoryFor(fileManager, systemTemp));
      }
      directory := uploadDirectory.value;
    }

    method GetTemporaryFilePath(name: string) returns (path: string)
      requires Valid()
      modifies this`uploadDirectory, session
      ensures Valid()
      ensures uploadDirectory.Some? && StoredToken(session.data).Some?
      ensures path == TemporaryFilePath(uploadDirectory.value, StoredToken(session.data).value, name)
      ensures old(uploadDirectory).Some? ==> uploadDirectory == old(uploadDirectory)
      ensures old(StoredToken(session.data)).Some? ==> session.data == old(session.data)
    {
      var directory := GetUploadDirectory();
      var token := GetCurrentToken();
      path := TemporaryFilePath(directory, token, name);
    }

    /** isTokenValid as evidently intended, reading the session through
        getSession() in both places. */
    function IsTokenValid(token: string): (r: bool)
      reads this, session
      ensures Truthy(token) ==> (r <==> StoredToken(session.data) == Some(token))
    {
      TokenKey in session.data && session.data[TokenKey] == Text(token)
    }

    /** isTokenValid as written. */
    function IsTokenValidAsWritten(token: string): (r: Result<bool, string>)
      reads this, session
      ensures r.Failure? <==> TokenKey in session.data
    {
      TokenCheckAsWritten(session.data, token)
    }

    method AddGlobalFieldConfig(config: FieldConfig)
      modifies this`globalFields
      ensures globalFields == old(globalFields)[GetName(config) := config]
    {
      globalFields := globalFields[GetName(config) := config];
    }

    function GetGlobalFieldConfig(name: string): (r: Option<FieldConfig>)
      reads this
      ensures r.Some? <==> name in globalFields
      ensures r.Some? ==> r.value == globalFields[name]
    {
      if name in globalFields then Some(globalFields[name]) else None
    }

    method AddFieldConfig(config: FieldConfig)
      requires Valid()
      modifies session
      ensures Valid()
      ensures StoredToken(session.data).Some?
      ensures var token := StoredToken(session.data).value;
              var before := if old(StoredToken(session.data)).Some? then old(session.data)
                            else old(session.data)[TokenKey := Text(token)];
              session.data == before[FieldKey(token, GetName(config)) := Config(config)]
    {
      var token := GetCurrentToken();
      FieldKeyIsNotTokenKey(token, GetName(config));
      session.data := session.data[FieldKey(token, GetName(config)) := Config(config)];
    }

    method GetFieldConfig(name: string) returns (r: Result<Option<FieldConfig>, string>)
      requires Valid()
      modifies session
      ensures Valid()
      ensures StoredToken(session.data).Some?
      ensures old(StoredToken(session.data)).Some? ==> session.data == old(session.data)
      ensures r == LookupFieldConfig(session.data, globalFields, FieldKey(StoredToken(session.data).value, name), name)
    {
      var token := GetCurrentToken();
      r := LookupFieldConfig(session.data, globalFields, FieldKey(token, name), name);
    }
  }
}
