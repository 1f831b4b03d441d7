/** The session store of the upload form (src/FileSessionHandler/AbstractFileSessionHandler.php):
    a security token kept in the user's session, per-field configurations stored
    in the session under keys scoped by that token, global configurations kept by
    the handler, and the directory uploads are assembled in.

    The session is an object shared with the rest of the application; the handler
    reaches it through getSession(), so it is a class of its own here. The
    functions at the head of the module are the specification the handler's
    methods are proved against. */
module SessionHandlers {
  import opened Wrappers
  import opened PhpStrings
  import opened FieldConfigs
  import opened FileManagers

  /** FileSessionHandler::SESSION_TOKEN */
  const TokenKey: string := "filechunk_token"

  /** FileManager::SCHEME_UPLOAD and FileManager::SCHEME_TEMPORARY */
  const UploadScheme: string := "upload"
  const TemporaryScheme: string := "temporary"

  /** What the handler stores in a session: a token, or a field configuration. */
  datatype SessionValue = Text(s: string) | Config(config: FieldConfig)

  class Session {
    var data: map<string, SessionValue>

    constructor(data0: map<string, SessionValue>)
      ensures data == data0
    {
      data := data0;
    }
  }

  /** The token getCurrentToken() keeps: the stored one when it is truthy. */
  function StoredToken(data: map<string, SessionValue>): (r: Option<string>)
    ensures r.Some? <==> TokenKey in data && data[TokenKey].Text? && Truthy(data[TokenKey].s)
    ensures r.Some? ==> data[TokenKey] == Text(r.value) && Truthy(r.value)
  {
    if TokenKey in data && data[TokenKey].Text? && Truthy(data[TokenKey].s) then Some(data[TokenKey].s)
    else None
  }

  /** `$session->has(SESSION_TOKEN) && $session->get(SESSION_TOKEN) === $token` */
  predicate TokenValid(data: map<string, SessionValue>, token: string) {
    TokenKey in data && data[TokenKey] == Text(token)
  }

  /** getFieldSessionKey */
  function FieldKey(token: string, name: string): (r: string)
    ensures |r| == 11 + |token| + |name|
  {
    "filechunk_" + token + "_" + name
  }

  /** `$session->get($key) ?? $globalFields[$name] ?? null`, typed ?FieldConfig: a
      token stored under the key makes the return a TypeError. */
  function LookupFieldConfig(data: map<string, SessionValue>, globals: map<string, FieldConfig>,
                             key: string, name: string): Result<Option<FieldConfig>, string>
  {
    if key in data then
      match data[key]
      case Config(c) => Success(Some(c))
      case Text(_) => Failure("TypeError")
    else if name in globals then Success(Some(globals[name]))
    else Success(None)
  }

  /** ensureUploadDirectory's choice: the upload scheme's working directory, else
      "filechunk" under the temporary one, else under the system's. */
  function UploadDirectoryFor(fm: FileManager, systemTemp: string): string {
    match fm.GetWorkingDirectory(UploadScheme)
    case Success(wd) => wd
    case Failure(_) =>
      match fm.GetWorkingDirectory(TemporaryScheme)
      case Success(wd) => wd + "/filechunk"
      case Failure(_) => systemTemp + "/filechunk"
  }

  /** getTemporaryFilePath: a falsy name ("", "0", null) adds nothing. */
  function TemporaryFilePath(directory: string, token: string, name: string): string {
    directory + "/" + token + (if Truthy(name) then "/" + name else "")
  }

  /** A well-kept session holds text, if anything, under the token key. */
  predicate WellKept(data: map<string, SessionValue>) {
    TokenKey in data ==> data[TokenKey].Text?
  }

  class FileSessionHandler {
    const fileManager: FileManager
    const session: Session
    /** sys_get_temp_dir() */
    const systemTemp: string
    var globalFields: map<string, FieldConfig>
    var uploadDirectory: Option<string>

    /** The handler as SessionFileSessionHandler builds it around a session. */
    constructor(fileManager: FileManager, session: Session, systemTemp: string)
      requires WellKept(session.data)
      ensures Valid()
      ensures this.fileManager == fileManager && this.session == session && this.systemTemp == systemTemp
      ensures globalFields == map[] && uploadDirectory == None
    {
      this.fileManager := fileManager;
      this.session := session;
      this.systemTemp := systemTemp;
      globalFields := map[];
      uploadDirectory := None;
    }

    predicate Valid()
      reads this, session
    {
      WellKept(session.data)
    }

    /** base64_encode(mt_rand().mt_rand().mt_rand()): some non-empty string that
        does not read as "0". */
    static method NewToken() returns (token: string)
      ensures Truthy(token)
    {
      assert Truthy("MTIz");
      token :| Truthy(token);
    }

    /** getCurrentToken: the stored token, or a new one stored in its place. */
    method GetCurrentToken() returns (token: string)
      requires Valid()
      modifies session
      ensures Valid()
      ensures StoredToken(session.data) == Some(token)
      ensures old(StoredToken(session.data)).Some? ==>
                token == old(StoredToken(session.data)).value && session.data == old(session.data)
      ensures old(StoredToken(session.data)).None? ==> session.data == old(session.data)[TokenKey := Text(token)]
    {
      var stored := StoredToken(session.data);
      if stored.Some? {
        token := stored.value;
      } else {
        token := NewToken();
        session.data := session.data[TokenKey := Text(token)];
      }
    }

    /** regenerateToken: the stored token is removed and a new one generated. */
    method RegenerateToken() returns (token: string)
      requires Valid()
      modifies session
      ensures Valid()
      ensures StoredToken(session.data) == Some(token)
      ensures session.data == old(session.data)[TokenKey := Text(token)]
    {
      session.data := session.data - {TokenKey};
      token := GetCurrentToken();
    }

    /** getUploadDirectory: chosen on the first call and remembered. */
    method GetUploadDirectory() returns (directory: string)
      modifies this`uploadDirectory
      ensures old(uploadDirectory).Some? ==> directory == old(uploadDirectory).value
      ensures old(uploadDirectory).None? ==> directory == UploadDirectoryFor(fileManager, systemTemp)
      ensures uploadDirectory == Some(directory)
    {
      if uploadDirectory.None? {
        uploadDirectory := Some(UploadDirectoryFor(fileManager, systemTemp));
      }
      directory := uploadDirectory.value;
    }

    method GetTemporaryFilePath(name: string) returns (path: string)
      requires Valid()
      modifies this`uploadDirectory, session
      ensures Valid()
      ensures uploadDirectory.Some? && StoredToken(session.data).Some?
      ensures path == TemporaryFilePath(uploadDirectory.value, StoredToken(session.data).value, name)
      ensures old(uploadDirectory).Some? ==> uploadDirectory == old(uploadDirectory)
      ensures old(StoredToken(session.data)).Some? ==> session.data == old(session.data)
    {
      var directory := GetUploadDirectory();
      var token := GetCurrentToken();
      path := TemporaryFilePath(directory, token, name);
    }

    function IsTokenValid(token: string): (r: bool)
      reads this, session
      ensures r <==> TokenValid(session.data, token)
    {
      TokenKey in session.data && session.data[TokenKey] == Text(token)
    }

    /** addGlobalFieldConfig: keyed by the configuration's name; the last added wins. */
    method AddGlobalFieldConfig(config: FieldConfig)
      modifies this`globalFields
      ensures globalFields == old(globalFields)[GetName(config) := config]
    {
      globalFields := globalFields[GetName(config) := config];
    }

    function GetGlobalFieldConfig(name: string): (r: Option<FieldConfig>)
      reads this
      ensures r.Some? <==> name in globalFields
      ensures r.Some? ==> r.value == globalFields[name]
    {
      if name in globalFields then Some(globalFields[name]) else None
    }

    /** addFieldConfig: stored in the session under the current token's key. */
    method AddFieldConfig(config: FieldConfig)
      requires Valid()
      modifies session
      ensures Valid()
      ensures StoredToken(session.data).Some?
      ensures var token := StoredToken(session.data).value;
              var before := if old(StoredToken(session.data)).Some? then old(session.data)
                            else old(session.data)[TokenKey := Text(token)];
              session.data == before[FieldKey(token, GetName(config)) := Config(config)]
    {
      var token := GetCurrentToken();
      FieldKeyIsNotTokenKey(token, GetName(config));
      session.data := session.data[FieldKey(token, GetName(config)) := Config(config)];
    }

    /** getFieldConfig: the session's entry for the current token, else the global one. */
    method GetFieldConfig(name: string) returns (r: Result<Option<FieldConfig>, string>)
      requires Valid()
      modifies session
      ensures Valid()
      ensures StoredToken(session.data).Some?
      ensures old(StoredToken(session.data)).Some? ==> session.data == old(session.data)
      ensures r == LookupFieldConfig(session.data, globalFields, FieldKey(StoredToken(session.data).value, name), name)
    {
      var token := GetCurrentToken();
      r := LookupFieldConfig(session.data, globalFields, FieldKey(token, name), name);
    }
  }

  /** A field's key is never the token's key, so storing a configuration leaves
      the token alone. */
  lemma FieldKeyIsNotTokenKey(token: string, name: string)
    ensures FieldKey(token, name) != TokenKey
  {
    var k := FieldKey(token, name);
    if |k| == |TokenKey| {
      assert k[10 + |token|] == '_';
      assert TokenKey[10..] == "token";
      assert forall i :: 10 <= i < |TokenKey| ==> TokenKey[i] != '_';
    }
  }

  /** Under one token, different field names have different keys. */
  lemma FieldKeyInjective(token: string, a: string, b: string)
    requires FieldKey(token, a) == FieldKey(token, b)
    ensures a == b
  {
    var n := 11 + |token|;
    assert a == FieldKey(token, a)[n..];
    assert b == FieldKey(token, b)[n..];
  }

  /** getFieldConfig: a configuration stored in the session wins; otherwise the
      global one for the name; otherwise nothing. */
  lemma LookupPrefersSession(data: map<string, SessionValue>, globals: map<string, FieldConfig>,
                             key: string, name: string)
    ensures key in data && data[key].Config? ==>
              LookupFieldConfig(data, globals, key, name) == Success(Some(data[key].config))
    ensures key !in data && name in globals ==>
              LookupFieldConfig(data, globals, key, name) == Success(Some(globals[name]))
    ensures key !in data && name !in globals ==> LookupFieldConfig(data, globals, key, name) == Success(None)
    ensures LookupFieldConfig(data, globals, key, name).Failure? <==> key in data && data[key].Text?
  {
  }

  /** addFieldConfig then getFieldConfig under the same token: the name just added
      gives the added configuration, whatever the globals; any other name is
      looked up as before. */
  lemma AddThenLookup(data: map<string, SessionValue>, globals: map<string, FieldConfig>,
                      token: string, config: FieldConfig, other: string)
    requires other != GetName(config)
    ensures var added := data[FieldKey(token, GetName(config)) := Config(config)];
            LookupFieldConfig(added, globals, FieldKey(token, GetName(config)), GetName(config)) == Success(Some(config)) &&
            LookupFieldConfig(added, globals, FieldKey(token, other), other)
              == LookupFieldConfig(data, globals, FieldKey(token, other), other)
  {
    if FieldKey(token, other) == FieldKey(token, GetName(config)) {
      FieldKeyInjective(token, other, GetName(config));
    }
  }

  /** isTokenValid against the stored token: a truthy argument is valid exactly
      when it is the token getCurrentToken() returns. */
  lemma TokenValidIsStored(data: map<string, SessionValue>, token: string)
    requires Truthy(token)
    ensures TokenValid(data, token) <==> StoredToken(data) == Some(token)
  {
  }

  /** After regenerateToken, the new token is valid and an earlier one is valid
      only when the generator happened to give it back. */
  lemma RegeneratedTokenValidity(data: map<string, SessionValue>, previous: string, next: string)
    ensures TokenValid(data[TokenKey := Text(next)], next)
    ensures TokenValid(data[TokenKey := Text(next)], previous) <==> previous == next
  {
  }

  /** The upload directory follows the registry: the upload scheme's working
      directory when it is registered, else "filechunk" under the temporary one,
      else under the system's temporary directory. */
  lemma UploadDirectoryChoice(fm: FileManager, systemTemp: string)
    ensures fm.IsKnownScheme(UploadScheme) ==>
              SchemeEntry(UploadScheme, UploadDirectoryFor(fm, systemTemp)) in fm.knownSchemes
    ensures !fm.IsKnownScheme(UploadScheme) && fm.IsKnownScheme(TemporaryScheme) ==>
              exists wd :: SchemeEntry(TemporaryScheme, wd) in fm.knownSchemes &&
                           UploadDirectoryFor(fm, systemTemp) == wd + "/filechunk"
    ensures !fm.IsKnownScheme(UploadScheme) && !fm.IsKnownScheme(TemporaryScheme) ==>
              UploadDirectoryFor(fm, systemTemp) == systemTemp + "/filechunk"
  {
    if !fm.IsKnownScheme(UploadScheme) && fm.IsKnownScheme(TemporaryScheme) {
      var wd := fm.GetWorkingDirectory(TemporaryScheme).value;
      assert SchemeEntry(TemporaryScheme, wd) in fm.knownSchemes;
    }
  }

  /** The temporary path is the token's directory, with the name as its last
      segment when one is given. */
  lemma TemporaryFilePathShape(directory: string, token: string, name: string)
    ensures directory + "/" + token <= TemporaryFilePath(directory, token, name)
    ensures !Truthy(name) ==> TemporaryFilePath(directory, token, name) == directory + "/" + token
    ensures Truthy(name) ==> TemporaryFilePath(directory, token, name)[|directory| + |token| + 1..] == "/" + name
  {
  }
}
