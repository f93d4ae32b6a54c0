/** `ContentfulUploadAPI` in `src/api_integration/upload.py`: where the
    credentials come from, and how `upload_asset` names the uploaded file
    and its content type. The content-store SDK, the file system and the
    UUID generator are outside the model; UUIDs arrive as parameters. */
module Upload {
  import opened Wrappers
  import opened PyStr

  const TokenVariable: string := "CONTENTFUL_MANAGEMENT_API_TOKEN"
  const SpaceVariable: string := "CONTENTFUL_SPACE_ID"
  const EnvironmentVariable: string := "CONTENTFUL_ENVIRONMENT_ID"

  const MissingSettingsMessage: string :=
    "Must Set CONTENTFUL_MANAGEMENT_API_TOKEN, CONTENTFUL_SPACE_ID, and CONTENTFUL_ENVIRONMENT_ID"

  /** The literal the source hands to the SDK client in place of the token. */
  const ClientTokenLiteral: string := "MANAGEMENT_API_TOKEN"

  datatype Credentials = Credentials(token: string, spaceId: string, environmentId: string)

  /** `os.environ[name]` raises KeyError for a missing name; the guard on
      None raises ValueError. */
  datatype InitError = KeyError(variable: string) | ValueError(message: string)

  // ---------------------------------------------------------------------
  // Credential fallback
  // ---------------------------------------------------------------------

  /** One credential after the fallback: the argument if given, otherwise
      the environment's value, otherwise nothing. */
  function Fallback(arg: Option<string>, variable: string, environ: map<string, string>): Option<string> {
    if arg.Some? then arg else if variable in environ then Some(environ[variable]) else None
  }

  /** The credentials `__init__` settles on, or the exception it raises:
      the first credential, in argument order, that is neither given nor
      set in the environment raises KeyError. */
  function Resolved(token: Option<string>, spaceId: Option<string>, environmentId: Option<string>,
                    environ: map<string, string>): Result<Credentials, InitError>
  {
    var t := Fallback(token, TokenVariable, environ);
    var s := Fallback(spaceId, SpaceVariable, environ);
    var e := Fallback(environmentId, EnvironmentVariable, environ);
    if t.None? then Err(KeyError(TokenVariable))
    else if s.None? then Err(KeyError(SpaceVariable))
    else if e.None? then Err(KeyError(EnvironmentVariable))
    else Ok(Credentials(t.value, s.value, e.value))
  }

  /** Construction succeeds exactly when every credential is given or set
      in the environment; a given argument is kept as it is and a missing
      one takes the environment's value. */
  lemma ResolvedSpec(token: Option<string>, spaceId: Option<string>, environmentId: Option<string>,
                     environ: map<string, string>)
    ensures var r := Resolved(token, spaceId, environmentId, environ);
      (r.Ok? <==> (token.Some? || TokenVariable in environ)
                  && (spaceId.Some? || SpaceVariable in environ)
                  && (environmentId.Some? || EnvironmentVariable in environ))
      && (r.Ok? ==>
            r.value.token == (if token.Some? then token.value else environ[TokenVariable])
            && r.value.spaceId == (if spaceId.Some? then spaceId.value else environ[SpaceVariable])
            && r.value.environmentId ==
                 (if environmentId.Some? then environmentId.value else environ[EnvironmentVariable]))
  {
  }

  /** The ValueError guard never fires: a credential still missing after
      the fallback has already raised KeyError. */
  lemma ResolvedNeverValueError(token: Option<string>, spaceId: Option<string>, environmentId: Option<string>,
                                environ: map<string, string>)
    ensures var r := Resolved(token, spaceId, environmentId, environ);
      r.Err? ==> r.error.KeyError? && r.error.variable in {TokenVariable, SpaceVariable, EnvironmentVariable}
  {
  }

  // ---------------------------------------------------------------------
  // File naming in upload_asset
  // ---------------------------------------------------------------------

  /** `local_file_path.split(".")[-1]`: the text after the last dot, or
      the whole path when it has no dot. */
  function Extension(path: string): (ext: string)
    ensures '.' !in ext
    ensures |ext| <= |path| && ext == path[|path| - |ext|..]
    ensures '.' !in path ==> ext == path
    ensures '.' in path ==> |ext| < |path| && path[|path| - |ext| - 1] == '.'
  {
    var pieces := Split(path, '.');
    var n := |pieces|;
    SplitJoin(path, '.');
    assert pieces == pieces[..n - 1] + [pieces[n - 1]];
    JoinSnoc(pieces[..n - 1], pieces[n - 1], ".");
    pieces[n - 1]
  }

  /** The file entry of the asset `upload_asset` creates. */
  datatype AssetFile = AssetFile(fileName: string, contentType: string)

  /** The asset creation request: its id and where it is created. */
  datatype AssetRequest = AssetRequest(spaceId: string, environmentId: string, assetId: string, file: AssetFile)

  /** The content type is `image/` followed by the extension. */
  function ContentType(path: string): (r: string)
    ensures |r| >= 6 && r[..6] == "image/" && r[6..] == Extension(path)
  {
    "image/" + Extension(path)
  }

  /** The file name is a UUID, a dot and the extension: it starts with
      the UUID and a dot, ends with a dot and the extension, holds nothing
      else, and the part after its last dot is the path's extension. */
  function FileName(fileUuid: string, path: string): (r: string)
    ensures |r| == |fileUuid| + 1 + |Extension(path)|
    ensures r[..|fileUuid| + 1] == fileUuid + "."
    ensures EndsWith(r, "." + Extension(path))
    ensures Extension(r) == Extension(path)
  {
    var ext := Extension(path);
    var r := fileUuid + "." + ext;
    assert r[|r| - |ext| - 1..] == "." + ext;
    assert r[|fileUuid|] == '.' && r[|fileUuid| + 1..] == ext;
    ExtensionAfterLastDot(r, |fileUuid|);
    r
  }

  /** Whatever precedes a dot, the extension is what follows the last one. */
  lemma ExtensionAfterLastDot(s: string, i: nat)
    requires i < |s| && s[i] == '.' && '.' !in s[i + 1..]
    ensures Extension(s) == s[i + 1..]
  {
  }

  /** For a path without a dot, the whole path is taken as the extension. */
  lemma NoDotPathExtension(path: string)
    requires '.' !in path
    ensures ContentType(path) == "image/" + path
  {
  }

  // ---------------------------------------------------------------------
  // The client object
  // ---------------------------------------------------------------------

  class ContentfulUploadAPI {
    /** The token the SDK client is built with as written: always the
        literal, whatever token was resolved. */
    const writtenClientToken: string
    /** The token the SDK client is evidently meant to be built with: the
        resolved one. */
    const clientToken: string
    const spaceId: string
    const environmentId: string

    constructor FromCredentials(c: Credentials)
      ensures writtenClientToken == ClientTokenLiteral
      ensures clientToken == c.token && spaceId == c.spaceId && environmentId == c.environmentId
    {
      writtenClientToken := ClientTokenLiteral;
      clientToken := c.token;
      spaceId := c.spaceId;
      environmentId := c.environmentId;
    }

    /** `__init__`: each missing argument is read from the environment,
        then the ValueError guard runs, then the fields are set. */
    static method Create(token: Option<string>, spaceId: Option<string>, environmentId: Option<string>,
                         environ: map<string, string>)
      returns (r: Result<ContentfulUploadAPI, InitError>)
      ensures var expected := Resolved(token, spaceId, environmentId, environ);
        (r.Ok? <==> expected.Ok?)
        && (r.Err? ==> r.error == expected.error)
        && (r.Ok? ==> fresh(r.value)
                      && r.value.writtenClientToken == ClientTokenLiteral
                      && r.value.clientToken == expected.value.token
                      && r.value.spaceId == expected.value.spaceId
                      && r.value.environmentId == expected.value.environmentId)
    {
      var managementApiToken, space, environment := token, spaceId, environmentId;
      if managementApiToken.None? {
        if TokenVariable !in environ {
          return Err(KeyError(TokenVariable));
        }
        managementApiToken := Some(environ[TokenVariable]);
      }
      if space.None? {
        if SpaceVariable !in environ {
          return Err(KeyError(SpaceVariable));
        }
        space := Some(environ[SpaceVariable]);
      }
      if environment.None? {
        if EnvironmentVariable !in environ {
          return Err(KeyError(EnvironmentVariable));
        }
        environment := Some(environ[EnvironmentVariable]);
      }
      var stillMissing := None in [managementApiToken, space, environment];
      if !stillMissing {
        var api := new ContentfulUploadAPI.FromCredentials(
          Credentials(managementApiToken.value, space.value, environment.value));
        r := Ok(api);
      } else {
        r := Err(ValueError(MissingSettingsMessage));
      }
    }

    /** A construction that shows the two tokens apart: with the token
        passed as `cfpat-1`, the client as written gets the literal, while
        the resolved token is `cfpat-1`. */
    static method ClientTokenCounterexample() returns (written: string, resolved: string)
      ensures resolved == "cfpat-1"
      ensures written == ClientTokenLiteral && written != resolved
    {
      var r := Create(Some("cfpat-1"), Some("space"), Some("master"), map[]);
      written, resolved := r.value.writtenClientToken, r.value.clientToken;
    }

    /** The naming part of `upload_asset` for `localFilePath`: `assetId`
        and `fileUuid` are the two `uuid4()` values it draws. The asset is
        created in this object's space and environment under `assetId`;
        the file name uses the other UUID, and the content type names the
        same extension as the file name. */
    function AssetRequestFor(localFilePath: string, assetId: string, fileUuid: string): (r: AssetRequest)
      ensures r.spaceId == spaceId && r.environmentId == environmentId && r.assetId == assetId
      ensures Extension(r.file.fileName) == Extension(localFilePath)
      ensures r.file.contentType == "image/" + Extension(r.file.fileName)
      ensures |r.file.fileName| > |fileUuid| && r.file.fileName[..|fileUuid| + 1] == fileUuid + "."
    {
      AssetRequest(spaceId, environmentId, assetId,
                   AssetFile(FileName(fileUuid, localFilePath), ContentType(localFilePath)))
    }
  }

  /** A typical header image: `<stem>.png` is uploaded as `image/png`
      under the name `<uuid>.png`. */
  lemma PngNaming(stem: string, fileUuid: string)
    requires '.' !in stem
    ensures ContentType(stem + ".png") == "image/png"
    ensures FileName(fileUuid, stem + ".png") == fileUuid + ".png"
  {
  }
}
