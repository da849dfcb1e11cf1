/**
 * The decisions the web API takes before and after calling the store: the
 * credential gate every endpoint depends on, the validation of an index
 * request, the document built from an upload, and the normalisation of the
 * search total. Routing, multipart parsing, temporary files and the store
 * calls are outside the model.
 */
module WebApp {
  import opened Wrappers
  import opened OrderedDict
  import opened PyText
  import opened PurePath
  import opened Config
  import opened StoreService
  import opened FileIndexer

  // ---------------------------------------------------------------------------
  // `require_auth`

  /**
   * What a request presents: the `X-API-Key` header, the credentials of an
   * `Authorization: Bearer` header and the user name and password of an
   * `Authorization: Basic` header, each absent when not sent.
   */
  datatype Presented = Presented(apiKey: Option<string>, bearer: Option<string>, basic: Option<(string, string)>)

  const Anonymous := Presented(None, None, None)

  /** The gate lets the request through, or answers with a status, a detail and headers. */
  datatype AuthOutcome = Allowed | Rejected(status: int, detail: string, headers: Dict<string>)

  const Unauthorized := 401
  const NotConfigured := "Authentication credentials are not configured"
  const BasicChallenge: Dict<string> := [("WWW-Authenticate", "Basic")]

  /** Basic authentication is configured: both a user name and a password. */
  predicate BasicConfigured(s: ElasticsearchSettings) {
    Truthy(s.username) && Truthy(s.password)
  }

  /** An API key is configured, one is presented, and they are equal. */
  predicate ApiKeyMatches(s: ElasticsearchSettings, p: Presented) {
    Truthy(s.apiKey) && Truthy(p.apiKey) && p.apiKey.value == s.apiKey.value
  }

  /** A bearer token is configured, bearer credentials are presented, and they are equal. */
  predicate BearerMatches(s: ElasticsearchSettings, p: Presented) {
    Truthy(s.bearerToken) && p.bearer.Some? && p.bearer.value == s.bearerToken.value
  }

  /** Basic authentication is configured and both the presented name and password are equal to it. */
  predicate BasicMatches(s: ElasticsearchSettings, p: Presented) {
    BasicConfigured(s) && p.basic.Some? &&
    p.basic.value.0 == s.username.value && p.basic.value.1 == s.password.value
  }

  /**
   * `require_auth`: no configured mechanism rejects everything; otherwise the
   * API key, the bearer token and the basic pair are tried in turn, and a
   * request none of them admits gets 401, with a Basic challenge when basic
   * authentication is configured. Digest comparison is string equality.
   */
  function RequireAuth(s: ElasticsearchSettings, p: Presented): (r: AuthOutcome)
    ensures r.Allowed? <==> ApiKeyMatches(s, p) || BearerMatches(s, p) || BasicMatches(s, p)
    ensures r.Rejected? ==> r.status == Unauthorized
    ensures !HasCredentials(s) ==> r == Rejected(Unauthorized, NotConfigured, [])
    ensures r.Rejected? && HasCredentials(s) ==> r.detail == "Unauthorized"
    ensures r.Rejected? ==> ("WWW-Authenticate" in Keys(r.headers) <==> HasCredentials(s) && BasicConfigured(s))
    ensures r.Rejected? && HasCredentials(s) ==> r.headers == (if BasicConfigured(s) then BasicChallenge else [])
  {
    if !((Truthy(s.apiKey) || Truthy(s.bearerToken)) || (Truthy(s.username) && Truthy(s.password))) then
      Rejected(Unauthorized, NotConfigured, [])
    else if Truthy(s.apiKey) && Truthy(p.apiKey) && p.apiKey.value == s.apiKey.value then Allowed
    else if Truthy(s.bearerToken) && p.bearer.Some? && p.bearer.value == s.bearerToken.value then Allowed
    else if Truthy(s.username) && Truthy(s.password) && p.basic.Some?
      && p.basic.value.0 == s.username.value && p.basic.value.1 == s.password.value then Allowed
    else
      var headers: Dict<string> := if Truthy(s.username) && Truthy(s.password) then BasicChallenge else [];
      assert Keys(BasicChallenge) == ["WWW-Authenticate"];
      Rejected(Unauthorized, "Unauthorized", headers)
  }

  /** A request without credentials never gets through. */
  lemma AnonymousRejected(s: ElasticsearchSettings)
    ensures RequireAuth(s, Anonymous).Rejected?
    ensures RequireAuth(s, Anonymous).status == Unauthorized
  {
  }

  /** The gate is closed to every request exactly when the client has no mechanism to connect with. */
  lemma GateMatchesClient(s: ElasticsearchSettings)
    ensures AuthKwargs(s).NoAuth? <==> forall p :: RequireAuth(s, p).Rejected?
  {
    if !AuthKwargs(s).NoAuth? {
      ClientCredentialsAdmitted(s);
    }
  }

  /** The headers a client presents for the mechanism `auth_kwargs` chooses. */
  function PresentedFor(auth: ClientAuth): Presented {
    match auth
    case NoAuth => Anonymous
    case ApiKeyAuth(key) => Presented(Some(key), None, None)
    case BearerAuth(token) => Presented(None, Some(token), None)
    case BasicAuth(user, password) => Presented(None, None, Some((user, password)))
  }

  /** Presenting the credentials the store client is configured with passes the gate. */
  lemma ClientCredentialsAdmitted(s: ElasticsearchSettings)
    requires HasCredentials(s)
    ensures RequireAuth(s, PresentedFor(AuthKwargs(s))) == Allowed
  {
  }

  /** The gate does not depend on which other headers come with a matching API key. */
  lemma ApiKeyAlone(s: ElasticsearchSettings, key: string, bearer: Option<string>, basic: Option<(string, string)>)
    requires Some(key) == s.apiKey && key != []
    ensures RequireAuth(s, Presented(Some(key), bearer, basic)) == Allowed
  {
  }

  /** With basic authentication configured, a wrong password is rejected with a Basic challenge. */
  lemma WrongPasswordRejected(s: ElasticsearchSettings, user: string, password: string)
    requires BasicConfigured(s) && !Truthy(s.apiKey) && !Truthy(s.bearerToken)
    requires password != s.password.value
    ensures RequireAuth(s, Presented(None, None, Some((user, password)))) == Rejected(Unauthorized, "Unauthorized", BasicChallenge)
  {
  }

  /** The settings of the API tests: user `elastic`, password `changeme`, nothing else. */
  const TestSettings := DefaultSettings.(username := Some("elastic"), password := Some("changeme"))

  /**
   * Under those settings a request with no headers gets 401 with a Basic
   * challenge, and one presenting `elastic`/`changeme` gets through.
   */
  lemma TestScenario()
    ensures RequireAuth(TestSettings, Anonymous) == Rejected(401, "Unauthorized", [("WWW-Authenticate", "Basic")])
    ensures RequireAuth(TestSettings, Presented(None, None, Some(("elastic", "changeme")))) == Allowed
  {
  }

  // ---------------------------------------------------------------------------
  // `index_endpoint`: request validation and the uploaded document

  /** The suffixes an upload may have, checked by the endpoint itself. */
  const UploadSuffixes: set<string> := {".txt", ".pdf"}

  /** An uploaded file part; its file name may be missing or empty. */
  datatype Upload = Upload(filename: Option<string>)

  /** What the endpoint goes on to do, or the 400 it answers with. */
  datatype IndexRequest =
    | IndexFolder(folder: string)
    | IndexUpload(filename: string, suffix: string)
    | BadRequest(detail: string)

  /**
   * The validation in `index_endpoint`: a non-empty folder must exist and be
   * a directory; without one, a file with a name and a supported suffix
   * (compared lower-cased) is needed. Whether the folder exists and is a
   * directory are given.
   */
  function ValidateIndexRequest(folder: Option<string>, folderExists: bool, isDir: bool, file: Option<Upload>): (r: IndexRequest)
    ensures r.IndexFolder? <==> Truthy(folder) && folderExists && isDir
    ensures r.IndexFolder? ==> r.folder == folder.value
    ensures r.IndexUpload? ==> !Truthy(folder) && file.Some? && file.value.filename == Some(r.filename) && r.filename != []
    ensures r.IndexUpload? ==> r.suffix == Lower(Suffix(r.filename)) && r.suffix in UploadSuffixes
    ensures !Truthy(folder) && file.None? ==> r == BadRequest("Provide either a folder path or a file upload")
  {
    if Truthy(folder) then
      if !folderExists then BadRequest("Folder does not exist")
      else if !isDir then BadRequest("Path is not a directory")
      else IndexFolder(folder.value)
    else if file.None? then BadRequest("Provide either a folder path or a file upload")
    else if !Truthy(file.value.filename) then BadRequest("Uploaded file must have a name")
    else
      var name := file.value.filename.value;
      var suffix := Lower(Suffix(name));
      if suffix !in UploadSuffixes then BadRequest("Unsupported file type")
      else IndexUpload(name, suffix)
  }

  /** A named upload is accepted exactly when the indexer reads files of its type. */
  lemma UploadAgreesWithIndexer(name: string)
    requires name != []
    ensures ValidateIndexRequest(None, false, false, Some(Upload(Some(name)))).IndexUpload? <==> Supported(name)
  {
    assert UploadSuffixes == SupportedExtensions;
  }

  /** The upload of the API tests, `upload.txt`, is accepted as a text file. */
  lemma UploadTxtAccepted()
    ensures ValidateIndexRequest(None, false, false, Some(Upload(Some("upload.txt")))) == IndexUpload("upload.txt", ".txt")
  {
    UploadTxtSuffix();
    NamedUpload("upload.txt");
  }

  lemma UploadTxtSuffix()
    ensures Lower(Suffix("upload.txt")) == ".txt"
  {
    UploadSuffix();
    TxtIsLower();
  }

  lemma UploadSuffix()
    ensures Suffix("upload.txt") == ".txt"
  {
    assert "upload.txt" == "upload" + ['.'] + "txt";
    SuffixOfExtension("upload", "txt");
  }

  /** A named upload without a folder is accepted with its lower-cased suffix when that suffix is supported. */
  lemma NamedUpload(name: string)
    requires name != [] && Lower(Suffix(name)) in UploadSuffixes
    ensures ValidateIndexRequest(None, false, false, Some(Upload(Some(name)))) == IndexUpload(name, Lower(Suffix(name)))
  {
  }

  /**
   * The document indexed for an upload: its path and id are the uploaded
   * file name, its name the last component of it, its size the number of
   * bytes received and its modification time the moment of the request;
   * the other fields come from extracting the temporary copy.
   */
  function UploadDocument(filename: string, content: string, size: nat, now: string, m: Metadata): (d: Document)
    ensures d.path == filename && d.docId == Some(filename) && d.name == Some(Name(filename))
    ensures d.content == content && d.size == size && d.lastModified == now
    ensures d.author == m.author && d.title == m.title && d.date == m.date
    ensures d.language == m.language && d.keywords == m.keywords
  {
    var named := m.(name := Name(filename));
    Document(filename, content, size, now, Some(filename),
      Some(named.name), named.author, named.title, named.date, named.language, named.keywords)
  }

  /** An uploaded document is stored under its file name. */
  lemma UploadStoredUnderFilename(filename: string, content: string, size: nat, now: string, m: Metadata)
    ensures StoreId(UploadDocument(filename, content, size, now, m)) == filename
  {
  }

  // ---------------------------------------------------------------------------
  // `_extract_total_hits`

  /** A JSON value as the search response carries it; numbers are integers here. */
  datatype Json =
    | JNull
    | JBool(b: bool)
    | JInt(i: int)
    | JText(s: string)
    | JList(items: seq<Json>)
    | JObject(entries: Dict<Json>)

  /** Python `int(x)`: an error names the exception it raises. */
  function IntOf(v: Json): (r: Result<int, string>)
    ensures v.JInt? ==> r == Ok(v.i)
    ensures v.JBool? ==> r == Ok(if v.b then 1 else 0)
    ensures v.JText? ==> (r.Ok? <==> ParseInt(v.s).Some?)
    ensures v.JText? && ParseInt(v.s).Some? ==> r == Ok(ParseInt(v.s).value)
    ensures v.JText? && ParseInt(v.s).None? ==> r == Err("ValueError")
    ensures (v.JNull? || v.JList? || v.JObject?) ==> r == Err("TypeError")
  {
    match v
    case JInt(i) => Ok(i)
    case JBool(b) => Ok(if b then 1 else 0)
    case JText(s) => (match ParseInt(s) case Some(n) => Ok(n) case None => Err("ValueError"))
    case _ => Err("TypeError")
  }

  /**
   * `_extract_total_hits`: the `value` of an object that has one, a number
   * itself, and 0 for anything else; an error is the exception `int()` raises.
   */
  function ExtractTotalHits(total: Json): (r: Result<int, string>)
    ensures total.JObject? && "value" in Keys(total.entries) ==> r == IntOf(Get(total.entries, "value").value)
    ensures total.JObject? && "value" !in Keys(total.entries) ==> r == Ok(0)
    ensures r.Err? ==> total.JObject?
    ensures total.JInt? ==> r == Ok(total.i)
    ensures total.JBool? ==> r == Ok(if total.b then 1 else 0)
    ensures (total.JNull? || total.JText? || total.JList?) ==> r == Ok(0)
  {
    match total
    case JObject(entries) =>
      (match Get(entries, "value")
       case Some(v) => IntOf(v)
       case None => Ok(0))
    case JInt(i) => Ok(i)
    case JBool(b) => Ok(if b then 1 else 0)
    case _ => Ok(0)
  }

  /** Whether the total comes as `{"value": n}` or as `n`, the result is `n`. */
  lemma TotalHitsOfCount(n: int)
    ensures ExtractTotalHits(JObject([("value", JInt(n))])) == Ok(n)
    ensures ExtractTotalHits(JObject([("relation", JText("eq")), ("value", JInt(n))])) == Ok(n)
    ensures ExtractTotalHits(JInt(n)) == Ok(n)
  {
    assert Keys([("relation", JText("eq")), ("value", JInt(n))]) == ["relation", "value"];
  }

  /** A total whose value is the decimal text of `n` gives `n` back. */
  lemma TotalHitsOfText(n: int)
    ensures ExtractTotalHits(JObject([("value", JText(DecimalString(n)))])) == Ok(n)
  {
    ParseDecimalString(n);
  }
}
