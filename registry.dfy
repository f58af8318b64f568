/** The registry API of noir-libs/src/api: the URL builders and delegators
    of api.rs, the latest-version lookup, publishing and yanking of
    network.rs, and the `yank` command of noir-libs/src/ops/yank.rs. The
    registry is a function from the request sent to the outcome received. */
module Registry {
  import opened Wrappers
  import opened Text
  import opened Paths
  import opened FileSystem
  import opened Http
  import opened PackagePaths
  import Network
  import opened Packaging

  const REGISTRY_HOME_URL := "http://localhost:3000"
  const API_KEY_ENV_VAR_NAME := "API_KEY"

  // ---------------------------------------------------------------------------
  // URLs (api.rs)

  const FETCH_YANKED_QUERY := "?fetchYanked=true"

  /** `get_package_url` of api.rs: the download URL, asking for yanked
      versions too when `fetchYanked` is set. */
  function DownloadUrl(name: string, version: string, fetchYanked: bool): string
  {
    if fetchYanked then REGISTRY_URL + "/packages/" + name + "/" + version + "/download" + FETCH_YANKED_QUERY
    else REGISTRY_URL + "/packages/" + name + "/" + version + "/download"
  }

  /** `get_latest_package_version_url`. */
  function LatestVersionUrl(name: string): string
  {
    REGISTRY_URL + "/packages/" + name + "/versions/latest"
  }

  /** `<base>/packages/<name>/<version>/<action>`. */
  function ActionUrl(base: string, name: string, version: string, action: string): string
  {
    base + "/packages/" + name + "/" + version + "/" + action
  }

  /** `get_publish_package_url`. */
  function PublishUrl(name: string, version: string): string
  {
    ActionUrl(REGISTRY_URL, name, version, "publish")
  }

  /** `get_yank_package_url`. */
  function YankUrl(name: string, version: string): string
  {
    ActionUrl(REGISTRY_URL, name, version, "yank")
  }

  /** Without the flag the download URL is the one of path.rs; with it, the
      same URL followed by the query, so the plain URL is a proper prefix of
      the yanked one. */
  lemma DownloadUrlFlag(name: string, version: string)
    ensures DownloadUrl(name, version, false) == PackageUrl(name, version)
    ensures DownloadUrl(name, version, true) == PackageUrl(name, version) + FETCH_YANKED_QUERY
    ensures |DownloadUrl(name, version, false)| < |DownloadUrl(name, version, true)|
    ensures DownloadUrl(name, version, true)[..|DownloadUrl(name, version, false)|] == DownloadUrl(name, version, false)
  {
    var plain := PackageUrl(name, version);
    assert (plain + FETCH_YANKED_QUERY)[..|plain|] == plain;
  }

  /** `base/packages/<name>/<version>/<action>` splits into the pieces of
      the base followed by those four. */
  lemma ActionPathSegments(base: string, name: string, version: string, action: string)
    requires '/' !in name && '/' !in version && '/' !in action
    ensures Split(ActionUrl(base, name, version, action), '/') == Split(base, '/') + ["packages", name, version, action]
  {
    Segments4(base, "packages", name, version, action);
    var head := base + "/packages/";
    assert head == base + "/" + "packages" + "/";
  }

  lemma VersionsLatestSegments(base: string, name: string)
    requires '/' !in name
    ensures Split(base + "/packages/" + name + "/versions/latest", '/')
         == Split(base, '/') + ["packages", name, "versions", "latest"]
  {
    Segments4(base, "packages", name, "versions", "latest");
    var head := base + "/packages/";
    assert head == base + "/" + "packages" + "/";
    var body := head + name;
    assert body + "/versions/latest" == body + "/" + "versions" + "/" + "latest";
  }

  /** Two URLs that differ in their action differ. */
  lemma ActionsDiffer(base: string, name: string, version: string, a1: string, a2: string)
    requires '/' !in name && '/' !in version && '/' !in a1 && '/' !in a2 && a1 != a2
    ensures ActionUrl(base, name, version, a1) != ActionUrl(base, name, version, a2)
  {
    ActionPathSegments(base, name, version, a1);
    ActionPathSegments(base, name, version, a2);
    var n := |Split(base, '/')|;
    assert (Split(base, '/') + ["packages", name, version, a1])[n + 3] == a1;
    assert (Split(base, '/') + ["packages", name, version, a2])[n + 3] == a2;
  }

  /** The publish URL ends with `packages`, the package's name and version,
      and `publish`: the registry reads the package back from it. */
  lemma PublishUrlSegments(name: string, version: string)
    requires '/' !in name && '/' !in version
    ensures Split(PublishUrl(name, version), '/') == Split(REGISTRY_URL, '/') + ["packages", name, version, "publish"]
  {
    ActionPathSegments(REGISTRY_URL, name, version, "publish");
  }

  /** The yank URL ends with `packages`, the name, the version and `yank`. */
  lemma YankUrlSegments(name: string, version: string)
    requires '/' !in name && '/' !in version
    ensures Split(YankUrl(name, version), '/') == Split(REGISTRY_URL, '/') + ["packages", name, version, "yank"]
  {
    ActionPathSegments(REGISTRY_URL, name, version, "yank");
  }

  /** Publishing and yanking a package never use the same URL. */
  lemma PublishUrlIsNotYankUrl(name: string, version: string)
    requires '/' !in name && '/' !in version
    ensures PublishUrl(name, version) != YankUrl(name, version)
  {
    ActionsDiffer(REGISTRY_URL, name, version, "publish", "yank");
  }

  /** The latest-version URL ends with `packages`, the name, `versions` and
      `latest`. */
  lemma LatestVersionUrlSegments(name: string)
    requires '/' !in name
    ensures Split(LatestVersionUrl(name), '/') == Split(REGISTRY_URL, '/') + ["packages", name, "versions", "latest"]
  {
    VersionsLatestSegments(REGISTRY_URL, name);
  }

  // ---------------------------------------------------------------------------
  // Authorization header

  const BEARER := "Bearer "

  /** `get_auth_header`. */
  function AuthHeader(apiKey: string): string
  {
    BEARER + apiKey
  }

  /** What a registry reads back from an `Authorization` header: the token
      after `Bearer `. */
  function BearerToken(header: string): Option<string>
  {
    if |header| >= |BEARER| && header[..|BEARER|] == BEARER then Some(header[|BEARER|..]) else None
  }

  /** The header carries exactly the key: reading the token back gives it,
      so different keys give different headers. */
  lemma AuthHeaderRoundTrip(apiKey: string)
    ensures BearerToken(AuthHeader(apiKey)) == Some(apiKey)
  {
    assert AuthHeader(apiKey)[..|BEARER|] == BEARER;
    assert AuthHeader(apiKey)[|BEARER|..] == apiKey;
  }

  // ---------------------------------------------------------------------------
  // Latest version (api/network.rs)

  const MISSING_VERSION := "missing field `version`"
  const EMPTY_VERSION_SEQUENCE := "invalid length 0, expected struct Version with 1 element"
  const TRAILING_CHARACTERS := "trailing characters"

  /** serde's "invalid type" message for a value it did not expect. */
  function InvalidType(unexpected: string, expected: string): string
  {
    "invalid type: " + unexpected + ", expected " + expected
  }

  /** A `String` field as serde reads it. */
  function StringField(f: JsonField): Result<string, string>
  {
    match f
    case JString(t) => Ok(t)
    case JNonString(u) => Err(InvalidType(u, "a string"))
  }

  /** serde_json's `from_str` into the derived `struct Version { version:
      String }` of api/network.rs: an object's `version` member (other
      members are ignored), or a sequence whose one element is the version.
      The position serde_json appends to its messages is not modelled. */
  function DecodeVersion(json: Json): Result<string, string>
  {
    match json
    case JInvalid(e) => Err(e)
    case JScalar(u) => Err(InvalidType(u, "struct Version"))
    case JObject(members) =>
      if "version" in members then StringField(members["version"]) else Err(MISSING_VERSION)
    case JArray(items) =>
      if items == [] then Err(EMPTY_VERSION_SEQUENCE)
      else match StringField(items[0])
        case Err(e) => Err(e)
        case Ok(v) => if |items| == 1 then Ok(v) else Err(TRAILING_CHARACTERS)
  }

  /** The JSON forms that carry version `v` for the derived `Version`: an
      object with the string member `version`, or the one-element sequence
      `[v]`. */
  ghost predicate CarriesVersion(json: Json, v: string)
  {
    StringMember(json, "version") == Some(v) || json == JArray([JString(v)])
  }

  /** `get_latest_package_version`: on 2xx the body decoded into `Version`;
      otherwise the registry's error message. */
  function GetLatestPackageVersion(outcome: HttpOutcome): Result<string, string>
  {
    match outcome
    case Transport(e) => Err(e)
    case Response(status, _, body) =>
      if IsSuccess(status) then DecodeVersion(body.json) else Err(ErrorMessage(body.json))
  }

  /** The lookup returns `v` exactly on a 2xx body that carries `v` as an
      object member or a one-element sequence. Otherwise it fails: with
      serde's message for a 2xx object without `version` or with a
      non-string one, with the parser's message for a body that is not JSON,
      with the registry's message (or "Unknown error") outside 2xx, and with
      the transport error. */
  lemma GetLatestPackageVersionSpec(outcome: HttpOutcome, v: string)
    ensures GetLatestPackageVersion(outcome) == Ok(v) <==>
      outcome.Response? && IsSuccess(outcome.status) && CarriesVersion(outcome.body.json, v)
    ensures outcome.Response? && IsSuccess(outcome.status) && outcome.body.json.JObject? ==>
      var members := outcome.body.json.members;
      && ("version" !in members ==> GetLatestPackageVersion(outcome) == Err(MISSING_VERSION))
      && ("version" in members && members["version"].JNonString? ==>
            GetLatestPackageVersion(outcome) == Err(InvalidType(members["version"].unexpected, "a string")))
    ensures outcome.Response? && IsSuccess(outcome.status) && outcome.body.json.JInvalid? ==>
      GetLatestPackageVersion(outcome) == Err(outcome.body.json.error)
    ensures outcome.Response? && !IsSuccess(outcome.status) ==>
      GetLatestPackageVersion(outcome) == Err(ErrorMessage(outcome.body.json))
    ensures outcome.Transport? ==> GetLatestPackageVersion(outcome) == Err(outcome.error)
  {
    if outcome.Response? && IsSuccess(outcome.status) && outcome.body.json.JArray? {
      var items := outcome.body.json.items;
      if GetLatestPackageVersion(outcome) == Ok(v) {
        assert items == [JString(v)];
      }
    }
  }

  /** `{"version": "1.2.3"}` with status 200 gives "1.2.3". */
  lemma LatestPackageVersionExample(bytes: seq<bv8>)
    ensures GetLatestPackageVersion(Response(200, Some("OK"), Body(bytes, JObject(map["version" := JString("1.2.3")])))) == Ok("1.2.3")
  {
  }

  /** The sequence form `["1.2.3"]` with status 200 gives "1.2.3" too. */
  lemma LatestPackageVersionSequence(bytes: seq<bv8>)
    ensures GetLatestPackageVersion(Response(200, Some("OK"), Body(bytes, JArray([JString("1.2.3")])))) == Ok("1.2.3")
  {
  }

  /** `{"version": 1}` is refused as an integer where a string was expected. */
  lemma LatestPackageVersionWrongType(bytes: seq<bv8>)
    ensures GetLatestPackageVersion(Response(200, Some("OK"), Body(bytes, JObject(map["version" := JNonString("integer `1`")]))))
         == Err("invalid type: integer `1`, expected a string")
  {
    assert InvalidType("integer `1`", "a string") == "invalid type: integer `1`, expected a string";
  }

  // ---------------------------------------------------------------------------
  // The *_api delegators (api.rs)

  /** `download_package_api`: the download of the package's URL. */
  function DownloadPackageApi(fs: Tree, output: Path, name: string, version: string, fetchYanked: bool,
                              server: Request -> HttpOutcome): (Result<(), string>, Tree)
  {
    Network.DownloadOn(fs, output, server(GetRequest(DownloadUrl(name, version, fetchYanked))))
  }

  /** `get_latest_package_version_api`. */
  function GetLatestPackageVersionApi(name: string, server: Request -> HttpOutcome): Result<string, string>
  {
    GetLatestPackageVersion(server(GetRequest(LatestVersionUrl(name))))
  }

  /** The download asks for exactly one URL: two registries that answer it
      alike give the same result and the same tree. */
  lemma DownloadPackageApiAsksPackageUrl(fs: Tree, output: Path, name: string, version: string, fetchYanked: bool,
                                          s1: Request -> HttpOutcome, s2: Request -> HttpOutcome)
    requires s1(GetRequest(DownloadUrl(name, version, fetchYanked))) == s2(GetRequest(DownloadUrl(name, version, fetchYanked)))
    ensures DownloadPackageApi(fs, output, name, version, fetchYanked, s1) == DownloadPackageApi(fs, output, name, version, fetchYanked, s2)
  {
  }

  // ---------------------------------------------------------------------------
  // Publish

  const PACKED_FILE_MISSING := "Packed file does not exist: "

  function UploadFailure(name: string, version: string): string
  {
    "Failed to upload package: " + name + " " + version + ". "
  }

  function PublishSuccess(name: string, version: string): string
  {
    PublishHeadline(name, version) + " to noir-libs registry.\nExplore your package at: " + PackagePage(name, version)
  }

  function PublishHeadline(name: string, version: string): string
  {
    "Successfully published package: " + name + " " + version
  }

  /** The package's page on the registry site. */
  function PackagePage(name: string, version: string): string
  {
    REGISTRY_HOME_URL + "/packages/" + name + "/" + version
  }

  /** The request publishing sends: a POST with the bearer header and the
      tarball's bytes. */
  function PublishRequest(url: string, apiKey: string, tarball: seq<bv8>): Request
  {
    Request(Post, url, Some(AuthHeader(apiKey)), tarball)
  }

  /** How publishing reads the registry's answer. */
  function ClassifyPublish(name: string, version: string, outcome: HttpOutcome): Result<string, string>
  {
    match outcome
    case Transport(e) => Err(UploadFailure(name, version) + "Error: " + e)
    case Response(status, reason, body) =>
      if IsSuccess(status) then Ok(PublishSuccess(name, version))
      else if IsClientError(status) then Err(UploadFailure(name, version) + "Error message: " + ErrorMessage(body.json))
      else Err(UploadFailure(name, version) + "Server status: " + StatusText(status, reason))
  }

  /** `publish_package`: the tarball path (resolved against the working
      directory) must exist; it is read whole, and posted to `url`. */
  function PublishOn(fs: Tree, cwd: Path, tarball: PackagedTarball, apiKey: string, url: string,
                     server: Request -> HttpOutcome): Result<string, string>
  {
    var p := PathJoin(cwd, tarball.tarballPath);
    if !Exists(fs, p) then Err(PACKED_FILE_MISSING + tarball.tarballPath)
    else if !IsFile(fs, p) then Err(IoErrorText(Os(IsADirectory)))
    else ClassifyPublish(tarball.name, tarball.version, server(PublishRequest(url, apiKey, fs[p].data)))
  }

  /** A missing tarball fails before any request: the registry cannot
      influence the result. */
  lemma PublishMissingTarballSendsNothing(fs: Tree, cwd: Path, tarball: PackagedTarball, apiKey: string, url: string,
                                          s1: Request -> HttpOutcome, s2: Request -> HttpOutcome)
    requires !Exists(fs, PathJoin(cwd, tarball.tarballPath))
    ensures PublishOn(fs, cwd, tarball, apiKey, url, s1) == Err(PACKED_FILE_MISSING + tarball.tarballPath)
    ensures PublishOn(fs, cwd, tarball, apiKey, url, s1) == PublishOn(fs, cwd, tarball, apiKey, url, s2)
  {
  }

  /** For an existing tarball file, the result depends on the registry only
      through its answer to one request: a POST to `url` whose header
      carries the API key and whose payload is the file's bytes. */
  lemma PublishSendsOneRequest(fs: Tree, cwd: Path, tarball: PackagedTarball, apiKey: string, url: string,
                               s1: Request -> HttpOutcome, s2: Request -> HttpOutcome)
    requires IsFile(fs, PathJoin(cwd, tarball.tarballPath))
    requires var req := s1(PublishRequest(url, apiKey, fs[PathJoin(cwd, tarball.tarballPath)].data));
      req == s2(PublishRequest(url, apiKey, fs[PathJoin(cwd, tarball.tarballPath)].data))
    ensures PublishOn(fs, cwd, tarball, apiKey, url, s1) == PublishOn(fs, cwd, tarball, apiKey, url, s2)
    ensures var req := PublishRequest(url, apiKey, fs[PathJoin(cwd, tarball.tarballPath)].data);
      req.verb == Post && BearerToken(req.authorization.value) == Some(apiKey)
  {
    AuthHeaderRoundTrip(apiKey);
  }

  /** Publishing succeeds exactly on a 2xx answer, with a message naming the
      package and its page on the registry site; a 4xx answer reports the
      registry's message, any other status the status, a transport error
      the error — all as a failure to upload the named package. */
  lemma ClassifyPublishSpec(name: string, version: string, outcome: HttpOutcome)
    ensures ClassifyPublish(name, version, outcome).Ok? <==> outcome.Response? && IsSuccess(outcome.status)
    ensures ClassifyPublish(name, version, outcome).Ok? ==>
      var m := ClassifyPublish(name, version, outcome).value;
      m == PublishSuccess(name, version)
      && StartsWith(m, PublishHeadline(name, version))
      && EndsWith(m, PackagePage(name, version))
    ensures ClassifyPublish(name, version, outcome).Err? ==>
      StartsWith(ClassifyPublish(name, version, outcome).error, UploadFailure(name, version))
    ensures outcome.Response? && IsClientError(outcome.status) ==>
      ClassifyPublish(name, version, outcome) == Err(UploadFailure(name, version) + "Error message: " + ErrorMessage(outcome.body.json))
    ensures outcome.Response? && !IsSuccess(outcome.status) && !IsClientError(outcome.status) ==>
      ClassifyPublish(name, version, outcome) == Err(UploadFailure(name, version) + "Server status: " + StatusText(outcome.status, outcome.reason))
  {
    PublishSuccessAffixes(name, version);
    var u := UploadFailure(name, version);
    match outcome
    case Transport(e) =>
      AffixesOfConcat(u, "Error: ");
      StartsWithExtend(u + "Error: ", u, e);
    case Response(status, reason, body) =>
      if !IsSuccess(status) && IsClientError(status) {
        AffixesOfConcat(u, "Error message: ");
        StartsWithExtend(u + "Error message: ", u, ErrorMessage(body.json));
      } else if !IsSuccess(status) {
        AffixesOfConcat(u, "Server status: ");
        StartsWithExtend(u + "Server status: ", u, StatusText(status, reason));
      }
  }

  /** The success message starts by naming the package and ends with its
      page on the registry site. */
  lemma PublishSuccessAffixes(name: string, version: string)
    ensures StartsWith(PublishSuccess(name, version), PublishHeadline(name, version))
    ensures EndsWith(PublishSuccess(name, version), PackagePage(name, version))
  {
    var head, link := PublishHeadline(name, version), PackagePage(name, version);
    var middle := " to noir-libs registry.\nExplore your package at: ";
    AffixesOfConcat(head, middle);
    StartsWithExtend(head + middle, head, link);
    AffixesOfConcat(head + middle, link);
  }

  /** `publish_package_api`: posting to the publish URL built from the
      tarball's own name and version. */
  function PublishPackageApi(fs: Tree, cwd: Path, tarball: PackagedTarball, apiKey: string,
                             server: Request -> HttpOutcome): Result<string, string>
  {
    PublishOn(fs, cwd, tarball, apiKey, PublishUrl(tarball.name, tarball.version), server)
  }

  // ---------------------------------------------------------------------------
  // Yank

  function YankFailure(name: string, version: string): string
  {
    "Failed to yank a package: " + name + " " + version + ". "
  }

  /** `yank_package`: a PUT with the bearer header, read like publishing. */
  function YankOn(name: string, version: string, apiKey: string, url: string,
                  server: Request -> HttpOutcome): Result<(), string>
  {
    match server(Request(Put, url, Some(AuthHeader(apiKey)), []))
    case Transport(e) => Err(YankFailure(name, version) + "Error: " + e)
    case Response(status, reason, body) =>
      if IsSuccess(status) then Ok(())
      else if IsClientError(status) then Err(YankFailure(name, version) + "Error message: " + ErrorMessage(body.json))
      else Err(YankFailure(name, version) + "Server status: " + StatusText(status, reason))
  }

  /** Yanking succeeds exactly on a 2xx answer to the PUT; every failure
      names the package, and a 4xx failure carries the registry's
      message. */
  lemma YankOnSpec(name: string, version: string, apiKey: string, url: string, server: Request -> HttpOutcome)
    ensures var outcome := server(Request(Put, url, Some(AuthHeader(apiKey)), []));
      && (YankOn(name, version, apiKey, url, server).Ok? <==> outcome.Response? && IsSuccess(outcome.status))
      && (YankOn(name, version, apiKey, url, server).Err? ==>
            StartsWith(YankOn(name, version, apiKey, url, server).error, YankFailure(name, version)))
      && (outcome.Response? && IsClientError(outcome.status) ==>
            YankOn(name, version, apiKey, url, server) == Err(YankFailure(name, version) + "Error message: " + ErrorMessage(outcome.body.json)))
  {
    var r := YankOn(name, version, apiKey, url, server);
    if r.Err? {
      var u := YankFailure(name, version);
      assert r.error[..|u|] == u;
    }
  }

  /** `yank_package_api`. */
  function YankPackageApi(name: string, version: string, apiKey: string, server: Request -> HttpOutcome): Result<(), string>
  {
    YankOn(name, version, apiKey, YankUrl(name, version), server)
  }

  /** The message printed when the key variable is missing, pointing to the
      registry's dashboard and naming the variable to export. */
  function MissingKeyMessage(dashboard: string, variable: string): string
  {
    MissingKeyIntro(dashboard) + ExportLine(variable) + "<your api key>\n"
  }

  function MissingKeyIntro(dashboard: string): string
  {
    "Cannot yank a package. API KEY env variable not found.\n\n"
    + "Please generate an API KEY with \"yank\" scope  key at " + dashboard + ".\n\n"
    + "If you already have an API KEY, please export it before running yank command:\n"
  }

  function ExportLine(variable: string): string
  {
    "export " + variable + "="
  }

  const YANK_WITHOUT_API_KEY := MissingKeyMessage(REGISTRY_HOME_URL + "/dashboard", API_KEY_ENV_VAR_NAME)

  /** The message names the dashboard and the variable. */
  lemma MissingKeyMessageNames(dashboard: string, variable: string)
    ensures Contains(MissingKeyMessage(dashboard, variable), dashboard)
    ensures Contains(MissingKeyMessage(dashboard, variable), ExportLine(variable))
  {
    var intro, x, c := MissingKeyIntro(dashboard), ExportLine(variable), "<your api key>\n";
    ContainsWitness("Cannot yank a package. API KEY env variable not found.\n\n"
                    + "Please generate an API KEY with \"yank\" scope  key at ", dashboard, ".\n\n");
    ContainsExtend("Cannot yank a package. API KEY env variable not found.\n\n"
                   + "Please generate an API KEY with \"yank\" scope  key at " + dashboard + ".\n\n", dashboard,
                   "If you already have an API KEY, please export it before running yank command:\n");
    ContainsExtend(intro, dashboard, x);
    ContainsExtend(intro + x, dashboard, c);
    ContainsWitness(intro, x, c);
  }

  /** `yank`: the API key comes from the environment; without it the command
      fails before contacting the registry. */
  function Yank(name: string, version: string, env: map<string, string>, server: Request -> HttpOutcome): Result<(), string>
  {
    if API_KEY_ENV_VAR_NAME !in env then Err(YANK_WITHOUT_API_KEY)
    else YankPackageApi(name, version, env[API_KEY_ENV_VAR_NAME], server)
  }

  /** Without `API_KEY` the result is the same error whatever the registry
      would answer, and the error names the variable and the dashboard. */
  lemma YankWithoutKeySendsNothing(name: string, version: string, env: map<string, string>,
                                   s1: Request -> HttpOutcome, s2: Request -> HttpOutcome)
    requires API_KEY_ENV_VAR_NAME !in env
    ensures Yank(name, version, env, s1) == Yank(name, version, env, s2) == Err(YANK_WITHOUT_API_KEY)
    ensures Contains(YANK_WITHOUT_API_KEY, ExportLine(API_KEY_ENV_VAR_NAME))
    ensures Contains(YANK_WITHOUT_API_KEY, REGISTRY_HOME_URL + "/dashboard")
  {
    MissingKeyMessageNames(REGISTRY_HOME_URL + "/dashboard", API_KEY_ENV_VAR_NAME);
  }

  /** With `API_KEY` set, the command is the registry call with that key,
      unchanged, against the yank URL of the package. */
  lemma YankPassesKey(name: string, version: string, env: map<string, string>, server: Request -> HttpOutcome)
    requires API_KEY_ENV_VAR_NAME in env
    ensures Yank(name, version, env, server) == YankOn(name, version, env[API_KEY_ENV_VAR_NAME], YankUrl(name, version), server)
    ensures BearerToken(AuthHeader(env[API_KEY_ENV_VAR_NAME])) == Some(env[API_KEY_ENV_VAR_NAME])
  {
    AuthHeaderRoundTrip(env[API_KEY_ENV_VAR_NAME]);
  }
}
