/** The download and latest-version calls of noir-libs/src/network.rs, whose
    download is repeated unchanged as `download_package` in
    noir-libs/src/api/network.rs. A call is a function of the registry's
    outcome; the download also writes into the filesystem tree. */
module Network {
  import opened Wrappers
  import opened Paths
  import opened FileSystem
  import opened Http

  const DOWNLOAD_STATUS_ERROR := "Failed to download file: Received status code "

  /** `download_remote` / `download_package`: a transport error is returned
      as is; a status outside 2xx is reported with the status and nothing is
      written; a 2xx body is written to `output` (created or truncated). */
  function DownloadOn(fs: Tree, output: Path, outcome: HttpOutcome): (Result<(), string>, Tree)
  {
    match outcome
    case Transport(e) => (Err(e), fs)
    case Response(status, reason, body) =>
      if !IsSuccess(status) then (Err(DOWNLOAD_STATUS_ERROR + StatusText(status, reason)), fs)
      else
        match CreateFile(fs, output, body.bytes)
        case Err(e) => (Err(IoErrorText(e)), fs)
        case Ok(fs') => (Ok(()), fs')
  }

  /** The download succeeds exactly for a 2xx response whose body can be
      written; it then leaves precisely the body at `output` and changes
      nothing else. Any failure leaves the tree as it was, and a status
      outside 2xx is reported with its code. */
  lemma DownloadSpec(fs: Tree, output: Path, outcome: HttpOutcome)
    ensures var (r, fs') := DownloadOn(fs, output, outcome);
      && (r.Ok? <==> outcome.Response? && IsSuccess(outcome.status) && CreateFile(fs, output, outcome.body.bytes).Ok?)
      && (r.Ok? ==> IsFile(fs', output) && fs'[output].data == outcome.body.bytes
                    && forall q :: q != output ==> (q in fs' <==> q in fs) && (q in fs ==> fs'[q] == fs[q]))
      && (r.Err? ==> fs' == fs)
      && (outcome.Response? && !IsSuccess(outcome.status) ==>
            r == Err(DOWNLOAD_STATUS_ERROR + StatusText(outcome.status, outcome.reason)))
      && (outcome.Transport? ==> r == Err(outcome.error))
  {
    if outcome.Response? && IsSuccess(outcome.status) {
      CreateFileSpec(fs, output, outcome.body.bytes);
    }
  }

  /** Any 2xx status (201 as well as 200) into an existing directory writes
      the body as a new file. */
  lemma DownloadCreatesFile(fs: Tree, dir: Path, name: string, status: StatusCode, reason: Option<string>, body: Body)
    requires IsDir(fs, dir) && dir + [name] !in fs && IsSuccess(status)
    requires NoFileOnPath(fs, dir)
    ensures var (r, fs') := DownloadOn(fs, dir + [name], Response(status, reason, body));
      r.Ok? && IsFile(fs', dir + [name]) && fs'[dir + [name]].data == body.bytes
  {
    var p := dir + [name];
    assert p[..|p| - 1] == dir;
    CreateFileSpec(fs, p, body.bytes);
  }

  /** The download as the program performs it on the disk. */
  method Download(disk: Disk, output: Path, outcome: HttpOutcome) returns (r: Result<(), string>)
    modifies disk
    ensures (r, disk.tree) == DownloadOn(old(disk.tree), output, outcome)
  {
    match outcome {
      case Transport(e) =>
        return Err(e);
      case Response(status, reason, body) =>
        if !IsSuccess(status) {
          return Err(DOWNLOAD_STATUS_ERROR + StatusText(status, reason));
        }
        var written := disk.WriteFile(output, body.bytes);
        if written.Err? {
          return Err(IoErrorText(written.error));
        }
        r := Ok(());
    }
  }

  const VERSION_FIELD_ERROR := "Version field not found or is not a string"

  /** `get_latest_version`: on 2xx the string member `latest_version` of the
      JSON body (a body that is not JSON reports the parser's message);
      otherwise the registry's error message. */
  function GetLatestVersion(outcome: HttpOutcome): Result<string, string>
  {
    match outcome
    case Transport(e) => Err(e)
    case Response(status, _, body) =>
      if IsSuccess(status) then
        match body.json
        case JInvalid(e) => Err(e)
        case _ =>
          match StringMember(body.json, "latest_version")
          case Some(v) => Ok(v)
          case None => Err(VERSION_FIELD_ERROR)
      else Err(ErrorMessage(body.json))
  }

  /** The lookup succeeds exactly on a 2xx JSON object holding a string
      `latest_version`, and returns that string. */
  lemma GetLatestVersionSpec(outcome: HttpOutcome)
    ensures GetLatestVersion(outcome).Ok? <==>
      outcome.Response? && IsSuccess(outcome.status) && StringMember(outcome.body.json, "latest_version").Some?
    ensures GetLatestVersion(outcome).Ok? ==>
      GetLatestVersion(outcome).value == StringMember(outcome.body.json, "latest_version").value
  {
  }

  /** A registry answering `{"latest_version": v, ...}` with 2xx yields v. */
  lemma LatestVersionFromRegistry(status: StatusCode, reason: Option<string>, bytes: seq<bv8>,
                                  members: map<string, JsonField>, v: string)
    requires IsSuccess(status)
    ensures GetLatestVersion(Response(status, reason, Body(bytes, JObject(members["latest_version" := JString(v)])))) == Ok(v)
  {
  }

  /** A 2xx JSON body without a string `latest_version` is refused with
      "Version field not found or is not a string". */
  lemma LatestVersionMissingField(status: StatusCode, reason: Option<string>, body: Body)
    requires IsSuccess(status) && !body.json.JInvalid? && StringMember(body.json, "latest_version").None?
    ensures GetLatestVersion(Response(status, reason, body)) == Err(VERSION_FIELD_ERROR)
  {
  }

  /** A status outside 2xx is never a version: the error is the registry's
      `message`, or "Unknown error" when the body has none. */
  lemma LatestVersionFailure(status: StatusCode, reason: Option<string>, body: Body)
    requires !IsSuccess(status)
    ensures GetLatestVersion(Response(status, reason, body)) == Err(ErrorMessage(body.json))
    ensures StringMember(body.json, "message").None? ==> GetLatestVersion(Response(status, reason, body)) == Err(UNKNOWN_ERROR)
  {
  }
}
