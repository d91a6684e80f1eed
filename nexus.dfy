/** `Nexus::Client`: the URL, flag and temp-path builders, the checksum comparison and the
    staged download, over the parsed options hash. */
module Nexus {
  import opened Wrappers
  import opened RubyText
  import opened Options
  import opened Files
  import Parser
  import Request
  import Checksum
  import Staging

  class Client {
    const options: OptionsHash
    /** The client over an options hash that `NewClient` has already parsed. */
    constructor (options: OptionsHash)
      requires Parser.Parsed(options)
      ensures this.options == options
    {
      this.options := options;
    }

    /** The query hash of `create_url`, read from the options. */
    function Params(): seq<Request.Param>
      reads options
    {
      Request.QueryParams(options.group, options.artifact, options.version, options.repository,
                          options.extension, options.classifier)
    }

    /** `create_url`: the base URL, the REST root `/service/local` followed by the content
        endpoint `/artifact/maven/content`, '?', then the query string. */
    function CreateUrl(): (url: string)
      reads options
      ensures var prefix := Interpolate(options.baseUrl) + "/service/local/artifact/maven/content?";
        |prefix| <= |url| && url[..|prefix|] == prefix
        && url[|prefix|..] == Request.QueryString(Params())
    {
      Interpolate(options.baseUrl) + "/service/local/artifact/maven/content?"
      + Request.QueryString(Params())
    }

    /** `create_arg_string`: the flag list built by successive pushes, and its join. */
    method CreateArgString() returns (args: seq<string>, line: string)
      ensures args == Request.CurlArgs(options.netrc, options.username, options.password, options.verbose)
      ensures line == Join(args, " ")
    {
      args := ["-R", "--fail", "--location-trusted"];
      if options.netrc {
        args := args + ["-n"];
      } else if options.username.Some? && options.password.Some? {
        args := args + ["-u " + options.username.value + ":" + options.password.value];
      }
      args := args + [if options.verbose then "-v" else "-sS"];
      line := Join(args, " ");
    }

    /** `generate_temp_file_path`: the temp directory joined with
        `<artifact>-<version>-<token>.<extension>`, the token being the 20 characters from index
        1 of a hex digest. */
    function GenerateTempFilePath(seedDigest: Checksum.HexDigest): (path: string)
      reads options
      ensures var name := Interpolate(options.artifact) + "-" + Interpolate(options.version) + "-"
                          + seedDigest[1..21] + "." + options.extension;
        && path == FileJoin(options.temp, name)
        && |name| <= |path| && path[|path| - |name|..] == name
    {
      var token := seedDigest[1..21];
      FileJoin(options.temp, Interpolate(options.artifact) + "-" + Interpolate(options.version)
                             + "-" + token + "." + options.extension)
    }

    /** `http_checksum`: the extension gains ".sha1" for good, the checksum URL is fetched, and
        the body is returned when curl succeeded and the body passes the format check. */
    method HttpChecksum(capture: Request.Command -> Checksum.Captured)
      returns (checksum: Result<string, Checksum.ChecksumError>, request: Request.Command)
      modifies options`extension
      ensures options.extension == old(options.extension) + ".sha1"
      ensures request == Request.Curl(Request.CurlArgs(options.netrc, options.username,
                                                       options.password, options.verbose),
                                      CreateUrl(), None)
      ensures checksum == Checksum.AcceptChecksum(capture(request))
    {
      options.extension := options.extension + ".sha1";
      var url := CreateUrl();
      var args, _ := CreateArgString();
      request := Request.Curl(args, url, None);
      var fetched := capture(request);
      if fetched.exitStatus != 0 {
        return Failure(Checksum.ChecksumDownloadFailed), request;
      }
      if !Checksum.WellFormed(fetched.stdout) {
        return Failure(Checksum.ChecksumMalformed), request;
      }
      checksum := Success(fetched.stdout);
    }

    /** `compare_checksum`: without a local file nothing is fetched; otherwise the fetched
        checksum is compared with the file's digest. No file is ever written. */
    method CompareChecksum(fs: FileSystem, capture: Request.Command -> Checksum.Captured,
                           digest: Bytes -> Checksum.HexDigest)
      returns (verdict: Checksum.Verdict, request: Option<Request.Command>)
      requires options.output.Some?
      modifies options`extension
      ensures fs.files == old(fs.files)
      ensures options.output.value !in fs.files ==>
                verdict == Checksum.NoLocalFile && request == None && unchanged(options)
      ensures options.output.value in fs.files ==>
                && options.extension == old(options.extension) + ".sha1"
                && request == Some(Request.Curl(Request.CurlArgs(options.netrc, options.username,
                                                                 options.password, options.verbose),
                                                CreateUrl(), None))
                && verdict == Checksum.Compare(fs.files[options.output.value], capture(request.value), digest)
    {
      var found := fs.Exists(options.output.value);
      if !found {
        return Checksum.NoLocalFile, None;
      }
      var remote, sent := HttpChecksum(capture);
      request := Some(sent);
      if remote.Failure? {
        return Checksum.Aborted(remote.error), request;
      }
      var local := digest(fs.files[options.output.value]);
      verdict := if local == remote.value then Checksum.Match else Checksum.Mismatch;
    }

    /** `http_download`: curl writes the body to the temp path; a non-zero exit aborts. */
    method HttpDownload(fs: FileSystem, temp: Path, transfer: Request.Command -> Staging.Staged)
      returns (outcome: Outcome<Staging.DownloadError>, request: Request.Command)
      modifies fs
      ensures request == Request.Curl(Request.CurlArgs(options.netrc, options.username,
                                                       options.password, options.verbose),
                                      CreateUrl(), Some(temp))
      ensures var run := transfer(request);
        && fs.files == (if run.written.Some? then old(fs.files)[temp := run.written.value] else old(fs.files))
        && (outcome.Pass? <==> run.exitStatus == 0)
        && (outcome.Fail? ==> outcome.error == Staging.DownloadFailed)
    {
      var url := CreateUrl();
      var args, _ := CreateArgString();
      request := Request.Curl(args, url, Some(temp));
      var run := transfer(request);
      if run.written.Some? {
        fs.Write(temp, run.written.value);
      }
      outcome := if run.exitStatus == 0 then Pass else Fail(Staging.DownloadFailed);
    }

    /** The `ensure` clause of `download_artifact`: the temp file is deleted if it exists. */
    method RemoveTempFile(fs: FileSystem, temp: Path)
      modifies fs
      ensures fs.files == old(fs.files) - {temp}
    {
      var staged := fs.Exists(temp);
      if staged {
        fs.Delete(temp);
      }
    }

    /** The `begin`/`ensure` block of `download_artifact`, entered once the temp path is known
        to be free: download into it, copy it to the output path, and remove it whatever
        happened. */
    method StageAndPublish(fs: FileSystem, temp: Path, out: Path,
                           transfer: Request.Command -> Staging.Staged)
      returns (outcome: Outcome<Staging.DownloadError>, request: Request.Command)
      requires temp !in fs.files
      modifies fs
      ensures request == Request.Curl(Request.CurlArgs(options.netrc, options.username,
                                                       options.password, options.verbose),
                                      CreateUrl(), Some(temp))
      ensures (outcome, fs.files) == Staging.StagedDownload(old(fs.files), temp, out, transfer(request))
    {
      ghost var before := fs.files;
      outcome, request := HttpDownload(fs, temp, transfer);
      ghost var run := transfer(request);
      if outcome.Pass? {
        var copied := fs.Copy(temp, out);
        if copied.Fail? {
          outcome := Fail(Staging.CopyFailed(copied.error));
        }
      }
      ghost var written := fs.files;
      RemoveTempFile(fs, temp);
      if outcome.Fail? {
        if run.written.Some? {
          assert written == before[temp := run.written.value];
          Staging.DiscardStaged(before, temp, run.written.value);
        } else {
          assert written == before;
        }
        assert fs.files == before;
        assert Staging.StagedDownload(before, temp, out, run).1 == before;
        assert Staging.StagedDownload(before, temp, out, run).0 == outcome;
      } else {
        assert written == before[temp := run.written.value][out := run.written.value];
        Staging.DiscardCopied(before, temp, out, run.written.value);
        assert fs.files == before[out := run.written.value];
        assert Staging.StagedDownload(before, temp, out, run) == (Pass, before[out := run.written.value]);
      }
    }

    /** `download_artifact`: aborts on a temp-path collision before downloading; otherwise
        downloads into the temp path, copies it to the output path, and in every case removes
        the temp file afterwards. */
    method DownloadArtifact(fs: FileSystem, seedDigest: Checksum.HexDigest,
                            transfer: Request.Command -> Staging.Staged)
      returns (outcome: Outcome<Staging.DownloadError>, request: Option<Request.Command>)
      requires options.output.Some?
      modifies fs
      ensures var temp := GenerateTempFilePath(seedDigest);
        var command := Request.Curl(Request.CurlArgs(options.netrc, options.username,
                                                     options.password, options.verbose),
                                    CreateUrl(), Some(temp));
        && request == (if temp in old(fs.files) then None else Some(command))
        && (outcome, fs.files)
           == Staging.StagedDownload(old(fs.files), temp, options.output.value, transfer(command))
    {
      var temp := GenerateTempFilePath(seedDigest);
      var collision := fs.Exists(temp);
      if collision {
        return Fail(Staging.TempFileCollision), None;
      }
      var sent;
      outcome, sent := StageAndPublish(fs, temp, options.output.value, transfer);
      request := Some(sent);
    }
  }

  /** `Client.new`: parses the options hash in place and builds the client, or stops with the
      parser's error. */
  method NewClient(options: OptionsHash) returns (client: Result<Client, Parser.ParseError>)
    modifies options`group, options`artifact, options`version, options`repository
    ensures Parser.ParseVerdict(old(options.output), old(options.gav)).Fail? <==> client.Failure?
    ensures client.Failure? ==>
      Parser.ParseVerdict(old(options.output), old(options.gav)) == Fail(client.error)
    ensures client.Failure? ==> unchanged(options)
    ensures client.Success? ==> fresh(client.value) && client.value.options == options
                                && Parser.Parsed(options)
    ensures client.Success? ==>
      var s := Parser.Sections(options.gav.value);
      var explicit := old(options.repository);
      |s| == 3 && options.group == Some(s[0]) && options.artifact == Some(s[1])
      && options.repository == (if explicit.Some? then explicit else Some(Parser.Channel(Some(s[2]))))
      && options.version == (if explicit.Some? then Some(s[2]) else Parser.RewrittenVersion(Some(s[2])))
  {
    var outcome := Parser.Parse(options);
    if outcome.Fail? {
      return Failure(outcome.error);
    }
    var c := new Client(options);
    client := Success(c);
  }

  /** With the default temp directory and an artifact not starting with '/', the temp path is
      "/tmp/" followed by the file name, and its token is 20 lower-case hex digits. */
  lemma DefaultTempFilePath(c: Client, seedDigest: Checksum.HexDigest)
    requires c.options.temp == "/tmp"
    requires c.options.artifact.Some? && (c.options.artifact.value == "" || c.options.artifact.value[0] != '/')
    ensures var token := seedDigest[1..21];
      && |token| == 20 && (forall i :: 0 <= i < 20 ==> Checksum.IsLowerHexDigit(token[i]))
      && c.GenerateTempFilePath(seedDigest)
         == "/tmp/" + (c.options.artifact.value + "-" + Interpolate(c.options.version) + "-"
                       + token + "." + c.options.extension)
  {
    var artifact := c.options.artifact.value;
    var name := artifact + "-" + Interpolate(c.options.version) + "-"
                + seedDigest[1..21] + "." + c.options.extension;
    assert name[0] != '/' by {
      if artifact == "" {
        assert name[0] == '-';
      } else {
        assert name[0] == artifact[0];
      }
    }
    JoinUnderDirectory("/tmp", name);
    assert "/tmp" + "/" == "/tmp/";
  }
}
