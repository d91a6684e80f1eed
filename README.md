# nexus_cli: a verified model of the Nexus artifact fetcher

`files/nexus_cli.rb` fetches one Maven artifact, named by a `group:artifact:version`
coordinate, from a Nexus repository manager. It goes through Nexus's REST content endpoint.
The script has two modes:

- **Download mode** stages the artifact in a temp file, copies it to the output path and
  always removes the temp file.
- **Compare mode** fetches the `.sha1` companion resource and compares it with the SHA-1
  of the existing output file. The exit code is 0 on a match and 1 otherwise.

This project models the script's core in Dafny:

- `Nexus::Parser` completes the options hash in place: it checks the output path, splits
  the coordinate and infers the `snapshots`/`releases` channel, including the rewrite of
  `LATEST-SNAPSHOT` to `LATEST`.
- The `Nexus::Client` builders produce the content URL, its checksum variant, the curl
  flag list and the staging file path.
- The staged download works over a filesystem held as a map from path to bytes.
- The checksum comparison has its 40-hex line check and its exit code.

Modules:

- `Wrappers`: `Option` (Ruby's nil), `Result` and `Outcome`. Every `abort`/`exit` of the
  script, and the exception `FileUtils.cp` raises, becomes a typed value: an `Outcome` or
  `Result` carrying a `ParseError`, `ChecksumError` or `DownloadError`, or a
  `Checksum.Verdict` for the exits of compare mode.
- `RubyText`: the Ruby built-ins the script depends on, with Ruby's edge cases.
  - `String#split(':')` drops trailing empty fields and keeps leading and inner ones.
  - `Array#join`.
  - A literal `=~` (substring test).
  - `File.join`.
  - Interpolation of nil as the empty string.
- `Options`: the options hash as a class whose fields the parser and the client update.
  It has the command-line defaults `extension: 'jar'`, `temp: '/tmp'` and `verbose: false`.
- `Parser`: `parse`, `parse_gav`, `parse_repository` as methods over the hash. The
  functions `Sections`, `Channel` and `RewrittenVersion` specify them, and lemmas
  characterise them.
- `Request`: the query hash, `reject`/`collect`/`join` as functions, a reference decoder for
  the query string, and the curl flag list.
- `Checksum`: the line-anchored format check `/^[a-fA-F0-9]{40}$/`, the verdict and exit
  code of `compare_checksum`, and a line-based reference reading of the format check.
- `Files`: the filesystem as a class over `map<Path, Bytes>`, with `File.exist?`, curl's
  `-o` write, `File.delete` and `FileUtils.cp`.
- `Staging`: the closed-form end state of `download_artifact`.
- `Nexus`: class `Client` with the methods of `Nexus::Client`, and `NewClient`
  (`Client.new`, which runs the parser).

External effects are parameters:

- The curl run in compare mode is a function from the command to its exit status and
  standard output.
- The curl run in download mode is a function from the command to its exit status and what
  it left at the temp path. A failed run may still leave partial bytes there.
- SHA-1 of a file is a function from bytes to a 40-digit lower-case hex string.
- The digest that seeds the temp name is a parameter; the model uses its characters 1 to 20.

Where the script behaves unexpectedly, the model follows the code:

- **Coordinates.** `split(':')` drops trailing empty fields. So `"g:a:v:"` parses as
  `g`, `a`, `v`, and `"a::c"` parses with an empty artifact. No non-emptiness is checked
  (`Parser.ThreeSections`, `Parser.TrailingColonAccepted`, `Parser.EmptyFieldsAccepted`).
- **Checksum comparison.** It is exact `==` against the lower-case hexdigest, with no
  trimming and no case folding. The format check uses line anchors, so one 40-hex line
  among others passes (`Checksum.WellFormedIffSomeLine`). A correct checksum in upper case,
  or one followed by a newline, therefore yields a mismatch (`Checksum.UpperCaseIsMismatch`,
  `Checksum.TrailingNewlineIsMismatch`).
- **Redirect endpoint.** The redirect path is declared and never used. Every request goes
  to the content endpoint with `--location-trusted`, which forwards credentials on
  redirects. The model makes no claim that credentials are withheld.

## Model

| member | source | states |
|---|---|---|
| `Options.OptionsHash.constructor` | files/nexus_cli.rb:132 | the hash as the command line leaves it: `extension` "jar", `temp` "/tmp", `verbose` false unless given; group, artifact and version unset |
| `Parser.ParseGav` | files/nexus_cli.rb:17-24 | aborts with GavRequired without a coordinate and with GavMalformed unless it splits into exactly 3 sections, leaving the hash unchanged; otherwise stores sections 0, 1, 2 as group, artifact, version |
| `Parser.ParseRepository` | files/nexus_cli.rb:26-34 | an explicit repository leaves the hash unchanged; otherwise the repository becomes the inferred channel and the version is rewritten only from LATEST-SNAPSHOT |
| `Parser.Parse` | files/nexus_cli.rb:10-15 | the output path is checked before the coordinate; on failure nothing changes; on success output, group, artifact, version and repository are set, to the sections and the resolved repository and version |
| `Parser.ParseVerdictShape` | files/nexus_cli.rb:10-20 | parsing passes iff an output path is given and the coordinate is `g:a:v` (colon-free fields, non-empty version) followed only by colons; a missing output path is reported first |
| `Parser.ThreeSections` | files/nexus_cli.rb:19-20 | `gav.split(':')` is exactly `[g, a, v]` iff gav is `g:a:v` plus trailing colons, with colon-free fields and a non-empty last field |
| `Parser.TrailingColonAccepted` | files/nexus_cli.rb:19-20 | `"a:b:c:"` splits into the three sections `a`, `b`, `c` |
| `Parser.EmptyFieldsAccepted` | files/nexus_cli.rb:19-20 | `"a::c"` and `"::c"` split into three sections with an empty artifact, and an empty group and artifact |
| `Parser.EmptyVersionRejected` | files/nexus_cli.rb:19-20 | `"a:b:"` does not split into three sections |
| `Parser.RepositoryInference` | files/nexus_cli.rb:26-34 | an explicit repository is used verbatim and the version kept; otherwise snapshots iff the version contains SNAPSHOT, releases iff not; the version changes iff it is exactly LATEST-SNAPSHOT, and then to LATEST |
| `Parser.ChannelScenarios` | files/nexus_cli.rb:28-33 | `1.0.0` goes to releases unchanged, `2.0-LATEST-SNAPSHOT` goes to snapshots unchanged, `LATEST-SNAPSHOT` goes to snapshots as LATEST |
| `RubyText.DropTrailingEmpty` | files/nexus_cli.rb:19 | keeps a prefix of the fields, drops only empty fields, and leaves no empty field last |
| `RubyText.JoinSplitFields` | files/nexus_cli.rb:19 | joining the raw fields of a split with the separator gives the original string back |
| `RubyText.SplitFieldsOfJoin` | files/nexus_cli.rb:19 | splitting a join of a non-empty list of separator-free parts into its raw fields (before trailing empty fields are dropped) gives the parts back |
| `RubyText.FileJoin` | files/nexus_cli.rb:97 | `File.join(dir, name)` ends with `name`, keeps `dir` up to its trailing separators and puts only separators between them, at least one when `name` does not start with one |
| `Request.PresentEntries` | files/nexus_cli.rb:122 | `reject { v.nil? }` keeps exactly the entries with a present value |
| `Request.PresentOfParsed` | files/nexus_cli.rb:114-122 | after parsing, the present entries are g, a, v, r, p in that order, then c only when a classifier is given |
| `Request.ParsedQueryString` | files/nexus_cli.rb:114-123 | after parsing, the query string is `g=..&a=..&v=..&r=..&p=..`, with values verbatim, followed by `&c=..` only with a classifier |
| `Request.QueryRoundTrip` | files/nexus_cli.rb:113-123 | when no value holds '&', decoding the query string gives back exactly the present entries in order |
| `Request.AmpersandIsNotEscaped` | files/nexus_cli.rb:122 | values are not escaped: a value containing '&' cannot be read back from the query string |
| `Request.ParsedQuery` | files/nexus_cli.rb:114-122 | after parsing, when no value contains '&', the decoded query is g, a, v, r, p, plus c only when a classifier is given |
| `Request.ChecksumQuery` | files/nexus_cli.rb:63-65 | when no value contains '&', the decoded checksum query equals the decoded content query except that p gains `.sha1` |
| `Request.CurlArgs` | files/nexus_cli.rb:100-111 | starts with `-R --fail --location-trusted`; `-n` iff netrc; a `-u user:pass` flag iff netrc is off and both are set; auth flags only at index 3, so at most one; the last flag is `-v` if verbose, else `-sS` |
| `Nexus.Client.CreateArgString` | files/nexus_cli.rb:100-111 | the pushes build exactly the `CurlArgs` list, joined by spaces |
| `Nexus.Client.CreateUrl` | files/nexus_cli.rb:113-124 | the URL is the base URL (empty when nil), then `/service/local/artifact/maven/content?`, then the query string of the hash |
| `Nexus.Client.GenerateTempFilePath` | files/nexus_cli.rb:94-98 | the path is `File.join(temp, name)` with name `<artifact>-<version>-<digest[1..21]>.<extension>`, so by `RubyText.FileJoin` it ends with the name and keeps the temp directory before it |
| `Nexus.DefaultTempFilePath` | files/nexus_cli.rb:94-98 | with the default temp directory and an artifact not starting with '/', the path is `/tmp/<artifact>-<version>-<token>.<extension>`, where the token is 20 lower-case hex digits |
| `Nexus.Client.HttpChecksum` | files/nexus_cli.rb:63-71 | the extension gains `.sha1` for good; curl is run on the checksum URL; the result is the body iff curl exited 0 and the body has a 40-hex line |
| `Checksum.AcceptChecksum` | files/nexus_cli.rb:67-70 | a non-zero curl exit is a download failure; otherwise the body is returned whole iff some line of it is exactly 40 hex digits |
| `Checksum.WellFormedIffSomeLine` | files/nexus_cli.rb:69 | the line-anchored regex matches iff some newline-separated line is exactly 40 hex digits |
| `Checksum.DigestIsWellFormed` | files/nexus_cli.rb:52 | a SHA-1 hexdigest always passes the format check |
| `Nexus.Client.CompareChecksum` | files/nexus_cli.rb:45-61 | no local file: NoLocalFile with nothing fetched and nothing changed; otherwise the checksum request is sent and the verdict compares the file's digest with the fetched body; no file is written |
| `Checksum.ExitCode` | files/nexus_cli.rb:54-60 | exit 0 iff the verdict is a match, else exit 1 |
| `Checksum.ExitZeroIffExactMatch` | files/nexus_cli.rb:51-60 | exit 0 iff curl exited 0 and its output equals the local hexdigest character for character |
| `Checksum.TrailingNewlineIsMismatch` | files/nexus_cli.rb:54 | the correct digest followed by a newline passes the format check yet is a mismatch |
| `Checksum.UpperCaseIsMismatch` | files/nexus_cli.rb:54 | a fetched checksum with an upper-case hex letter never matches |
| `Files.FileSystem.Exists` | files/nexus_cli.rb:46 | `File.exist?` is membership in the filesystem map |
| `Files.FileSystem.Write` | files/nexus_cli.rb:90 | curl's `-o` sets the path to the written bytes and nothing else |
| `Files.FileSystem.Delete` | files/nexus_cli.rb:83 | `File.delete` removes exactly that path |
| `Files.FileSystem.Copy` | files/nexus_cli.rb:80 | `FileUtils.cp` fails on a missing source or on source equal to destination, changing nothing; otherwise the destination gets the source's bytes and nothing else changes |
| `Nexus.Client.HttpDownload` | files/nexus_cli.rb:87-92 | curl runs on the content URL with `-o temp`; whatever it wrote lands at the temp path; the download fails iff curl's exit status is non-zero |
| `Staging.StagedDownload` | files/nexus_cli.rb:73-85 | a temp-path collision fails with the filesystem unchanged; otherwise the temp path is absent afterwards; success iff curl exited 0, wrote the file, and temp is not the output; on success the output holds exactly the staged bytes; on failure nothing changes; no other path is touched |
| `Nexus.Client.RemoveTempFile` | files/nexus_cli.rb:81-84 | the `ensure` clause removes the temp path and nothing else, whether or not it exists |
| `Nexus.Client.StageAndPublish` | files/nexus_cli.rb:78-84 | with the temp path free, it sends the content request, and its outcome and end state are `StagedDownload` of the initial filesystem and curl's result |
| `Nexus.Client.DownloadArtifact` | files/nexus_cli.rb:73-85 | no download on a collision; otherwise it sends the content request, and its outcome and end state are `StagedDownload` of the initial filesystem and curl's result |
| `Nexus.NewClient` | files/nexus_cli.rb:38-43 | the client exists iff the parser passes; otherwise it carries the parser's error and the hash is unchanged; on success it wraps the hash, whose group, artifact, version and repository are the sections and the resolved repository and version |

## Left out

- Running curl through backticks and reading `$?.exitstatus` (lines 67-68 and 90-91) is
  process and network I/O. It is a parameter of the methods: compare mode receives the exit
  status and output, and download mode receives the exit status and the bytes left at the
  temp path.
- `Digest::SHA1` (lines 52 and 95) is a foreign library. It is a parameter from bytes to a
  40-digit lower-case hex string.
- `Time.now` and `rand` (line 95) are non-deterministic. The digest they seed is a
  parameter.
- `OptionParser`, the banner and the top-level dispatch (lines 133-162) are command-line
  plumbing. Only the defaults of line 132 are kept, in `Options.OptionsHash.constructor`.
- `log` and `puts` (lines 126-128) only print; the messages of `abort` are not modelled.
  Each abort is a typed error instead. `abort` and `exit 1` both end with status 1, which
  `Checksum.ExitCode` gives for every non-match.
- Redirect handling: `@redirect_path` is never used, and `--location-trusted` hands
  redirect-following and credential forwarding to curl, so no redirect logic exists to
  model.
- Nexus.Client.CompareChecksum: requires the output path to be set. `Client.new` parses
  first, and the parser aborts without it, so the script never reaches this method without
  one.
- Nexus.Client.DownloadArtifact: requires the output path to be set, for the same reason.
- Nexus.Client.HttpDownload: assumes curl writes exactly the temp path. The script builds a
  shell string with `-o #{temp_file}` unquoted (line 90), so a temp path containing
  whitespace or shell metacharacters (from `-t`, the artifact or the version) is split or
  reinterpreted by the shell, and curl may write elsewhere. The same holds for `$`,
  backticks or `"` in the quoted URL and in `-u user:pass`. The model treats paths and
  values as free of whitespace and shell metacharacters.
- Nexus.Client.DownloadArtifact: its end state rests on the same assumption, so "no other
  path is touched" holds only for such paths. Paths are also plain names that never alias:
  `FileUtils.cp` follows a symbolic link at the output path and detects the same file with
  `File.identical?`, whereas the model compares path strings.
- Files.FileSystem.Copy: directories, permissions and other `FileUtils.cp` failures are not
  modelled. Only the missing-source and same-file errors are.
- Files.FileSystem.Exists: the filesystem holds regular files only. In the script
  `File.exist?` is also true for a directory, so a directory at the temp path triggers the
  collision abort (line 77), and a directory at the output path in compare mode fetches
  the checksum and then fails in `Digest::SHA1.file` (line 52); the model has neither case.
- A process killed between the download and the `ensure` clause could leave the temp file
  behind. Signals and process termination are not modelled.
- A transfer record (bytes written, HTTP status) is not modelled: the script never produces
  one, and curl's exit status stands in for it.
