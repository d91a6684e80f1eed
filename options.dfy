/** The options hash that the command line fills in, that the parser completes in place and
    that the client reads (and, for the checksum request, updates). */
module Options {
  import opened Wrappers

  /** One field per key of the hash; a missing key (nil) is `None`. The keys `group`,
      `artifact` and `version` are only ever set by the parser. */
  class OptionsHash {
    var baseUrl: Option<string>
    var username: Option<string>
    var password: Option<string>
    var netrc: bool
    var gav: Option<string>
    var group: Option<string>
    var artifact: Option<string>
    var version: Option<string>
    var repository: Option<string>
    var extension: string
    var classifier: Option<string>
    var output: Option<string>
    var temp: string
    var verbose: bool

    /** The hash as the command line leaves it; `extension`, `temp` and `verbose` default to
        "jar", "/tmp" and false, every other key is absent unless its flag was given. */
    constructor (baseUrl: Option<string>, username: Option<string>, password: Option<string>,
                 netrc: bool, gav: Option<string>, repository: Option<string>,
                 classifier: Option<string>, output: Option<string>,
                 extension: string := "jar", temp: string := "/tmp", verbose: bool := false)
      ensures this.baseUrl == baseUrl && this.username == username && this.password == password
      ensures this.netrc == netrc && this.gav == gav && this.repository == repository
      ensures this.classifier == classifier && this.output == output
      ensures this.extension == extension && this.temp == temp && this.verbose == verbose
      ensures group.None? && artifact.None? && version.None?
    {
      this.baseUrl, this.username, this.password := baseUrl, username, password;
      this.netrc, this.gav, this.repository := netrc, gav, repository;
      this.classifier, this.output := classifier, output;
      this.extension, this.temp, this.verbose := extension, temp, verbose;
      group, artifact, version := None, None, None;
    }
  }
}
