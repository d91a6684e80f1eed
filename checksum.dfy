/** The checksum half of the client: the format check on the fetched checksum and the verdict
    of `compare_checksum` with its exit code. */
module Checksum {
  import opened Wrappers
  import opened Files
  import RubyText

  predicate IsHexDigit(c: char)
  {
    '0' <= c <= '9' || 'a' <= c <= 'f' || 'A' <= c <= 'F'
  }

  predicate IsLowerHexDigit(c: char)
  {
    '0' <= c <= '9' || 'a' <= c <= 'f'
  }

  predicate AllHex(s: string)
  {
    forall i :: 0 <= i < |s| ==> IsHexDigit(s[i])
  }

  predicate IsHex40(s: string)
  {
    |s| == 40 && AllHex(s)
  }

  /** What `Digest::SHA1#hexdigest` returns: 40 lower-case hexadecimal digits. */
  type HexDigest = s: string | |s| == 40 && forall i :: 0 <= i < |s| ==> IsLowerHexDigit(s[i])
    witness "0000000000000000000000000000000000000000"

  /** `/^[a-fA-F0-9]{40}$/` matches at index `i`: a line starts there (start of text or after
      a newline), 40 hex digits follow and the line ends right after them. */
  predicate MatchAt(s: string, i: int)
  {
    && 0 <= i && i + 40 <= |s|
    && (i == 0 || s[i - 1] == '\n')
    && AllHex(s[i..i + 40])
    && (i + 40 == |s| || s[i + 40] == '\n')
  }

  /** `s =~ /^[a-fA-F0-9]{40}$/`; the anchors are line anchors. */
  predicate WellFormed(s: string)
  {
    exists i | 0 <= i <= |s| :: MatchAt(s, i)
  }

  /** The output of `curl` run without `-o`: its exit status and what it printed. */
  datatype Captured = Captured(exitStatus: int, stdout: string)

  /** The two aborts of `http_checksum`. */
  datatype ChecksumError = ChecksumDownloadFailed | ChecksumMalformed

  /** How `compare_checksum` ends. */
  datatype Verdict = Match | Mismatch | NoLocalFile | Aborted(error: ChecksumError)

  /** `http_checksum` after curl ran: the body is returned whole when curl succeeded and the body
      passes the format check. */
  function AcceptChecksum(fetched: Captured): (r: Result<string, ChecksumError>)
    ensures r.Success? <==> fetched.exitStatus == 0 && WellFormed(fetched.stdout)
    ensures r.Success? ==> r.value == fetched.stdout
    ensures fetched.exitStatus != 0 ==> r == Failure(ChecksumDownloadFailed)
  {
    if fetched.exitStatus != 0 then Failure(ChecksumDownloadFailed)
    else if !WellFormed(fetched.stdout) then Failure(ChecksumMalformed)
    else Success(fetched.stdout)
  }

  /** `compare_checksum` once the local file was found: the fetched checksum against the
      hex digest of the file's bytes, compared with `==`. */
  function Compare(local: Bytes, fetched: Captured, digest: Bytes -> HexDigest): Verdict
  {
    match AcceptChecksum(fetched)
    case Failure(e) => Aborted(e)
    case Success(remote) => if digest(local) == remote then Match else Mismatch
  }

  /** `exit 0` on a match; `exit 1` and `abort` (status 1) otherwise. */
  function ExitCode(v: Verdict): (code: int)
    ensures code == 0 <==> v == Match
    ensures code == 0 || code == 1
  {
    if v == Match then 0 else 1
  }

  /** A hex digest always passes the format check. */
  lemma DigestIsWellFormed(d: HexDigest)
    ensures WellFormed(d)
  {
    assert MatchAt(d, 0);
  }

  /** Exit 0 exactly when curl succeeded and printed the local digest, character for character:
      the format check never rejects a body that equals the digest. */
  lemma ExitZeroIffExactMatch(local: Bytes, fetched: Captured, digest: Bytes -> HexDigest)
    ensures ExitCode(Compare(local, fetched, digest)) == 0
            <==> fetched.exitStatus == 0 && fetched.stdout == digest(local)
  {
    if fetched.exitStatus == 0 && fetched.stdout == digest(local) {
      DigestIsWellFormed(digest(local));
    }
  }

  /** A correct checksum followed by a newline passes the format check and still yields a
      mismatch, since the comparison is exact and the body is not trimmed. */
  lemma TrailingNewlineIsMismatch(local: Bytes, digest: Bytes -> HexDigest)
    ensures var fetched := Captured(0, digest(local) + "\n");
      WellFormed(fetched.stdout) && Compare(local, fetched, digest) == Mismatch
  {
    var body := digest(local) + "\n";
    assert body[0..40] == digest(local);
    assert MatchAt(body, 0);
  }

  /** The correct checksum in upper case passes the format check and still yields a mismatch,
      since the comparison is case-sensitive. */
  lemma UpperCaseIsMismatch(local: Bytes, fetched: Captured, digest: Bytes -> HexDigest, i: nat)
    requires fetched.exitStatus == 0 && i < |fetched.stdout|
    requires 'A' <= fetched.stdout[i] <= 'F'
    ensures Compare(local, fetched, digest) != Match
  {
  }

  /** Index of the first newline in `s`, or `|s|` when there is none. */
  function LineEnd(s: string): (e: nat)
    ensures e <= |s| && (e < |s| ==> s[e] == '\n')
    ensures forall i :: 0 <= i < e ==> s[i] != '\n'
  {
    if |s| == 0 || s[0] == '\n' then 0 else 1 + LineEnd(s[1..])
  }

  /** Reference reading of the format check: some line of the body, split at newlines,
      consists of exactly 40 hex digits. */
  predicate SomeLineIsHex40(s: string)
  {
    exists line :: line in RubyText.SplitFields(s, '\n') && IsHex40(line)
  }

  lemma {:induction false} FirstLine(s: string)
    ensures var e := LineEnd(s);
      e < |s| ==> RubyText.SplitFields(s, '\n') == [s[..e]] + RubyText.SplitFields(s[e + 1..], '\n')
    ensures LineEnd(s) == |s| ==> RubyText.SplitFields(s, '\n') == [s]
  {
    var e := LineEnd(s);
    assert '\n' !in s[..e];
    if e < |s| {
      assert s == s[..e] + ['\n'] + s[e + 1..];
      RubyText.SplitFieldsAtSep(s[..e], s[e + 1..], '\n');
    } else {
      RubyText.SplitFieldsPrefix(s, "", '\n');
      assert s + "" == s;
    }
  }

  /** A match at index 0 is exactly a first line of 40 hex digits. */
  lemma MatchAtStart(s: string)
    ensures MatchAt(s, 0) <==> IsHex40(s[..LineEnd(s)])
  {
    var e := LineEnd(s);
    if MatchAt(s, 0) {
      assert forall i :: 0 <= i < 40 ==> s[i] == s[0..40][i];
      assert e >= 40;
    }
  }

  /** Inside the first line no match can start after index 0. */
  lemma NoMatchInsideFirstLine(s: string, i: int)
    requires 0 < i <= LineEnd(s)
    ensures !MatchAt(s, i)
  {
    assert s[i - 1] != '\n';
  }

  /** Past a newline at `k - 1`, matches in `s` are the matches in `s[k..]`, shifted by `k`. */
  lemma ShiftMatch(s: string, k: int, j: int)
    requires 0 < k <= |s| && s[k - 1] == '\n' && 0 <= j
    ensures MatchAt(s, k + j) <==> MatchAt(s[k..], j)
  {
    var t := s[k..];
    var i := k + j;
    if i + 40 <= |s| {
      assert s[i..i + 40] == t[j..j + 40];
    }
    if 0 < j <= |t| {
      assert s[i - 1] == t[j - 1];
    }
    if i + 40 < |s| {
      assert s[i + 40] == t[j + 40];
    }
  }

  lemma {:induction false} WellFormedHasHexLine(s: string)
    requires WellFormed(s)
    ensures SomeLineIsHex40(s)
    decreases |s|
  {
    var e := LineEnd(s);
    FirstLine(s);
    var i :| 0 <= i <= |s| && MatchAt(s, i);
    if i == 0 {
      MatchAtStart(s);
      if e == |s| {
        assert s[..e] == s;
        assert s in RubyText.SplitFields(s, '\n');
      } else {
        assert s[..e] in RubyText.SplitFields(s, '\n');
      }
    } else if i <= e {
      NoMatchInsideFirstLine(s, i);
    } else {
      var t := s[e + 1..];
      ShiftMatch(s, e + 1, i - (e + 1));
      assert MatchAt(t, i - (e + 1));
      WellFormedHasHexLine(t);
      var line :| line in RubyText.SplitFields(t, '\n') && IsHex40(line);
      assert line in RubyText.SplitFields(s, '\n');
    }
  }

  /** A 40-hex first line (or a whole body without newline) is a match at index 0. */
  lemma FirstLineMatches(s: string, line: string)
    requires line in RubyText.SplitFields(s, '\n') && IsHex40(line)
    requires line == s[..LineEnd(s)] || LineEnd(s) == |s|
    ensures MatchAt(s, 0)
  {
    var e := LineEnd(s);
    FirstLine(s);
    if e == |s| {
      assert s[..e] == s;
    }
    MatchAtStart(s);
  }

  /** A match in the text after a newline is a match in the whole text. */
  lemma MatchAfterNewline(s: string, k: int)
    requires 0 < k <= |s| && s[k - 1] == '\n' && WellFormed(s[k..])
    ensures WellFormed(s)
  {
    var j :| 0 <= j <= |s[k..]| && MatchAt(s[k..], j);
    ShiftMatch(s, k, j);
    assert MatchAt(s, k + j);
  }

  lemma {:induction false} HexLineIsWellFormed(s: string)
    requires SomeLineIsHex40(s)
    ensures WellFormed(s)
    decreases |s|
  {
    var e := LineEnd(s);
    FirstLine(s);
    var line :| line in RubyText.SplitFields(s, '\n') && IsHex40(line);
    if line == s[..e] || e == |s| {
      FirstLineMatches(s, line);
    } else {
      var t := s[e + 1..];
      assert line in RubyText.SplitFields(t, '\n');
      HexLineIsWellFormed(t);
      MatchAfterNewline(s, e + 1);
    }
  }

  /** The format check with line anchors accepts a body exactly when one of its lines is 40
      hex digits. */
  lemma WellFormedIffSomeLine(s: string)
    ensures WellFormed(s) <==> SomeLineIsHex40(s)
  {
    if WellFormed(s) {
      WellFormedHasHexLine(s);
    }
    if SomeLineIsHex40(s) {
      HexLineIsWellFormed(s);
    }
  }
}
