/** `Nexus::Parser`: checks the output path and the coordinate, splits the coordinate and
    infers the repository channel, completing the options hash in place. */
module Parser {
  import opened Wrappers
  import opened RubyText
  import opened Options

  /** The three aborts of the parser, in the order they are checked. */
  datatype ParseError = NoOutputFile | GavRequired | GavMalformed

  /** `gav.split(':')`. */
  function Sections(gav: string): seq<string>
  {
    Split(gav, ':')
  }

  /** `k` colons. */
  function Colons(k: nat): string
  {
    seq(k, _ => ':')
  }

  /** `k` empty fields. */
  function Empties(k: nat): seq<string>
  {
    seq(k, _ => "")
  }

  /** The coordinate strings that split into exactly `[g, a, v]`: three colon-free fields,
      the last non-empty, followed by any number of colons. */
  predicate GavShape(gav: string, g: string, a: string, v: string)
  {
    && ':' !in g && ':' !in a && ':' !in v && v != ""
    && exists k: nat | k <= |gav| :: gav == g + ":" + a + ":" + v + Colons(k)
  }

  /** The channel inferred from the version: `version =~ /SNAPSHOT/` (nil never matches). */
  function Channel(version: Option<string>): string
  {
    if version.Some? && Contains(version.value, "SNAPSHOT") then "snapshots" else "releases"
  }

  /** The version after inference: only the exact literal LATEST-SNAPSHOT is rewritten. */
  function RewrittenVersion(version: Option<string>): Option<string>
  {
    if version == Some("LATEST-SNAPSHOT") then Some("LATEST") else version
  }

  /** The verdict of `Parser.parse` from the two keys it checks, in the order it checks them. */
  function ParseVerdict(output: Option<string>, gav: Option<string>): Outcome<ParseError>
  {
    if output.None? then Fail(NoOutputFile)
    else if gav.None? then Fail(GavRequired)
    else if |Sections(gav.value)| != 3 then Fail(GavMalformed)
    else Pass
  }

  /** The keys the client relies on once parsing succeeded. */
  predicate Parsed(options: OptionsHash)
    reads options
  {
    options.output.Some? && options.group.Some? && options.artifact.Some?
    && options.version.Some? && options.repository.Some?
  }

  /** `parse_gav`: aborts without the coordinate or when it does not split into exactly three
      sections; otherwise stores them as group, artifact and version. */
  method ParseGav(options: OptionsHash) returns (outcome: Outcome<ParseError>)
    modifies options`group, options`artifact, options`version
    ensures options.gav.None? ==> outcome == Fail(GavRequired)
    ensures options.gav.Some? && |Sections(options.gav.value)| != 3 ==> outcome == Fail(GavMalformed)
    ensures options.gav.Some? && |Sections(options.gav.value)| == 3 ==> outcome == Pass
    ensures outcome.Fail? ==> outcome.error != NoOutputFile && unchanged(options)
    ensures outcome.Pass? ==>
      var s := Sections(options.gav.value);
      |s| == 3 && options.group == Some(s[0]) && options.artifact == Some(s[1])
      && options.version == Some(s[2])
  {
    if options.gav.None? {
      return Fail(GavRequired);
    }
    var sections := Sections(options.gav.value);
    if |sections| != 3 {
      return Fail(GavMalformed);
    }
    options.group := Some(sections[0]);
    options.artifact := Some(sections[1]);
    options.version := Some(sections[2]);
    outcome := Pass;
  }

  /** `parse_repository`: an explicit repository is kept and the version left alone; otherwise
      the channel is inferred and LATEST-SNAPSHOT becomes LATEST. */
  method ParseRepository(options: OptionsHash)
    modifies options`repository, options`version
    ensures old(options.repository).Some? ==> unchanged(options)
    ensures old(options.repository).None? ==>
      options.repository == Some(Channel(old(options.version)))
      && options.version == RewrittenVersion(old(options.version))
  {
    if options.repository.Some? {
      return;
    }
    if options.version.Some? && Contains(options.version.value, "SNAPSHOT") {
      options.repository := Some("snapshots");
      if options.version == Some("LATEST-SNAPSHOT") {
        options.version := Some("LATEST");
      }
    } else {
      options.repository := Some("releases");
      LatestSnapshotIsSnapshot();
    }
  }

  /** `Parser.parse`: the output path is checked first, then the coordinate; on success the
      hash holds the sections and the resolved repository and version. */
  method Parse(options: OptionsHash) returns (outcome: Outcome<ParseError>)
    modifies options`group, options`artifact, options`version, options`repository
    ensures outcome == ParseVerdict(old(options.output), old(options.gav))
    ensures outcome.Fail? ==> unchanged(options)
    ensures outcome.Pass? ==> Parsed(options)
    ensures outcome.Pass? ==>
      var s := Sections(options.gav.value);
      var explicit := old(options.repository);
      |s| == 3 && options.group == Some(s[0]) && options.artifact == Some(s[1])
      && options.repository == (if explicit.Some? then explicit else Some(Channel(Some(s[2]))))
      && options.version == (if explicit.Some? then Some(s[2]) else RewrittenVersion(Some(s[2])))
  {
    if options.output.None? {
      return Fail(NoOutputFile);
    }
    outcome := ParseGav(options);
    if outcome.Fail? {
      return;
    }
    ParseRepository(options);
  }

  lemma LatestSnapshotIsSnapshot()
    ensures Contains("LATEST-SNAPSHOT", "SNAPSHOT")
  {
    assert OccursAt("LATEST-SNAPSHOT", "SNAPSHOT", 7);
  }

  /** Repository inference: an explicit repository wins and the version is kept; otherwise the
      channel is snapshots exactly when the version contains SNAPSHOT, and the version changes
      exactly when it is LATEST-SNAPSHOT, into LATEST. */
  lemma RepositoryInference(repository: Option<string>, version: string)
    ensures var chosen := if repository.Some? then repository.value else Channel(Some(version));
      var resolved := if repository.Some? then Some(version) else RewrittenVersion(Some(version));
      && (repository.Some? ==> chosen == repository.value && resolved == Some(version))
      && (repository.None? ==> (chosen == "snapshots" <==> Contains(version, "SNAPSHOT")))
      && (repository.None? ==> (chosen == "releases" <==> !Contains(version, "SNAPSHOT")))
      && (resolved != Some(version) <==> repository.None? && version == "LATEST-SNAPSHOT")
      && (resolved != Some(version) ==> resolved == Some("LATEST") && chosen == "snapshots")
  {
    if version == "LATEST-SNAPSHOT" {
      LatestSnapshotIsSnapshot();
    }
  }

  lemma {:induction false} SplitColons(k: nat)
    ensures SplitFields(Colons(k), ':') == Empties(k + 1)
  {
    if k > 0 {
      SplitColons(k - 1);
      assert Colons(k)[1..] == Colons(k - 1);
      assert Empties(k + 1) == [""] + Empties(k);
    }
  }

  lemma {:induction false} DropPadding(xs: seq<string>, k: nat)
    requires xs != [] && xs[|xs| - 1] != ""
    ensures DropTrailingEmpty(xs + Empties(k)) == xs
  {
    if k > 0 {
      assert (xs + Empties(k))[..|xs| + k - 1] == xs + Empties(k - 1);
      DropPadding(xs, k - 1);
    }
  }

  lemma {:induction false} JoinPadding(xs: seq<string>, k: nat)
    requires |xs| > 0
    ensures Join(xs + Empties(k), ":") == Join(xs, ":") + Colons(k)
  {
    if k > 0 {
      JoinPadding(xs, k - 1);
      assert xs + Empties(k) == (xs + Empties(k - 1)) + [""];
      JoinSnoc(xs + Empties(k - 1), "", ":");
      assert Colons(k) == Colons(k - 1) + ":";
    } else {
      assert xs + Empties(0) == xs;
    }
  }

  lemma JoinThree(g: string, a: string, v: string)
    ensures Join([g, a, v], ":") == g + ":" + a + ":" + v
  {
    assert [g, a, v][1..] == [a, v] && [a, v][1..] == [v];
    assert Join([a, v], ":") == a + ":" + v;
  }

  /** The raw fields of `g:a:v` followed by `k` colons: the three parts, then `k` empties. */
  lemma ShapeFields(g: string, a: string, v: string, k: nat)
    requires ':' !in g && ':' !in a && ':' !in v
    ensures SplitFields(g + ":" + a + ":" + v + Colons(k), ':') == [g, a, v] + Empties(k)
  {
    var tail := v + Colons(k);
    assert SplitFields(tail, ':') == [v] + Empties(k) by {
      SplitFieldsPrefix(v, Colons(k), ':');
      SplitColons(k);
      assert v + "" == v;
    }
    var afterG := a + [':'] + tail;
    assert SplitFields(afterG, ':') == [a, v] + Empties(k) by {
      SplitFieldsAtSep(a, tail, ':');
    }
    assert g + ":" + a + ":" + v + Colons(k) == g + [':'] + afterG;
    SplitFieldsAtSep(g, afterG, ':');
  }

  lemma ShapeSplits(gav: string, g: string, a: string, v: string)
    requires GavShape(gav, g, a, v)
    ensures Sections(gav) == [g, a, v]
  {
    var k: nat :| k <= |gav| && gav == g + ":" + a + ":" + v + Colons(k);
    ShapeFields(g, a, v, k);
    DropPadding([g, a, v], k);
  }

  lemma SplitsShape(gav: string, g: string, a: string, v: string)
    requires Sections(gav) == [g, a, v]
    ensures GavShape(gav, g, a, v)
  {
    var fields := SplitFields(gav, ':');
    var m := |fields| - 3;
    assert fields == [g, a, v] + Empties(m);
    SplitFieldsSepFree(gav, ':');
    assert g in fields && a in fields && v in fields;
    JoinSplitFields(gav, ':');
    JoinPadding([g, a, v], m);
    JoinThree(g, a, v);
    assert gav == g + ":" + a + ":" + v + Colons(m);
  }

  /** A coordinate splits into exactly `[g, a, v]` if and only if it has the shape `GavShape`:
      so trailing colons are accepted and the group or artifact may be empty. */
  lemma ThreeSections(gav: string, g: string, a: string, v: string)
    ensures Sections(gav) == [g, a, v] <==> GavShape(gav, g, a, v)
  {
    if GavShape(gav, g, a, v) {
      ShapeSplits(gav, g, a, v);
    }
    if Sections(gav) == [g, a, v] {
      SplitsShape(gav, g, a, v);
    }
  }

  /** The code accepts a coordinate with a trailing colon. */
  lemma TrailingColonAccepted()
    ensures Sections("a:b:c:") == ["a", "b", "c"]
  {
    assert "a:b:c:" == "a" + ":" + "b" + ":" + "c" + Colons(1);
    ThreeSections("a:b:c:", "a", "b", "c");
  }

  /** The code accepts an empty artifact, and an empty group. */
  lemma EmptyFieldsAccepted()
    ensures Sections("a::c") == ["a", "", "c"]
    ensures Sections("::c") == ["", "", "c"]
  {
    assert "a::c" == "a" + ":" + "" + ":" + "c" + Colons(0);
    ThreeSections("a::c", "a", "", "c");
    assert "::c" == "" + ":" + "" + ":" + "c" + Colons(0);
    ThreeSections("::c", "", "", "c");
  }

  /** A trailing empty version is dropped, so "a:b:" has too few sections. */
  lemma EmptyVersionRejected()
    ensures |Sections("a:b:")| != 3
  {
    SplitFieldsAtSep("a", "b:", ':');
    SplitFieldsAtSep("b", "", ':');
    assert "a:b:" == "a" + [':'] + "b:";
    assert "b:" == "b" + [':'] + "";
  }

  /** `Parser.parse` passes exactly when an output path is given and the coordinate has the
      shape `GavShape`; a missing output path is reported before anything about the
      coordinate. */
  lemma ParseVerdictShape(output: Option<string>, gav: Option<string>)
    ensures ParseVerdict(output, gav).Pass?
            <==> output.Some? && gav.Some? && exists g, a, v :: GavShape(gav.value, g, a, v)
    ensures output.None? ==> ParseVerdict(output, gav) == Fail(NoOutputFile)
  {
    if gav.Some? {
      var s := Sections(gav.value);
      if |s| == 3 {
        assert s == [s[0], s[1], s[2]];
        ThreeSections(gav.value, s[0], s[1], s[2]);
      }
      if exists g, a, v :: GavShape(gav.value, g, a, v) {
        var g, a, v :| GavShape(gav.value, g, a, v);
        ThreeSections(gav.value, g, a, v);
      }
    }
  }

  /** A release version is kept and goes to releases; a version that merely contains
      LATEST-SNAPSHOT goes to the snapshots repository and is not rewritten; only the exact
      literal is. */
  lemma ChannelScenarios()
    ensures Channel(Some("1.0.0")) == "releases"
    ensures RewrittenVersion(Some("1.0.0")) == Some("1.0.0")
    ensures Channel(Some("2.0-LATEST-SNAPSHOT")) == "snapshots"
    ensures RewrittenVersion(Some("2.0-LATEST-SNAPSHOT")) == Some("2.0-LATEST-SNAPSHOT")
    ensures Channel(Some("LATEST-SNAPSHOT")) == "snapshots"
    ensures RewrittenVersion(Some("LATEST-SNAPSHOT")) == Some("LATEST")
  {
    assert OccursAt("2.0-LATEST-SNAPSHOT", "SNAPSHOT", 11);
    LatestSnapshotIsSnapshot();
  }
}
