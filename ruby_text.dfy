/** The few Ruby string and path built-ins the script relies on, with Ruby's edge cases. */
module RubyText {
  import opened Wrappers

  /** `"#{v}"`: a missing value interpolates as the empty string. */
  function Interpolate(v: Option<string>): string
  {
    if v.Some? then v.value else ""
  }

  /** Every field of `s` between occurrences of `sep`, empty fields included: the list
      `String#split` starts from before it discards trailing empty fields. */
  function SplitFields(s: string, sep: char): (fields: seq<string>)
    ensures |fields| >= 1
    decreases |s|
  {
    if |s| == 0 then [""]
    else
      var rest := SplitFields(s[1..], sep);
      if s[0] == sep then [""] + rest
      else [[s[0]] + rest[0]] + rest[1..]
  }

  /** Drops the empty fields at the end of a list, and only those. */
  function DropTrailingEmpty(fields: seq<string>): (kept: seq<string>)
    ensures |kept| <= |fields| && kept == fields[..|kept|]
    ensures forall i :: |kept| <= i < |fields| ==> fields[i] == ""
    ensures kept == [] || kept[|kept| - 1] != ""
  {
    if |fields| == 0 then []
    else if fields[|fields| - 1] == "" then DropTrailingEmpty(fields[..|fields| - 1])
    else fields
  }

  /** `s.split(sep)` for a one-character separator: inner and leading empty fields are kept,
      trailing ones are dropped, so `""` and `":::"` give no field at all. */
  function Split(s: string, sep: char): seq<string>
  {
    DropTrailingEmpty(SplitFields(s, sep))
  }

  /** `parts.join(sep)`. */
  function Join(parts: seq<string>, sep: string): string
  {
    if |parts| == 0 then ""
    else if |parts| == 1 then parts[0]
    else parts[0] + sep + Join(parts[1..], sep)
  }

  /** `sub` occurs in `s` starting at index `i`. */
  predicate OccursAt(s: string, sub: string, i: int)
  {
    0 <= i && i + |sub| <= |s| && s[i..i + |sub|] == sub
  }

  /** `s =~ /sub/` for a pattern without metacharacters: `sub` occurs somewhere in `s`. */
  predicate Contains(s: string, sub: string)
  {
    exists i | 0 <= i <= |s| :: OccursAt(s, sub, i)
  }

  /** The length of `dir` without its trailing run of '/' characters. */
  function TrailingSepStart(dir: string): (n: nat)
    ensures n <= |dir|
    ensures forall i :: n <= i < |dir| ==> dir[i] == '/'
    ensures n == 0 || dir[n - 1] != '/'
  {
    if |dir| > 0 && dir[|dir| - 1] == '/' then TrailingSepStart(dir[..|dir| - 1]) else |dir|
  }

  /** `File.join(dir, name)`: when `name` starts with '/', the trailing separators of `dir` are
      dropped; otherwise one '/' is inserted unless `dir` already ends with one. */
  function FileJoin(dir: string, name: string): (path: string)
    ensures |name| <= |path| && path[|path| - |name|..] == name
    ensures TrailingSepStart(dir) <= |path| - |name|
    ensures path[..TrailingSepStart(dir)] == dir[..TrailingSepStart(dir)]
    ensures forall i :: TrailingSepStart(dir) <= i < |path| - |name| ==> path[i] == '/'
    ensures (|name| == 0 || name[0] != '/') ==> TrailingSepStart(dir) < |path| - |name|
  {
    var t := TrailingSepStart(dir);
    if |name| > 0 && name[0] == '/' then dir[..t] + name
    else if t == |dir| then dir + "/" + name
    else dir + name
  }

  /** Under a directory without a trailing separator, a name not starting with one is joined
      with exactly one '/'. */
  lemma JoinUnderDirectory(dir: string, name: string)
    requires |dir| > 0 && dir[|dir| - 1] != '/'
    requires |name| == 0 || name[0] != '/'
    ensures FileJoin(dir, name) == dir + "/" + name
  {
    assert TrailingSepStart(dir) == |dir|;
  }

  /** Splitting text that begins with a field `p` free of `sep` yields `p` glued to the first
      field of the remainder. */
  lemma {:induction false} SplitFieldsPrefix(p: string, t: string, sep: char)
    requires sep !in p
    ensures var rest := SplitFields(t, sep);
      SplitFields(p + t, sep) == [p + rest[0]] + rest[1..]
    decreases |p|
  {
    var rest := SplitFields(t, sep);
    if |p| == 0 {
      assert p + t == t;
      assert p + rest[0] == rest[0];
      assert [rest[0]] + rest[1..] == rest;
    } else {
      assert (p + t)[1..] == p[1..] + t;
      SplitFieldsPrefix(p[1..], t, sep);
      assert [p[0]] + (p[1..] + rest[0]) == p + rest[0];
    }
  }

  /** A field `p` free of `sep`, followed by `sep`, splits off as a field of its own. */
  lemma SplitFieldsAtSep(p: string, rest: string, sep: char)
    requires sep !in p
    ensures SplitFields(p + [sep] + rest, sep) == [p] + SplitFields(rest, sep)
  {
    assert p + [sep] + rest == p + ([sep] + rest);
    var t := [sep] + rest;
    SplitFieldsPrefix(p, t, sep);
    assert t[1..] == rest;
    assert SplitFields(t, sep) == [""] + SplitFields(rest, sep);
    assert p + "" == p;
  }

  /** No field contains the separator. */
  lemma {:induction false} SplitFieldsSepFree(s: string, sep: char)
    ensures forall f :: f in SplitFields(s, sep) ==> sep !in f
    decreases |s|
  {
    if |s| > 0 {
      SplitFieldsSepFree(s[1..], sep);
    }
  }

  /** Joining the fields back with the separator gives the original text. */
  lemma {:induction false} JoinSplitFields(s: string, sep: char)
    ensures Join(SplitFields(s, sep), [sep]) == s
    decreases |s|
  {
    if |s| > 0 {
      var rest := SplitFields(s[1..], sep);
      JoinSplitFields(s[1..], sep);
      if s[0] == sep {
        assert s == [sep] + s[1..];
      } else if |rest| == 1 {
        assert s == [s[0]] + s[1..];
      } else {
        assert rest == [rest[0]] + rest[1..];
        assert Join(rest, [sep]) == rest[0] + [sep] + Join(rest[1..], [sep]);
        assert s == [s[0]] + s[1..];
      }
    }
  }

  /** Splitting the join of a non-empty list of separator-free parts gives the parts back. */
  lemma {:induction false} SplitFieldsOfJoin(parts: seq<string>, sep: char)
    requires |parts| > 0
    requires forall p :: p in parts ==> sep !in p
    ensures SplitFields(Join(parts, [sep]), sep) == parts
    decreases |parts|
  {
    if |parts| == 1 {
      SplitFieldsPrefix(parts[0], "", sep);
      assert parts[0] + "" == parts[0];
    } else {
      assert parts[0] in parts;
      SplitFieldsOfJoin(parts[1..], sep);
      SplitFieldsAtSep(parts[0], Join(parts[1..], [sep]), sep);
    }
  }

  /** Appending a part to a non-empty join appends the separator and the part. */
  lemma {:induction false} JoinSnoc(ys: seq<string>, y: string, sep: string)
    requires |ys| > 0
    ensures Join(ys + [y], sep) == Join(ys, sep) + sep + y
  {
    if |ys| > 1 {
      assert (ys + [y])[1..] == ys[1..] + [y];
      JoinSnoc(ys[1..], y, sep);
    }
  }

  /** The first part of a join is its prefix. */
  lemma {:induction false} JoinStartsWithFirst(parts: seq<string>, sep: string)
    requires |parts| > 0
    ensures |Join(parts, sep)| >= |parts[0]| && Join(parts, sep)[..|parts[0]|] == parts[0]
  {
  }
}
