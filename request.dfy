/** What `Nexus::Client` sends: the query string of `create_url`, a reference decoder for it,
    and the curl flag list of `create_arg_string`. */
module Request {
  import opened Wrappers
  import opened RubyText

  /** One entry of the hash `create_url` builds: a key and a value that may be nil. */
  datatype Param = Param(key: string, value: Option<string>)

  /** A curl invocation: `curl <args> "<url>"`, with `-o <target>` when the body goes to a file. */
  datatype Command = Curl(args: seq<string>, url: string, target: Option<string>)

  /** The hash of `create_url`, in insertion order g, a, v, r, p, c. */
  function QueryParams(group: Option<string>, artifact: Option<string>, version: Option<string>,
                       repository: Option<string>, extension: string,
                       classifier: Option<string>): seq<Param>
  {
    [Param("g", group), Param("a", artifact), Param("v", version), Param("r", repository),
     Param("p", Some(extension)), Param("c", classifier)]
  }

  /** `reject { |k, v| v.nil? }`: the entries whose value is present, in order. */
  function Present(params: seq<Param>): seq<(string, string)>
  {
    if |params| == 0 then []
    else (if params[0].value.Some? then [(params[0].key, params[0].value.value)] else [])
         + Present(params[1..])
  }

  /** `collect { |k, v| "#{k}=#{v}" }`: no escaping of keys or values. */
  function Pairs(kvs: seq<(string, string)>): seq<string>
  {
    if |kvs| == 0 then [] else [kvs[0].0 + "=" + kvs[0].1] + Pairs(kvs[1..])
  }

  /** The query string: the pairs joined by '&'. */
  function QueryString(params: seq<Param>): string
  {
    Join(Pairs(Present(params)), "&")
  }

  /** A field cut at its first `c`: what precedes it and what follows it. */
  function SplitAtFirst(s: string, c: char): (string, string)
  {
    if |s| == 0 then ("", "")
    else if s[0] == c then ("", s[1..])
    else
      var rest := SplitAtFirst(s[1..], c);
      ([s[0]] + rest.0, rest.1)
  }

  function DecodeFields(fields: seq<string>): seq<(string, string)>
  {
    if |fields| == 0 then [] else [SplitAtFirst(fields[0], '=')] + DecodeFields(fields[1..])
  }

  /** Reference reading of a query string: split at every '&', each field at its first '='. */
  function DecodeQuery(q: string): seq<(string, string)>
  {
    if q == "" then [] else DecodeFields(SplitFields(q, '&'))
  }

  /** The curl flags that precede any authentication flag. */
  const BaseArgs: seq<string> := ["-R", "--fail", "--location-trusted"]

  /** The flag that sends explicit credentials. */
  function UserFlag(username: string, password: string): string
  {
    "-u " + username + ":" + password
  }

  predicate IsUserFlag(arg: string)
  {
    |arg| >= 3 && arg[0] == '-' && arg[1] == 'u' && arg[2] == ' '
  }

  predicate IsAuthFlag(arg: string)
  {
    arg == "-n" || IsUserFlag(arg)
  }

  /** The flag list of `create_arg_string`: always the base flags, then netrc or (failing
      that, with both username and password) explicit credentials, and last verbosity. */
  function CurlArgs(netrc: bool, username: Option<string>, password: Option<string>,
                    verbose: bool): (args: seq<string>)
    ensures |args| >= 4 && args[..3] == BaseArgs
    ensures args[|args| - 1] == (if verbose then "-v" else "-sS")
    ensures "-n" in args <==> netrc
    ensures (exists i :: 0 <= i < |args| && IsUserFlag(args[i]))
            <==> !netrc && username.Some? && password.Some?
    ensures !netrc && username.Some? && password.Some? ==>
              UserFlag(username.value, password.value) in args
    ensures forall i :: 0 <= i < |args| && IsAuthFlag(args[i]) ==> i == 3
  {
    var last := if verbose then "-v" else "-sS";
    assert forall a :: a in BaseArgs + [last] ==> !IsAuthFlag(a);
    if netrc then BaseArgs + ["-n", last]
    else if username.Some? && password.Some? then
      var flag := UserFlag(username.value, password.value);
      assert IsUserFlag(flag) && flag != "-n";
      assert (BaseArgs + [flag, last])[3] == flag;
      BaseArgs + [flag, last]
    else BaseArgs + [last]
  }

  lemma {:induction false} SplitAtFirstOfPair(k: string, v: string, c: char)
    requires c !in k
    ensures SplitAtFirst(k + [c] + v, c) == (k, v)
    decreases |k|
  {
    if |k| == 0 {
      assert k + [c] + v == [c] + v;
    } else {
      assert (k + [c] + v)[1..] == k[1..] + [c] + v;
      SplitAtFirstOfPair(k[1..], v, c);
      assert [k[0]] + k[1..] == k;
    }
  }

  lemma {:induction false} SplitAtFirstValueWithin(s: string, c: char)
    ensures forall ch :: ch in SplitAtFirst(s, c).1 ==> ch in s
    decreases |s|
  {
    if |s| > 0 && s[0] != c {
      SplitAtFirstValueWithin(s[1..], c);
    }
  }

  lemma {:induction false} DecodePairs(kvs: seq<(string, string)>)
    requires forall kv :: kv in kvs ==> '=' !in kv.0
    ensures DecodeFields(Pairs(kvs)) == kvs
    decreases |kvs|
  {
    if |kvs| > 0 {
      assert kvs[0] in kvs;
      SplitAtFirstOfPair(kvs[0].0, kvs[0].1, '=');
      assert kvs[0].0 + "=" + kvs[0].1 == kvs[0].0 + ['='] + kvs[0].1;
      DecodePairs(kvs[1..]);
      assert Pairs(kvs)[1..] == Pairs(kvs[1..]);
    }
  }

  lemma {:induction false} PairsWithout(kvs: seq<(string, string)>, c: char)
    requires forall kv :: kv in kvs ==> c !in kv.0 && c !in kv.1 && c != '='
    ensures forall p :: p in Pairs(kvs) ==> c !in p
    decreases |kvs|
  {
    if |kvs| > 0 {
      assert kvs[0] in kvs;
      PairsWithout(kvs[1..], c);
    }
  }

  lemma {:induction false} PresentEntries(params: seq<Param>)
    ensures forall k, v :: (k, v) in Present(params) <==> Param(k, Some(v)) in params
    decreases |params|
  {
    if |params| > 0 {
      PresentEntries(params[1..]);
      assert params == [params[0]] + params[1..];
    }
  }

  /** Keys that are non-empty and free of '=' and '&', values free of '&'. */
  predicate Unambiguous(params: seq<Param>)
  {
    forall p :: p in params ==>
      p.key != "" && '=' !in p.key && '&' !in p.key && (p.value.Some? ==> '&' !in p.value.value)
  }

  /** Reading the query string back gives exactly the present entries, in order, as long as
      no value contains '&'. */
  lemma QueryRoundTrip(params: seq<Param>)
    requires Unambiguous(params)
    ensures DecodeQuery(QueryString(params)) == Present(params)
  {
    var kvs := Present(params);
    PresentEntries(params);
    if |kvs| > 0 {
      var parts := Pairs(kvs);
      assert forall kv :: kv in kvs ==> Param(kv.0, Some(kv.1)) in params;
      PairsWithout(kvs, '&');
      SplitFieldsOfJoin(parts, '&');
      JoinStartsWithFirst(parts, "&");
      assert kvs[0] in kvs;
      assert QueryString(params) != "";
      DecodePairs(kvs);
    }
  }

  /** Values are not escaped: a present value containing '&' is never read back. */
  lemma AmpersandIsNotEscaped(params: seq<Param>, k: string, v: string)
    requires Param(k, Some(v)) in params && '&' in v
    ensures DecodeQuery(QueryString(params)) != Present(params)
  {
    var q := QueryString(params);
    PresentEntries(params);
    assert (k, v) in Present(params);
    if q != "" {
      var fields := SplitFields(q, '&');
      SplitFieldsSepFree(q, '&');
      DecodedValuesWithin(fields);
      assert (k, v) !in DecodeFields(fields);
    }
  }

  lemma {:induction false} DecodedValuesWithin(fields: seq<string>)
    requires forall f :: f in fields ==> '&' !in f
    ensures forall kv :: kv in DecodeFields(fields) ==> '&' !in kv.1
    decreases |fields|
  {
    if |fields| > 0 {
      assert fields[0] in fields;
      SplitAtFirstValueWithin(fields[0], '=');
      DecodedValuesWithin(fields[1..]);
    }
  }

  /** Once parsing filled in group, artifact, version and repository, the query reads back as
      g, a, v, r, p in that order, followed by c only when a classifier was given. */
  lemma ParsedQuery(g: string, a: string, v: string, r: string, e: string, c: Option<string>)
    requires '&' !in g && '&' !in a && '&' !in v && '&' !in r && '&' !in e
    requires c.Some? ==> '&' !in c.value
    ensures DecodeQuery(QueryString(QueryParams(Some(g), Some(a), Some(v), Some(r), e, c)))
            == [("g", g), ("a", a), ("v", v), ("r", r), ("p", e)]
               + (if c.Some? then [("c", c.value)] else [])
  {
    var ps := QueryParams(Some(g), Some(a), Some(v), Some(r), e, c);
    PresentOfParsed(g, a, v, r, e, c);
    QueryRoundTrip(ps);
  }

  /** The checksum query differs from the content query only in the value of p, which gains
      the suffix ".sha1". */
  lemma ChecksumQuery(g: string, a: string, v: string, r: string, e: string, c: Option<string>)
    requires '&' !in g && '&' !in a && '&' !in v && '&' !in r && '&' !in e
    requires c.Some? ==> '&' !in c.value
    ensures var content := DecodeQuery(QueryString(QueryParams(Some(g), Some(a), Some(v), Some(r), e, c)));
      var checksum := DecodeQuery(QueryString(QueryParams(Some(g), Some(a), Some(v), Some(r), e + ".sha1", c)));
      |content| >= 5 && checksum == content[4 := ("p", e + ".sha1")]
  {
    ParsedQuery(g, a, v, r, e, c);
    ParsedQuery(g, a, v, r, e + ".sha1", c);
  }

  lemma PairsCons(kv: (string, string), rest: seq<(string, string)>)
    ensures Pairs([kv] + rest) == [kv.0 + "=" + kv.1] + Pairs(rest)
  {
    assert ([kv] + rest)[1..] == rest;
  }

  /** One more `key=value` pair at the end of a non-empty query string. */
  lemma JoinStep(xs: seq<string>, key: string, val: string)
    requires |xs| > 0
    ensures Join(xs + [key + val], "&") == Join(xs, "&") + ("&" + key) + val
  {
    JoinSnoc(xs, key + val, "&");
  }

  /** After parsing, the query string is written out as g, a, v, r and p, each as `key=value`
      with the value verbatim, then `c` only when a classifier was given. */
  lemma ParsedQueryString(g: string, a: string, v: string, r: string, e: string, c: Option<string>)
    ensures QueryString(QueryParams(Some(g), Some(a), Some(v), Some(r), e, c))
            == "g=" + g + "&a=" + a + "&v=" + v + "&r=" + r + "&p=" + e
               + (if c.Some? then "&c=" + c.value else "")
  {
    PresentOfParsed(g, a, v, r, e, c);
    PairsOfParsed(g, a, v, r, e, c);
    var p1 := ["g=" + g];
    var p2 := p1 + ["a=" + a];
    var p3 := p2 + ["v=" + v];
    var p4 := p3 + ["r=" + r];
    var p5 := p4 + ["p=" + e];
    var q5 := "g=" + g + "&a=" + a + "&v=" + v + "&r=" + r + "&p=" + e;
    assert Join(p5, "&") == q5 by {
      assert "&" + "a=" == "&a=" && "&" + "v=" == "&v=";
      assert "&" + "r=" == "&r=" && "&" + "p=" == "&p=";
      JoinStep(p1, "a=", a);
      JoinStep(p2, "v=", v);
      JoinStep(p3, "r=", r);
      JoinStep(p4, "p=", e);
    }
    var tp := if c.Some? then ["c=" + c.value] else [];
    assert p5 + tp == ["g=" + g, "a=" + a, "v=" + v, "r=" + r, "p=" + e] + tp;
    if c.Some? {
      assert "&" + "c=" == "&c=";
      JoinStep(p5, "c=", c.value);
    } else {
      assert p5 + tp == p5;
    }
  }

  lemma PairsOfParsed(g: string, a: string, v: string, r: string, e: string, c: Option<string>)
    ensures var tail := if c.Some? then [("c", c.value)] else [];
      Pairs([("g", g), ("a", a), ("v", v), ("r", r), ("p", e)] + tail)
      == ["g=" + g, "a=" + a, "v=" + v, "r=" + r, "p=" + e] + (if c.Some? then ["c=" + c.value] else [])
  {
    var tail := if c.Some? then [("c", c.value)] else [];
    var l5 := [("p", e)] + tail;
    var l4 := [("r", r)] + l5;
    var l3 := [("v", v)] + l4;
    var l2 := [("a", a)] + l3;
    var l1 := [("g", g)] + l2;
    assert l1 == [("g", g), ("a", a), ("v", v), ("r", r), ("p", e)] + tail;
    assert "g" + "=" == "g=" && "a" + "=" == "a=" && "v" + "=" == "v=";
    assert "r" + "=" == "r=" && "p" + "=" == "p=" && "c" + "=" == "c=";
    if c.Some? {
      PairsCons(("c", c.value), []);
    }
    PairsCons(("p", e), tail);
    PairsCons(("r", r), l5);
    PairsCons(("v", v), l4);
    PairsCons(("a", a), l3);
    PairsCons(("g", g), l2);
  }

  /** Once the parser filled in every key but the classifier, only nil values are dropped:
      the present entries are g, a, v, r, p and, when given, c. */
  lemma PresentOfParsed(g: string, a: string, v: string, r: string, e: string, c: Option<string>)
    ensures Present(QueryParams(Some(g), Some(a), Some(v), Some(r), e, c))
            == [("g", g), ("a", a), ("v", v), ("r", r), ("p", e)]
               + (if c.Some? then [("c", c.value)] else [])
  {
    var ps := QueryParams(Some(g), Some(a), Some(v), Some(r), e, c);
    assert ps[4..][1..] == ps[5..];
    assert ps[3..][1..] == ps[4..];
    assert ps[2..][1..] == ps[3..];
    assert ps[1..][1..] == ps[2..];
    assert ps[5..] == [Param("c", c)];
    var tail := Present(ps[5..]);
    assert ps[5..][1..] == [];
    assert tail == (if c.Some? then [("c", c.value)] else []) + Present([]);
    assert Present(ps[4..]) == [("p", e)] + tail;
    assert Present(ps[3..]) == [("r", r), ("p", e)] + tail;
    assert Present(ps[2..]) == [("v", v), ("r", r), ("p", e)] + tail;
    assert Present(ps[1..]) == [("a", a), ("v", v), ("r", r), ("p", e)] + tail;
  }
}
