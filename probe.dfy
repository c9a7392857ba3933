/** The metadata prober (initFiles and setFileInfo in file.go): the HEAD request, the
    status gate, and what the response headers decide about the file name, range support
    and size. */
module Probe {
  import opened Wrappers
  import opened GoStrings
  import opened Http

  /** The caller's extra headers that initFiles copies: every key except those that
      spell user-agent or host in any case. */
  function ExtraHeaders(extra: map<string, string>): map<string, string>
  {
    map k | k in extra && ToLower(k) != "user-agent" && ToLower(k) != "host" :: extra[k]
  }

  /** The HEAD probe: the configured user agent, the Host override and the filtered extras. */
  function ProbeRequest(url: string, userAgent: string, headerHost: string,
                        extra: map<string, string>): (r: Request)
    ensures r.verb == "HEAD" && r.url == url && r.host == headerHost
    ensures userAgent != "" ==> "User-Agent" in r.header && r.header["User-Agent"] == userAgent
    ensures forall k :: k in extra && ToLower(k) != "user-agent" && ToLower(k) != "host" ==>
      k in r.header && r.header[k] == extra[k]
    ensures forall k :: k in r.header ==> k in extra || (k == "User-Agent" && userAgent != "")
    ensures forall k :: k in r.header && ToLower(k) == "host" ==> false
  {
    var agent := if userAgent != "" then map["User-Agent" := userAgent] else map[];
    assert ToLower("User-Agent") == "user-agent";
    Request("HEAD", url, ExtraHeaders(extra) + agent, headerHost)
  }

  /** An extra header can never replace the configured user agent. */
  lemma ExtraHeadersKeepUserAgent(url: string, userAgent: string, headerHost: string,
                                  extra: map<string, string>, k: string)
    requires userAgent != ""
    requires k in ProbeRequest(url, userAgent, headerHost, extra).header
    requires ToLower(k) == "user-agent"
    ensures k == "User-Agent" && ProbeRequest(url, userAgent, headerHost, extra).header[k] == userAgent
  {
  }

  /** Only 200 and 206 let the probe go on. */
  predicate StatusAccepted(code: int)
  {
    code == StatusOK || code == StatusPartialContent
  }

  /** The status gate: a transport error or a rejected status ends initFiles. */
  function CheckProbe(o: ProbeOutcome): (r: Result<Response>)
    ensures r.Ok? <==> o.Answered? && StatusAccepted(o.response.statusCode)
    ensures r.Ok? ==> r.value == o.response
    ensures o.ProbeFailed? ==> r == Err(o.error)
    ensures o.Answered? && !StatusAccepted(o.response.statusCode) ==> r == Err(Status(o.response.status))
  {
    match o
    case ProbeFailed(e) => Err(e)
    case Answered(resp) =>
      if !StatusAccepted(resp.statusCode) then Err(Status(resp.status)) else Ok(resp)
  }

  // ---- Content-Disposition: the regular expression (?m)filename="(.*)" ----

  const Directive: string := "filename=\""

  /** The index of the last c in s, or -1. */
  function LastIndexOf(s: string, c: char): (k: int)
    ensures -1 <= k < |s|
    ensures k == -1 <==> c !in s
    ensures k >= 0 ==> s[k] == c
    decreases |s|
  {
    if s == [] then -1
    else if s[|s| - 1] == c then |s| - 1
    else LastIndexOf(s[..|s| - 1], c)
  }

  /** No c follows the index LastIndexOf finds. */
  lemma {:induction false} LastIndexOfIsLast(s: string, c: char)
    ensures forall j :: LastIndexOf(s, c) < j < |s| ==> s[j] != c
    decreases |s|
  {
    if s != [] && s[|s| - 1] != c {
      LastIndexOfIsLast(s[..|s| - 1], c);
    }
  }

  /** The rest of the line of s that starts at position i ('.' does not match a newline). */
  function LineFrom(s: string, i: nat): (line: string)
    requires i <= |s|
    ensures '\n' !in line
    ensures i + |line| <= |s| && s[i..i + |line|] == line
    ensures i + |line| == |s| || s[i + |line|] == '\n'
  {
    var k := IndexOf(s[i..], '\n');
    if k == -1 then s[i..] else s[i..][..k]
  }

  /** The match of the pattern that starts at p, if any: the greedy (.*) runs to the last
      '"' on the line. */
  function MatchAt(s: string, p: nat): (r: Option<string>)
    ensures r.Some? ==> '\n' !in r.value && Occurs(s, p, r.value)
  {
    if p + |Directive| <= |s| && s[p..p + |Directive|] == Directive then
      var line := LineFrom(s, p + |Directive|);
      var q := LastIndexOf(line, '"');
      if q == -1 then None
      else
        QuotedAt(s, p, line, q);
        Some(line[..q])
    else None
  }

  /** The directive at p, followed by the first q characters of the line after it and
      the quote at position q of that line, is an occurrence of the directive. */
  lemma QuotedAt(s: string, p: nat, line: string, q: nat)
    requires p + |Directive| <= |s| && s[p..p + |Directive|] == Directive
    requires p + |Directive| + |line| <= |s| && s[p + |Directive|..p + |Directive| + |line|] == line
    requires q < |line| && line[q] == '"'
    ensures Occurs(s, p, line[..q])
  {
    var a := p + |Directive|;
    var b := a + q + 1;
    assert b <= a + |line|;
    assert s[a..b] == line[..q + 1] by {
      assert s[a..b] == s[a..a + |line|][..q + 1];
    }
    assert line[..q + 1] == line[..q] + "\"" by {
      assert line[..q + 1] == line[..q] + [line[q]];
    }
    assert s[p..b] == s[p..a] + s[a..b];
    assert s[p..b] == Directive + line[..q] + "\"";
    assert p + |Directive| + |line[..q]| + 1 == b;
  }

  /** The text filename="name" occurs in s at position i. */
  predicate Occurs(s: string, i: nat, name: string)
  {
    i + |Directive| + |name| < |s| && s[i..i + |Directive| + |name| + 1] == Directive + name + "\""
  }

  /** The leftmost match at or after p. */
  function FindDirective(s: string, p: nat): (r: Option<string>)
    ensures r.Some? ==> '\n' !in r.value
    ensures r.Some? ==> exists i :: p <= i && Occurs(s, i, r.value)
    decreases |s| - p
  {
    if p >= |s| then None
    else
      match MatchAt(s, p)
      case Some(name) => Some(name)
      case None => FindDirective(s, p + 1)
  }

  /** The file name a Content-Disposition value carries: the first submatch of
      filename="(.*)", or None when the pattern does not match. */
  function FilenameDirective(disposition: string): Option<string>
  {
    FindDirective(disposition, 0)
  }

  /** A well-formed directive yields its name, whatever quote-free text precedes it. */
  lemma DirectiveRoundTrip(prefix: string, name: string)
    requires '"' !in prefix && '"' !in name && '\n' !in name
    ensures FilenameDirective(prefix + Directive + name + "\"") == Some(name)
  {
    NoMatchBefore(prefix, name, 0);
    MatchAtDirective(prefix, name);
  }

  lemma MatchAtDirective(prefix: string, name: string)
    requires '"' !in name && '\n' !in name
    ensures MatchAt(prefix + Directive + name + "\"", |prefix|) == Some(name)
  {
    var s := prefix + Directive + name + "\"";
    var i := |prefix| + |Directive|;
    assert s[|prefix|..i] == Directive;
    assert s[i..] == name + "\"";
    assert '\n' !in name + "\"";
    assert IndexOf(s[i..], '\n') == -1;
    assert LineFrom(s, i) == name + "\"";
    assert LastIndexOf(name + "\"", '"') == |name|;
    assert (name + "\"")[..|name|] == name;
  }

  lemma {:induction false} NoMatchBefore(prefix: string, name: string, p: nat)
    requires '"' !in prefix && p <= |prefix|
    ensures FindDirective(prefix + Directive + name + "\"", p)
         == FindDirective(prefix + Directive + name + "\"", |prefix|)
    decreases |prefix| - p
  {
    var s := prefix + Directive + name + "\"";
    if p < |prefix| {
      NoDirectiveInPrefix(prefix, name, p);
      assert FindDirective(s, p) == FindDirective(s, p + 1);
      NoMatchBefore(prefix, name, p + 1);
    }
  }

  /** No match starts inside a quote-free prefix: the directive's closing quote, or its
      opening 'f' after the prefix, falls where the directive has another character. */
  lemma NoDirectiveInPrefix(prefix: string, name: string, p: nat)
    requires '"' !in prefix && p < |prefix|
    ensures MatchAt(prefix + Directive + name + "\"", p) == None
  {
    var s := prefix + Directive + name + "\"";
    if p + |Directive| <= |s| {
      var j := if p + 9 < |prefix| then 9 else |prefix| - p;
      assert 0 <= j < |Directive|;
      if p + 9 < |prefix| {
        assert prefix[p + 9] in prefix;
        assert s[p + j] == prefix[p + 9];
      } else {
        assert s[p + j] == 'f';
        assert Directive == ['f', 'i', 'l', 'e', 'n', 'a', 'm', 'e', '=', '"'];
      }
      assert s[p + j] != Directive[j];
      assert s[p..p + |Directive|][j] != Directive[j];
    }
  }

  // ---- path.Base ----

  function TrimTrailingSlashes(p: string): (r: string)
    ensures |r| <= |p| && r == p[..|r|]
    ensures r == "" || r[|r| - 1] != '/'
    ensures forall j :: |r| <= j < |p| ==> p[j] == '/'
    decreases |p|
  {
    if p != [] && p[|p| - 1] == '/' then TrimTrailingSlashes(p[..|p| - 1]) else p
  }

  /** path.Base: the last element of a slash-separated path; "." for the empty path and
      "/" for a path of slashes only. */
  function PathBase(p: string): (r: string)
    ensures r != ""
  {
    if p == "" then "."
    else
      var t := TrimTrailingSlashes(p);
      if t == "" then "/"
      else t[LastIndexOf(t, '/') + 1..]
  }

  /** The base is ".", "/" or a single path element: it holds no slash otherwise. */
  lemma PathBaseIsElement(p: string)
    ensures var r := PathBase(p); r == "." || r == "/" || '/' !in r
  {
    var t := TrimTrailingSlashes(p);
    if p != "" && t != "" {
      LastIndexOfIsLast(t, '/');
      var k := LastIndexOf(t, '/');
      var r := t[k + 1..];
      forall j | 0 <= j < |r| ensures r[j] != '/' {
        assert r[j] == t[k + 1 + j];
      }
    }
  }

  /** The base of dir/name is name, for a slash-free non-empty name. */
  lemma PathBaseOfChild(dir: string, name: string)
    requires name != "" && '/' !in name
    ensures PathBase(dir + "/" + name) == name
  {
    var p := dir + "/" + name;
    assert p[|p| - 1] == name[|name| - 1];
    assert TrimTrailingSlashes(p) == p;
    var k := LastIndexOf(p, '/');
    LastIndexOfIsLast(p, '/');
    assert p[|dir|] == '/';
    forall j | |dir| < j < |p|
      ensures p[j] != '/'
    {
      assert p[j] == name[j - |dir| - 1];
      assert name[j - |dir| - 1] in name;
    }
    assert k == |dir|;
    assert p[k + 1..] == name;
  }

  // ---- setFileInfo ----

  /** The name the probe suggests when the task has none: the Content-Disposition directive
      when that header is present (empty when it does not match), else the URL path's base. */
  function ProbedName(path: string, header: map<string, string>): (r: string)
    ensures HeaderGet(header, "Content-Disposition") == "" ==> r == PathBase(path)
    ensures var d := HeaderGet(header, "Content-Disposition");
      d != "" ==> r == (match FilenameDirective(d) case Some(n) => n case None => "")
  {
    var disposition := HeaderGet(header, "Content-Disposition");
    if disposition != "" then
      match FilenameDirective(disposition)
      case Some(n) => n
      case None => ""
    else PathBase(path)
  }

  /** The three fields setFileInfo assigns. */
  datatype FileInfo = FileInfo(fileName: string, acceptRange: bool, fileSize: int)

  /** setFileInfo: a name already set is kept; range support is only ever switched on, by
      a non-empty Accept-Ranges header; the size is the Content-Length. */
  function SetFileInfo(info: FileInfo, path: string, resp: Response): (r: FileInfo)
    ensures info.fileName != "" ==> r.fileName == info.fileName
    ensures info.fileName == "" ==> r.fileName == ProbedName(path, resp.header)
    ensures r.acceptRange <==> info.acceptRange || HeaderGet(resp.header, "Accept-Ranges") != ""
    ensures r.fileSize == resp.contentLength
  {
    var name := if info.fileName == "" then ProbedName(path, resp.header) else info.fileName;
    var accept := if HeaderGet(resp.header, "Accept-Ranges") != "" then true else info.acceptRange;
    FileInfo(name, accept, resp.contentLength)
  }

  /** ForceMultiThread survives the probe, and the probe never clears range support. */
  lemma SetFileInfoKeepsForcedRanges(info: FileInfo, path: string, resp: Response)
    requires info.acceptRange
    ensures SetFileInfo(info, path, resp).acceptRange
  {
  }

  /** A header naming the file fills in the name of a task that had none. */
  lemma SetFileInfoNamesFromHeader(info: FileInfo, path: string, resp: Response, name: string)
    requires info.fileName == ""
    requires '"' !in name && '\n' !in name
    requires HeaderGet(resp.header, "Content-Disposition") == "attachment; " + Directive + name + "\""
    ensures SetFileInfo(info, path, resp).fileName == name
  {
    DirectiveRoundTrip("attachment; ", name);
  }

  /** initFiles's destination: the save directory, a slash, the file name. */
  function SavePathOf(saveDir: string, fileName: string): (r: string)
    ensures r == saveDir + "/" + fileName
  {
    saveDir + "/" + fileName
  }
}
