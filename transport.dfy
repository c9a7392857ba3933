/** The decision rules of initClient and of the task's host setters (task.go): proxy
    selection, the host and certificate policy, the dial address rewrite of WithResolvedIp,
    and the assembly of the request URL. The http.Transport they configure is not modelled;
    a Client value records the choices made. */
module Transport {
  import opened Wrappers
  import opened GoStrings
  import opened Config

  datatype ProxyChoice = NoProxy | FromEnvironment | Explicit(url: string)

  /** What initClient configures: the proxy, the address every dial is sent to
      (when an IP is forced) and whether certificate verification is skipped. */
  datatype Client = Client(proxy: ProxyChoice, resolvedIP: Option<string>, insecureSkipVerify: bool)

  /** A bare &http.Client{}: Go's default transport takes the environment's proxy, dials
      the address it is given and verifies certificates. */
  const DefaultClient: Client := Client(FromEnvironment, None, false)

  /** The proxy rule: an explicit proxy host overrides the environment's proxy; without
      one, the environment's proxy is used unless isNoProxy is set. `parses` says whether
      url.Parse accepts the explicit host; when it does not, initClient fails. */
  function SelectProxy(p: HttpProxy, parses: bool): (r: Result<ProxyChoice>)
    ensures r.Err? <==> p.host != "" && !parses
    ensures r.Err? ==> r.error == ProxyUrl(p.host)
    ensures r.Ok? ==> (r.value.Explicit? <==> p.host != "")
    ensures r.Ok? && r.value.Explicit? ==> r.value.url == p.host
    ensures r.Ok? && p.host == "" ==> (r.value == NoProxy <==> p.isNoProxy)
  {
    var fallback := if !p.isNoProxy then FromEnvironment else NoProxy;
    if p.host != "" then
      if parses then Ok(Explicit(p.host)) else Err(ProxyUrl(p.host))
    else Ok(fallback)
  }

  /** GetHostName: the host header override when there is one, else the URL host. */
  function HostName(headerHost: string, host: string): (r: string)
    ensures headerHost != "" ==> r == headerHost
    ensures headerHost == "" ==> r == host
  {
    if headerHost != "" then headerHost else host
  }

  /** A task's host fields: the URL host, the Host header override and the flag that
      skips certificate verification. */
  datatype HostFields = HostFields(host: string, headerHost: string, ignoreCert: bool)

  /** WithResolvedIpOnHost(ip): the old URL host becomes the Host header, ip the URL host. */
  function ResolvedIpOnHost(f: HostFields, ip: string): (r: HostFields)
    ensures r.host == ip && r.headerHost == f.host && r.ignoreCert == f.ignoreCert
  {
    f.(headerHost := f.host).(host := ip)
  }

  /** After WithResolvedIpOnHost the task still presents the original host name. */
  lemma ResolvedIpOnHostKeepsName(f: HostFields, ip: string)
    requires f.host != ""
    ensures HostName(ResolvedIpOnHost(f, ip).headerHost, ResolvedIpOnHost(f, ip).host) == f.host
  {
  }

  /** initClient's host and certificate branch as written (task.go:163-167): an override
      turns certificate verification off; without one, the URL host is stored as the
      override. */
  function HostRuleAsWritten(f: HostFields): (r: HostFields)
    ensures f.headerHost != "" ==> r == f.(ignoreCert := true)
    ensures f.headerHost == "" ==> r == f.(headerHost := f.host)
  {
    if f.headerHost != "" then f.(ignoreCert := true) else f.(headerHost := f.host)
  }

  /** Running the rule as written twice, as a second Download on the same task does,
      switches certificate verification off although no override was ever set. */
  lemma HostRuleAsWrittenNotIdempotent()
    ensures var f := HostFields("example.com", "", false);
      !HostRuleAsWritten(f).ignoreCert && HostRuleAsWritten(HostRuleAsWritten(f)).ignoreCert
  {
  }

  /** The rule as intended: only an override set by the caller turns certificate
      verification off; the URL host is not copied into the override, which changes
      nothing on the wire since the request Host defaults to the URL host. */
  function HostRule(f: HostFields): (r: HostFields)
    ensures r.host == f.host && r.headerHost == f.headerHost
    ensures r.ignoreCert <==> f.ignoreCert || f.headerHost != ""
  {
    if f.headerHost != "" then f.(ignoreCert := true) else f
  }

  /** The corrected rule is idempotent, presents the same host name as the rule as written,
      and skips verification exactly when the rule as written does on a first run. */
  lemma HostRuleCorrect(f: HostFields)
    ensures HostRule(HostRule(f)) == HostRule(f)
    ensures HostName(HostRule(f).headerHost, HostRule(f).host)
         == HostName(HostRuleAsWritten(f).headerHost, HostRuleAsWritten(f).host)
    ensures HostRule(f).ignoreCert == HostRuleAsWritten(f).ignoreCert
    ensures HostName(HostRule(f).headerHost, HostRule(f).host) == HostName(f.headerHost, f.host)
  {
  }

  /** The request URL: scheme://host path, then ?query when the query is not empty. */
  function BuildUrl(scheme: string, host: string, path: string, query: string): (r: string)
    ensures query == "" ==> r == scheme + "://" + host + path
    ensures query != "" ==> r == scheme + "://" + host + path + "?" + query
  {
    var base := scheme + "://" + host + path;
    if query != "" then base + "?" + query else base
  }

  /** The text of s before its first ':' (all of s when there is none). */
  function BeforeColon(s: string): string
  {
    var k := IndexOf(s, ':');
    if k == -1 then s else s[..k]
  }

  /** The text of s from its first ':' on (empty when there is none). */
  function FromColon(s: string): string
  {
    var k := IndexOf(s, ':');
    if k == -1 then "" else s[k..]
  }

  /** The dial function installed for WithResolvedIp: the ':'-separated fields of the dialled
      address, with the first field replaced by the first field of the resolved IP. */
  function DialAddress(addr: string, resolvedIP: string): string
  {
    var s := Split(addr, ':');
    Join([Split(resolvedIP, ':')[0]] + s[1..], ':')
  }

  /** The rewrite keeps every field of addr after the first and takes the first field of
      the resolved IP. */
  lemma DialAddressFields(addr: string, resolvedIP: string)
    ensures Split(DialAddress(addr, resolvedIP), ':')
         == [Split(resolvedIP, ':')[0]] + Split(addr, ':')[1..]
  {
    var parts := [Split(resolvedIP, ':')[0]] + Split(addr, ':')[1..];
    forall i | 0 <= i < |parts|
      ensures ':' !in parts[i]
    {
      if i > 0 { assert parts[i] == Split(addr, ':')[i]; }
    }
    SplitJoin(parts, ':');
  }

  /** The same rewrite as text: the resolved IP's host part followed by the ':port' (and any
      further fields) of the dialled address. */
  lemma DialAddressText(addr: string, resolvedIP: string)
    ensures DialAddress(addr, resolvedIP) == BeforeColon(resolvedIP) + FromColon(addr)
  {
    var head := Split(resolvedIP, ':')[0];
    SplitHead(resolvedIP);
    var k := IndexOf(addr, ':');
    var s := Split(addr, ':');
    if k != -1 {
      var tail := addr[k + 1..];
      var rest := Split(tail, ':');
      assert s == [addr[..k]] + rest;
      assert s[1..] == rest;
      JoinCons(head, rest, ':');
      JoinSplit(tail, ':');
      assert addr[k..] == [':'] + tail;
    } else {
      assert s == [addr];
      assert [head] + s[1..] == [head];
    }
  }

  lemma SplitHead(s: string)
    ensures Split(s, ':')[0] == BeforeColon(s)
  {
    var k := IndexOf(s, ':');
    if k != -1 {
      assert Split(s, ':') == [s[..k]] + Split(s[k + 1..], ':');
    }
  }

  /** The address a connection is opened to: rewritten when an IP is forced. */
  function DialTarget(c: Client, addr: string): string
  {
    match c.resolvedIP
    case None => addr
    case Some(ip) => DialAddress(addr, ip)
  }
}
