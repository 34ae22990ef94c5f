/** Where a cookie belongs and for how long: sections 5.1.3, 5.1.4 and 5.3 of RFC 6265. */
module CookieRules {
  import opened Ordering

  type Key = (string, string, string)

  /** Times are whole seconds; this is the last one a timestamp can hold. */
  const MAX_TIME := 253402300799

  datatype Cookie = Cookie(name: string, value: string, domain: string, path: string, hostOnly: bool,
                           expiresAt: Option<int>, secure: bool, httpOnly: bool, sameSite: string)
  {
    function Key(): Key {
      (name, domain, path)
    }

    predicate IsExpired(now: int) {
      expiresAt.Some? && expiresAt.value <= now
    }
  }

  /** A parsed address: lowercase host without a trailing dot, never empty; the path is never empty. */
  datatype Target = Target(scheme: string, host: string, path: string) {
    predicate IsSecure() {
      scheme == "https" || host in {"localhost", "127.0.0.1", "::1"}
    }

    predicate WellFormed() {
      host != "" && path != "" && path[0] == '/'
    }
  }

  /** What the jar asks of others: which hosts are addresses, and which domains are public suffixes. */
  datatype Site = Site(isIp: string -> bool, publicSuffixes: Option<string -> bool>)

  /** The attributes of a line: `domain` stripped of dots and lowercased, `maxAge` when it is a number,
      `expires` when it is a date. */
  datatype Attributes = Attributes(domain: string, path: string, maxAge: Option<int>, expires: Option<int>,
                                   secure: bool, httpOnly: bool, sameSite: string)

  /** `Unparsed` is a line without a name. */
  datatype Line = Unparsed | Line(name: string, value: string, attributes: Attributes) {
    predicate WellFormed() {
      Line? ==> name != "" && (attributes.domain != "" ==> attributes.domain[0] != '.')
    }
  }

  // ----- Domains

  predicate EndsWith(s: string, suffix: string) {
    |suffix| <= |s| && s[|s| - |suffix|..] == suffix
  }

  predicate DomainMatches(site: Site, host: string, domain: string) {
    host == domain || (EndsWith(host, "." + domain) && !site.isIp(host))
  }

  /** Where a cookie belongs and whether to that host alone; `None` when the server may not set it there. */
  function Scope(site: Site, host: string, domain: string): Option<(string, bool)> {
    if domain == "" || domain == host then Some((host, domain == ""))
    else
      var isSuffix := if site.publicSuffixes.Some? then site.publicSuffixes.value(domain) else '.' !in domain;
      if isSuffix || !DomainMatches(site, host, domain) then None else Some((domain, false))
  }

  // ----- Paths

  function CountSlashes(s: string): nat {
    if s == [] then 0 else (if s[0] == '/' then 1 else 0) + CountSlashes(s[1..])
  }

  function LastSlash(s: string): (i: nat)
    requires '/' in s
    ensures i < |s| && s[i] == '/' && '/' !in s[i + 1..]
  {
    if s[|s| - 1] == '/' then |s| - 1
    else
      assert s == s[..|s| - 1] + [s[|s| - 1]];
      LastSlash(s[..|s| - 1])
  }

  /** The directory of the request path. */
  function DefaultPath(requestPath: string): string {
    if requestPath == "" || requestPath[0] != '/' || CountSlashes(requestPath) == 1 then "/"
    else requestPath[..LastSlash(requestPath)]
  }

  predicate PathMatches(requestPath: string, cookiePath: string) {
    if requestPath == cookiePath then true
    else if !(cookiePath <= requestPath) then false
    else (cookiePath != "" && cookiePath[|cookiePath| - 1] == '/') || requestPath[|cookiePath|] == '/'
  }

  function WithSlash(path: string): string {
    if path != "" && path[|path| - 1] == '/' then path else path + "/"
  }

  /** A cookie path matches itself and everything under it, whole segments at a time. */
  lemma PathMatchesWholeSegments(requestPath: string, cookiePath: string)
    ensures PathMatches(requestPath, cookiePath) <==> requestPath == cookiePath || WithSlash(cookiePath) <= requestPath
  {
    if cookiePath <= requestPath && requestPath != cookiePath {
      assert requestPath == cookiePath + requestPath[|cookiePath|..];
      assert WithSlash(cookiePath) == cookiePath + "/" ==>
          (WithSlash(cookiePath) <= requestPath <==> requestPath[|cookiePath|] == '/');
    }
    if WithSlash(cookiePath) <= requestPath {
      assert cookiePath <= WithSlash(cookiePath);
    }
  }

  lemma {:induction false} OneSlash(s: string)
    requires CountSlashes(s) >= 2
    ensures exists i :: 1 <= i < |s| && s[i] == '/'
  {
    if s[0] == '/' {
      SomeSlash(s[1..]);
      var i :| 0 <= i < |s[1..]| && s[1..][i] == '/';
      assert s[i + 1] == '/';
    } else {
      OneSlash(s[1..]);
      var i :| 1 <= i < |s[1..]| && s[1..][i] == '/';
      assert s[i + 1] == '/';
    }
  }

  lemma {:induction false} SomeSlash(s: string)
    requires CountSlashes(s) >= 1
    ensures '/' in s
  {
    if s[0] != '/' {
      SomeSlash(s[1..]);
    }
  }

  lemma {:induction false} NoSlash(s: string)
    requires CountSlashes(s) == 0
    ensures '/' !in s
  {
    if s != [] {
      NoSlash(s[1..]);
    }
  }

  /** A request path is under its own default path. */
  lemma OwnDefaultPathMatches(path: string)
    requires path != "" && path[0] == '/'
    ensures PathMatches(path, DefaultPath(path)) && DefaultPath(path) != "" && DefaultPath(path)[0] == '/'
  {
    if CountSlashes(path) != 1 {
      assert CountSlashes(path) >= 1;
      OneSlash(path);
      var i := LastSlash(path);
      assert forall j :: i < j < |path| ==> path[j] == path[i + 1..][j - i - 1];
      assert i >= 1;
    }
  }

  // ----- Expiry

  datatype Expiry = Overflow | Expiry(at: Option<int>, removes: bool)

  /** `Max-Age` before `Expires`; a time past the last timestamp raises. */
  function ExpiryOf(a: Attributes, now: int): Expiry {
    if a.maxAge.Some? then
      if a.maxAge.value <= 0 then Expiry.Expiry(Some(now), true)
      else if now + a.maxAge.value > MAX_TIME then Overflow
      else Expiry.Expiry(Some(now + a.maxAge.value), false)
    else if a.expires.Some? then Expiry.Expiry(a.expires, a.expires.value <= now)
    else Expiry.Expiry(None, false)
  }

  // ----- One line

  /** What a line does to a jar. */
  datatype Effect = Ignored | Raises | Removes(key: Key) | Puts(cookie: Cookie)

  function EffectOf(site: Site, target: Target, line: Line, now: int): Effect {
    if line.Unparsed? then Ignored
    else
      var a := line.attributes;
      var scope := Scope(site, target.host, a.domain);
      if scope.None? then Ignored
      else
        var (domain, hostOnly) := scope.value;
        var path := if a.path != "" && a.path[0] == '/' then a.path else DefaultPath(target.path);
        var expiry := ExpiryOf(a, now);
        if expiry.Overflow? then Raises
        else if expiry.removes then Removes((line.name, domain, path))
        else if domain == "" || domain[0] == '.' then Raises
        else Puts(Cookie(line.name, line.value, domain, path, hostOnly, expiry.at, a.secure, a.httpOnly, a.sameSite))
  }

  predicate Belongs(site: Site, cookie: Cookie, target: Target) {
    && (if cookie.hostOnly then target.host == cookie.domain else DomainMatches(site, target.host, cookie.domain))
    && (cookie.secure ==> target.IsSecure())
    && PathMatches(target.path, cookie.path)
  }

  /** A cookie that a line without an absolute path puts, `Secure` only from a secure address, belongs to
      the address it came from and is alive. */
  lemma PutCookieComesBack(site: Site, target: Target, line: Line, now: int)
    requires target.WellFormed() && line.Line? && EffectOf(site, target, line, now).Puts?
    requires !(line.attributes.path != "" && line.attributes.path[0] == '/')
    requires line.attributes.secure ==> target.IsSecure()
    ensures Belongs(site, EffectOf(site, target, line, now).cookie, target)
    ensures !EffectOf(site, target, line, now).cookie.IsExpired(now)
  {
    OwnDefaultPathMatches(target.path);
  }

  /** A line in scope whose `Max-Age` is past the last timestamp, or that would put a cookie on a host that
      starts with a dot. */
  predicate RaisingLine(site: Site, target: Target, line: Line, now: int) {
    line.Line? && Scope(site, target.host, line.attributes.domain).Some? &&
      var a := line.attributes;
      var overflows := a.maxAge.Some? && a.maxAge.value > 0 && now + a.maxAge.value > MAX_TIME;
      var removes := if a.maxAge.Some? then a.maxAge.value <= 0 else a.expires.Some? && a.expires.value <= now;
      overflows || (!removes && target.host != "" && target.host[0] == '.' && a.domain == "")
  }

  /** When a line raises. */
  lemma RaisesIff(site: Site, target: Target, line: Line, now: int)
    requires target.WellFormed() && line.WellFormed()
    ensures EffectOf(site, target, line, now).Raises? <==> RaisingLine(site, target, line, now)
  {
  }
}
