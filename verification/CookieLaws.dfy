/**
 Where cookies go, told by labels, segments and times: which domain a line may name, what a line puts, and exactly
 which cookies a request carries. Section numbers are those of RFC 6265.
 */
module CookieLaws {
  import opened Ordering
  import opened CookieRules
  import opened Cookies

  // ----- Labels

  /** The parts of a name between its dots. */
  function Labels(name: string): (labels: seq<string>)
    ensures labels != []
  {
    if name == "" then [""]
    else
      var rest := Labels(name[1..]);
      if name[0] == '.' then [""] + rest else [[name[0]] + rest[0]] + rest[1..]
  }

  function Dotted(labels: seq<string>): string
    requires labels != []
  {
    if |labels| == 1 then labels[0] else labels[0] + "." + Dotted(labels[1..])
  }

  lemma DottedPrefix(first: char, labels: seq<string>)
    requires labels != []
    ensures Dotted([[first] + labels[0]] + labels[1..]) == [first] + Dotted(labels)
  {
    var longer := [[first] + labels[0]] + labels[1..];
    assert longer[1..] == labels[1..];
    if |labels| > 1 {
      assert [first] + labels[0] + "." + Dotted(labels[1..]) == [first] + (labels[0] + "." + Dotted(labels[1..]));
    }
  }

  lemma {:induction false} DottedLabels(name: string)
    ensures Dotted(Labels(name)) == name
  {
    if name != "" {
      var rest := Labels(name[1..]);
      DottedLabels(name[1..]);
      if name[0] == '.' {
        assert ([""] + rest)[1..] == rest && "" + "." + name[1..] == name;
      } else {
        DottedPrefix(name[0], rest);
        assert [name[0]] + name[1..] == name;
      }
    }
  }

  lemma {:induction false} LabelsJoin(a: string, b: string)
    ensures Labels(a + "." + b) == Labels(a) + Labels(b)
    decreases |a|
  {
    var whole := a + "." + b;
    if a == "" {
      assert whole[0] == '.' && whole[1..] == b;
    } else {
      assert whole[0] == a[0] && whole[1..] == a[1..] + "." + b;
      LabelsJoin(a[1..], b);
    }
  }

  lemma {:induction false} DottedJoin(a: seq<string>, b: seq<string>)
    requires a != [] && b != []
    ensures Dotted(a + b) == Dotted(a) + "." + Dotted(b)
    decreases |a|
  {
    assert (a + b)[1..] == a[1..] + b;
    if |a| > 1 {
      DottedJoin(a[1..], b);
      assert a[0] + "." + (Dotted(a[1..]) + "." + Dotted(b)) == a[0] + "." + Dotted(a[1..]) + "." + Dotted(b);
    }
  }

  /** The labels of `domain` are the last labels of `host`: it is that name or one above it. */
  predicate Above(domain: string, host: string) {
    var d, h := Labels(domain), Labels(host);
    |d| <= |h| && h[|h| - |d|..] == d
  }

  lemma SuffixIsAbove(host: string, domain: string)
    requires EndsWith(host, "." + domain)
    ensures Above(domain, host)
  {
    var before := host[..|host| - |domain| - 1];
    assert host == before + "." + domain;
    LabelsJoin(before, domain);
  }

  lemma AboveIsSuffix(host: string, domain: string)
    requires Above(domain, host) && host != domain
    ensures EndsWith(host, "." + domain)
  {
    var d, h := Labels(domain), Labels(host);
    var before := h[..|h| - |d|];
    DottedLabels(host);
    DottedLabels(domain);
    assert h == before + d;
    assert before != [] by {
      assert [] + d == d;
    }
    DottedJoin(before, d);
    EndsWithWhatFollows(Dotted(before), domain);
  }

  lemma EndsWithWhatFollows(before: string, domain: string)
    ensures EndsWith(before + "." + domain, "." + domain)
  {
    assert before + "." + domain == before + ("." + domain);
  }

  /** Section 5.1.3: a host matches the names above it, label by label, and an address only itself. */
  lemma DomainsMatchByLabels(site: Site, host: string, domain: string)
    ensures DomainMatches(site, host, domain) <==> host == domain || (Above(domain, host) && !site.isIp(host))
  {
    if EndsWith(host, "." + domain) {
      SuffixIsAbove(host, domain);
    }
    if Above(domain, host) && host != domain {
      AboveIsSuffix(host, domain);
    }
  }

  lemma {:induction false} OneLabel(name: string)
    ensures '.' !in name <==> |Labels(name)| == 1
  {
    if name != "" {
      OneLabel(name[1..]);
      assert name == [name[0]] + name[1..];
    }
  }

  /** A name under which no site may set a cookie: as the list says, or, without one, a name of one label. */
  predicate IsPublicSuffix(site: Site, domain: string) {
    if site.publicSuffixes.Some? then site.publicSuffixes.value(domain) else |Labels(domain)| == 1
  }

  /** Section 5.3, steps 4 to 6: a line without a domain speaks for its own host alone; one that names the host speaks
      for it and what is under it; any other name must be above the host, and not a public suffix. */
  lemma ScopeInFull(site: Site, host: string, domain: string)
    ensures Scope(site, host, domain) ==
              if domain == "" then Some((host, true))
              else if domain == host then Some((host, false))
              else if Above(domain, host) && !site.isIp(host) && !IsPublicSuffix(site, domain)
              then Some((domain, false))
              else None
  {
    DomainsMatchByLabels(site, host, domain);
    OneLabel(domain);
  }

  // ----- Default paths

  lemma {:induction false} SlashesIn(s: string, t: string)
    ensures CountSlashes(s + t) == CountSlashes(s) + CountSlashes(t)
  {
    if s == "" {
      assert s + t == t;
    } else {
      assert (s + t)[0] == s[0] && (s + t)[1..] == s[1..] + t;
      SlashesIn(s[1..], t);
    }
  }

  lemma {:induction false} NoSlashNone(s: string)
    requires '/' !in s
    ensures CountSlashes(s) == 0
  {
    if s != "" {
      NoSlashNone(s[1..]);
    }
  }

  lemma LastSlashAt(s: string, n: nat)
    requires n < |s| && s[n] == '/' && '/' !in s[n + 1..]
    ensures LastSlash(s) == n
  {
    var i := LastSlash(s);
    assert forall k :: n < k < |s| ==> s[k] == s[n + 1..][k - n - 1];
    assert forall k :: i < k < |s| ==> s[k] == s[i + 1..][k - i - 1];
  }

  /** Section 5.1.4: the default path is everything before the last slash, and the root when nothing is. */
  lemma DefaultPathIsDirectory(directory: string, last: string)
    requires '/' !in last && (directory != "" ==> directory[0] == '/')
    ensures DefaultPath(directory + "/" + last) == if directory == "" then "/" else directory
  {
    var path := directory + "/" + last;
    SlashesIn(directory, "/" + last);
    SlashesIn("/", last);
    assert directory + ("/" + last) == path;
    NoSlashNone(last);
    assert CountSlashes("/") == 1;
    if directory != "" {
      assert CountSlashes(directory) >= 1;
      assert path[|directory|] == '/' && path[|directory| + 1..] == last;
      LastSlashAt(path, |directory|);
    }
  }

  // ----- What a line does

  /** The domain a line in scope names, and whether it names none. */
  function ScopeOf(target: Target, line: Line): (string, bool)
    requires line.Line?
  {
    if line.attributes.domain == "" then (target.host, true) else (line.attributes.domain, false)
  }

  predicate InScope(site: Site, target: Target, line: Line)
    requires line.Line?
  {
    var domain := line.attributes.domain;
    || domain == "" || domain == target.host
    || (Above(domain, target.host) && !site.isIp(target.host) && !IsPublicSuffix(site, domain))
  }

  /** `Max-Age` decides before `Expires`. */
  function LivesUntil(a: Attributes, now: int): Option<int> {
    if a.maxAge.Some? then Some(now + a.maxAge.value) else a.expires
  }

  function PathOf(target: Target, line: Line): string
    requires line.Line?
  {
    if "/" <= line.attributes.path then line.attributes.path else DefaultPath(target.path)
  }

  lemma ScopeOfLine(site: Site, target: Target, line: Line)
    requires target.WellFormed() && line.WellFormed() && line.Line?
    ensures Scope(site, target.host, line.attributes.domain)
         == if InScope(site, target, line) then Some(ScopeOf(target, line)) else None
    ensures ScopeOf(target, line).0 != ""
  {
    ScopeInFull(site, target.host, line.attributes.domain);
  }

  /** A line is ignored when it has no name or is out of scope; it raises when its time is past the last timestamp or it
      would put a cookie on a host that starts with a dot; it removes its cookie when its time is not in the future;
      otherwise it puts the cookie it describes, alive. */
  lemma LineInFull(site: Site, target: Target, line: Line, now: int)
    requires target.WellFormed() && line.WellFormed()
    ensures var effect := EffectOf(site, target, line, now);
            if line.Unparsed? || !InScope(site, target, line) then effect == Ignored
            else
              var a, until := line.attributes, LivesUntil(line.attributes, now);
              var (domain, hostOnly) := ScopeOf(target, line);
              if a.maxAge.Some? && a.maxAge.value > 0 && until.value > 253402300799 then effect == Raises
              else if until.Some? && until.value <= now then
                effect == Removes((line.name, domain, PathOf(target, line)))
              else if domain[0] == '.' then effect == Raises
              else
                effect == Puts(Cookie(line.name, line.value, domain, PathOf(target, line), hostOnly, until,
                                      a.secure, a.httpOnly, a.sameSite))
  {
    if line.Line? {
      ScopeOfLine(site, target, line);
      PathOfLine(target, line);
    }
  }

  lemma PathOfLine(target: Target, line: Line)
    requires line.Line?
    ensures var path := line.attributes.path;
            PathOf(target, line) == if path != "" && path[0] == '/' then path else DefaultPath(target.path)
  {
  }

  // ----- What a request carries

  /** Section 5.1.4: a path is under another when it is that one, or goes on from it with a slash. */
  predicate PathUnder(path: string, above: string) {
    path == above || above + "/" <= path || (above != "" && above[|above| - 1] == '/' && above <= path)
  }

  /** Section 5.4, step 1: exactly the stored cookies that are alive, made for this host or for a name above it, not
      kept for secure requests when this one is not, and made for this path or one above it. */
  lemma SentExactly(j: Jar, site: Site, target: Target, now: int, c: Cookie)
    requires Valid(j)
    ensures c in Selected(j, site, target, now) <==>
              && c in j.cookies && (c.expiresAt.Some? ==> now < c.expiresAt.value)
              && (target.host == c.domain
                  || (!c.hostOnly && Above(c.domain, target.host) && !site.isIp(target.host)))
              && (c.secure ==> target.scheme == "https" || target.host == "localhost" || target.host == "127.0.0.1"
                               || target.host == "::1")
              && PathUnder(target.path, c.path)
  {
    SelectsExactly(j, site, target, now);
    DomainsMatchByLabels(site, target.host, c.domain);
    PathsMatchBySegments(target.path, c.path);
  }

  lemma PathsMatchBySegments(path: string, above: string)
    ensures PathMatches(path, above) <==> PathUnder(path, above)
  {
    PathMatchesWholeSegments(path, above);
    if above != "" && above[|above| - 1] == '/' {
      if above + "/" <= path {
        assert above <= above + "/";
      }
    }
  }

  // ----- Use

  /** Selecting uses the cookies it returns, one after the other in creation order, and no others. */
  lemma {:induction false} SelectedAreUsed(j: Jar, cs: seq<Cookie>)
    requires Distinct(Keys(cs))
    ensures TouchAll(j, cs).tick == j.tick + |cs|
    ensures forall i :: 0 <= i < |cs| ==> UsedAt(TouchAll(j, cs).used, cs[i].Key()) == j.tick + 1 + i
    ensures forall k :: k !in Keys(cs) ==> UsedAt(TouchAll(j, cs).used, k) == UsedAt(j.used, k)
    decreases |cs|
  {
    if cs != [] {
      assert Keys(cs) == [cs[0].Key()] + Keys(cs[1..]) && Keys(cs[1..]) == Keys(cs)[1..];
      SelectedAreUsed(Touch(j, cs[0].Key()), cs[1..]);
      KeysAt(cs);
      assert forall i :: 1 <= i < |cs| ==> cs[i] == cs[1..][i - 1];
      assert cs[0].Key() !in Keys(cs[1..]) by {
        HeadKeyOnlyOnce(cs);
      }
    }
  }

  lemma {:induction false} HeadKeyOnlyOnce(cs: seq<Cookie>)
    requires cs != [] && Distinct(Keys(cs))
    ensures cs[0].Key() !in Keys(cs[1..])
  {
    KeysAt(cs);
    KeysAt(cs[1..]);
    forall i | 0 <= i < |Keys(cs[1..])| ensures Keys(cs[1..])[i] != cs[0].Key() {
      assert Keys(cs[1..])[i] == cs[1..][i].Key() == cs[i + 1].Key() == Keys(cs)[i + 1];
    }
  }

  // ----- Merging a snapshot

  /** A live cookie of `state` has this key. */
  ghost predicate Brings(state: seq<Cookie>, now: int, key: Key) {
    exists i :: 0 <= i < |state| && state[i].Key() == key
                && (state[i].expiresAt.Some? ==> now < state[i].expiresAt.value)
  }

  /** Loading merges: the live cookies of a state, a later one in place of an earlier one, and what was there under
      other keys. */
  lemma {:induction false} MergeHolds(j: Jar, state: seq<Cookie>, now: int, c: Cookie)
    requires Valid(j)
    ensures c in Merge(j, state, now).cookies <==>
              || (c in j.cookies && !Brings(state, now, c.Key()))
              || (exists i :: 0 <= i < |state| && state[i] == c && (c.expiresAt.Some? ==> now < c.expiresAt.value)
                              && !Brings(state[i + 1..], now, c.Key()))
    decreases |state|
  {
    if state != [] {
      var first, rest := state[0], state[1..];
      var next := if first.IsExpired(now) then j else Touch(j.(cookies := Put(j.cookies, first)), first.Key());
      PutKeepsValid(j, first);
      PutMembers(j.cookies, first);
      MergeHolds(next, rest, now, c);
      BringsCons(state, now, c.Key());
      if i :| 0 <= i < |rest| && rest[i] == c && !Brings(rest[i + 1..], now, c.Key()) {
        assert state[i + 1] == c && state[i + 1 + 1..] == rest[i + 1..];
      }
      if i :| 0 <= i < |state| && state[i] == c && !Brings(state[i + 1..], now, c.Key()) {
        assert i > 0 ==> rest[i - 1] == c && rest[i - 1 + 1..] == state[i + 1..];
      }
    }
  }

  lemma BringsCons(state: seq<Cookie>, now: int, key: Key)
    requires state != []
    ensures Brings(state, now, key)
       <==> ((state[0].expiresAt.Some? ==> now < state[0].expiresAt.value) && state[0].Key() == key)
            || Brings(state[1..], now, key)
  {
    if Brings(state[1..], now, key) {
      var i :| 0 <= i < |state[1..]| && state[1..][i].Key() == key
               && (state[1..][i].expiresAt.Some? ==> now < state[1..][i].expiresAt.value);
      assert state[i + 1].Key() == key;
    }
    if Brings(state, now, key) {
      var i :| 0 <= i < |state| && state[i].Key() == key
               && (state[i].expiresAt.Some? ==> now < state[i].expiresAt.value);
      assert i > 0 ==> state[1..][i - 1].Key() == key;
    }
  }
}
