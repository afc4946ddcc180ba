/**
 * URL normalisation as `post_urls` performs it after validation
 * (page_analyzer/app.py:73-74): the stored name is
 * `urlparse(url).scheme + "://" + urlparse(url).hostname`.
 *
 * The splitter follows the generic syntax of section 3 of RFC 3986 the way
 * Python's `urlsplit` reads it: the scheme ends at the first ":", the
 * authority follows "//" and ends at the first "/", "?" or "#", and within
 * the authority (`[userinfo "@"] host [":" port]`, section 3.2 of RFC 3986)
 * the host follows the last "@" and ends at ":" (or is the text inside "[...]").
 * The scheme is lower-cased, and so is the host up to its first "%"; path,
 * query, fragment, userinfo and port are dropped.
 */
module UrlNormalizer {
  import opened Options

  predicate IsAsciiAlpha(c: char) {
    'a' <= c <= 'z' || 'A' <= c <= 'Z'
  }

  predicate IsAsciiDigit(c: char) {
    '0' <= c <= '9'
  }

  /** Characters allowed in a scheme: letters, digits, "+", "-" and ".". */
  predicate IsSchemeChar(c: char) {
    IsAsciiAlpha(c) || IsAsciiDigit(c) || c == '+' || c == '-' || c == '.'
  }

  function LowerChar(c: char): char {
    if 'A' <= c <= 'Z' then (c as int + 32) as char else c
  }

  function Lower(s: string): string {
    seq(|s|, i requires 0 <= i < |s| => LowerChar(s[i]))
  }

  /** `s` contains none of the characters in `stops`. */
  predicate Avoids(s: string, stops: set<char>) {
    forall i :: 0 <= i < |s| ==> s[i] !in stops
  }

  /**
   * Splits `s` at the first character that is in `stops`: the part
   * before it, and the rest starting with it (empty when there is none).
   */
  function SplitAt(s: string, stops: set<char>): (string, string) {
    if s == [] then ([], [])
    else if s[0] in stops then ([], s)
    else
      var t := SplitAt(s[1..], stops);
      ([s[0]] + t.0, t.1)
  }

  /** The two parts of a split make up `s`. */
  lemma {:induction false} SplitAtParts(s: string, stops: set<char>)
    ensures SplitAt(s, stops).0 + SplitAt(s, stops).1 == s
  {
    if s != [] && s[0] !in stops {
      SplitAtParts(s[1..], stops);
      var t := SplitAt(s[1..], stops);
      assert [s[0]] + t.0 + t.1 == [s[0]] + (t.0 + t.1);
      assert s == [s[0]] + s[1..];
    }
  }

  /** The part before the split holds no stop character. */
  lemma {:induction false} SplitAtAvoids(s: string, stops: set<char>)
    ensures Avoids(SplitAt(s, stops).0, stops)
  {
    if s != [] && s[0] !in stops {
      SplitAtAvoids(s[1..], stops);
      AvoidsConcat([s[0]], SplitAt(s[1..], stops).0, stops);
    }
  }

  /** The part from the split on, when not empty, starts with a stop character. */
  lemma {:induction false} SplitAtStop(s: string, stops: set<char>)
    ensures SplitAt(s, stops).1 != [] ==> SplitAt(s, stops).1[0] in stops
  {
    if s != [] && s[0] !in stops {
      SplitAtStop(s[1..], stops);
    }
  }

  /** The split at the first stop character is the only split with its properties. */
  lemma {:induction false} SplitAtUnique(s: string, stops: set<char>, x: string, y: string)
    requires x + y == s
    requires Avoids(x, stops)
    requires y != [] ==> y[0] in stops
    ensures SplitAt(s, stops) == (x, y)
  {
    if x == [] {
      assert s == y;
    } else {
      assert s[0] == x[0] && s[1..] == x[1..] + y;
      assert s[0] !in stops;
      SplitAtUnique(s[1..], stops, x[1..], y);
      assert [x[0]] + x[1..] == x;
    }
  }

  /** The part of `s` after its last `c`, or all of `s` when it holds no `c`. */
  function AfterLast(s: string, c: char): string {
    if s == [] then []
    else if s[|s| - 1] == c then []
    else AfterLast(s[..|s| - 1], c) + [s[|s| - 1]]
  }

  /** The result is a suffix of `s` without `c`, and what precedes it, if anything, is `c`. */
  lemma {:induction false} AfterLastSpec(s: string, c: char)
    ensures |AfterLast(s, c)| <= |s| && AfterLast(s, c) == s[|s| - |AfterLast(s, c)|..]
    ensures c !in AfterLast(s, c)
    ensures |AfterLast(s, c)| < |s| ==> s[|s| - |AfterLast(s, c)| - 1] == c
  {
    if s != [] && s[|s| - 1] != c {
      var init := s[..|s| - 1];
      var t := AfterLast(init, c);
      AfterLastSpec(init, c);
      assert AfterLast(s, c) == t + [s[|s| - 1]];
      assert init[|init| - |t|..] == t;
      assert s[|s| - |t| - 1..] == init[|init| - |t|..] + [s[|s| - 1]];
    }
  }

  /** Whatever precedes the last `c`, the part after it is what AfterLast returns. */
  lemma {:induction false} AfterLastUnique(s: string, c: char, x: string, y: string)
    requires s == x + [c] + y
    requires c !in y
    ensures AfterLast(s, c) == y
  {
    if y != [] {
      var y' := y[..|y| - 1];
      assert s[..|s| - 1] == x + [c] + y';
      AfterLastUnique(s[..|s| - 1], c, x, y');
      assert y' + [y[|y| - 1]] == y;
    }
  }

  lemma AfterLastAbsent(s: string, c: char)
    requires c !in s
    ensures AfterLast(s, c) == s
  {
  }

  lemma AvoidsConcat(a: string, b: string, stops: set<char>)
    requires Avoids(a, stops) && Avoids(b, stops)
    ensures Avoids(a + b, stops)
  {
    forall i | 0 <= i < |a + b| ensures (a + b)[i] !in stops {
      if i >= |a| {
        assert (a + b)[i] == b[i - |a|];
      }
    }
  }

  /** `s` holds no ASCII capital letter. */
  predicate NoAsciiCapitals(s: string) {
    forall i :: 0 <= i < |s| ==> !('A' <= s[i] <= 'Z')
  }

  /** Lower-casing leaves no capital letter behind. */
  lemma LowerHasNoCapitals(s: string)
    ensures NoAsciiCapitals(Lower(s))
  {
  }

  /** A string without capital letters is its own lower-cased form. */
  lemma LowerNoCapitals(s: string)
    requires NoAsciiCapitals(s)
    ensures Lower(s) == s
  {
    forall i | 0 <= i < |s| ensures Lower(s)[i] == s[i] {
      assert !('A' <= s[i] <= 'Z');
    }
  }

  lemma NoCapitalsConcat(a: string, b: string)
    requires NoAsciiCapitals(a) && NoAsciiCapitals(b)
    ensures NoAsciiCapitals(a + b)
  {
    forall i | 0 <= i < |a + b| ensures !('A' <= (a + b)[i] <= 'Z') {
      if i >= |a| {
        assert (a + b)[i] == b[i - |a|];
      }
    }
  }

  /** A string `urlsplit` accepts as a scheme. */
  predicate IsScheme(s: string) {
    |s| > 0 && IsAsciiAlpha(s[0]) && forall i :: 0 <= i < |s| ==> IsSchemeChar(s[i])
  }

  /** The lower-cased scheme and what follows its ":", or "" and the whole URL. */
  function SplitScheme(url: string): (r: (string, string))
    ensures NoAsciiCapitals(r.0)
    ensures r.0 == "" ==> r.1 == url
  {
    var (head, tail) := SplitAt(url, {':'});
    if tail != [] && IsScheme(head) then LowerHasNoCapitals(head); (Lower(head), tail[1..]) else ("", url)
  }

  /** The authority ("netloc"): after a leading "//", up to the first "/", "?" or "#". */
  function Netloc(rest: string): string {
    if |rest| >= 2 && rest[..2] == "//" then SplitAt(rest[2..], {'/', '?', '#'}).0 else ""
  }

  /** The host of an authority, before lower-casing: userinfo and port removed. */
  function RawHostname(netloc: string): string {
    var hostinfo := AfterLast(netloc, '@');
    var (_, bracketed) := SplitAt(hostinfo, {'['});
    if bracketed != [] then SplitAt(bracketed[1..], {']'}).0
    else SplitAt(hostinfo, {':'}).0
  }

  /**
   * The case folding `hostname` applies: the text before the first "%" is
   * lower-cased, and the "%" with what follows it (an IPv6 zone identifier,
   * or a percent-encoded octet) is kept as written.
   */
  function LowerHost(h: string): string {
    var (name, zone) := SplitAt(h, {'%'});
    Lower(name) + zone
  }

  /** Position by position, a letter is lower-cased exactly when no "%" precedes it. */
  lemma LowerHostPointwise(h: string)
    ensures |LowerHost(h)| == |h|
    ensures forall i :: 0 <= i < |h| ==> LowerHost(h)[i] == (if '%' in h[..i] then h[i] else LowerChar(h[i]))
  {
    var (name, zone) := SplitAt(h, {'%'});
    SplitAtParts(h, {'%'});
    SplitAtAvoids(h, {'%'});
    SplitAtStop(h, {'%'});
    forall i | 0 <= i < |h|
      ensures LowerHost(h)[i] == (if '%' in h[..i] then h[i] else LowerChar(h[i]))
    {
      if i < |name| {
        assert h[..i] == name[..i];
        assert '%' !in name[..i] by {
          forall k | 0 <= k < i ensures name[..i][k] != '%' {
            assert name[k] !in {'%'};
          }
        }
        assert h[i] == name[i];
      } else {
        assert h[i] == zone[i - |name|];
        if i > |name| {
          assert h[..i][|name|] == zone[0];
        } else {
          assert h[..i] == name;
          assert '%' !in name by {
            forall k | 0 <= k < |name| ensures name[k] != '%' {
              assert name[k] !in {'%'};
            }
          }
        }
      }
    }
  }

  /** A host without "%" is lower-cased as a whole. */
  lemma LowerHostNoPercent(h: string)
    requires '%' !in h
    ensures LowerHost(h) == Lower(h)
  {
    SplitAtUnique(h, {'%'}, h, []);
  }

  /**
   * `urlparse(...).hostname`: absent when the authority has no host;
   * otherwise the host with every letter before its first "%" lower-cased.
   */
  function Hostname(netloc: string): (r: Option<string>)
    ensures r.None? <==> RawHostname(netloc) == ""
    ensures r.Some? ==> |r.value| == |RawHostname(netloc)|
    ensures r.Some? ==> forall i :: 0 <= i < |r.value| ==>
      r.value[i] == (if '%' in RawHostname(netloc)[..i] then RawHostname(netloc)[i] else LowerChar(RawHostname(netloc)[i]))
    ensures r.Some? && '%' !in RawHostname(netloc) ==> NoAsciiCapitals(r.value)
  {
    var h := RawHostname(netloc);
    if h == "" then None
    else
      LowerHostPointwise(h);
      if '%' !in h then LowerHostNoPercent(h); LowerHasNoCapitals(h); Some(LowerHost(h))
      else Some(LowerHost(h))
  }

  /**
   * The name under which a validated URL is stored; an f-string shows a
   * missing host as "None".
   */
  function Normalize(url: string): string {
    var (scheme, rest) := SplitScheme(url);
    match Hostname(Netloc(rest))
    case None => scheme + "://None"
    case Some(h) => scheme + "://" + h
  }

  /**
   * With a host present the stored name carries no capital letter, so URLs
   * differing only in case are stored once; without one it ends in "://None".
   */
  lemma NormalizeShape(url: string)
    ensures Hostname(Netloc(SplitScheme(url).1)).Some? && '%' !in RawHostname(Netloc(SplitScheme(url).1)) ==>
      NoAsciiCapitals(Normalize(url))
    ensures Hostname(Netloc(SplitScheme(url).1)).None? ==> Normalize(url) == SplitScheme(url).0 + "://None"
  {
    var (scheme, rest) := SplitScheme(url);
    if Hostname(Netloc(rest)).Some? && '%' !in RawHostname(Netloc(rest)) {
      NameNoCapitals(scheme, Hostname(Netloc(rest)).value);
    }
  }

  lemma NameNoCapitals(scheme: string, host: string)
    requires NoAsciiCapitals(scheme) && NoAsciiCapitals(host)
    ensures NoAsciiCapitals(scheme + "://" + host)
  {
    assert NoAsciiCapitals("://");
    NoCapitalsConcat(scheme, "://");
    NoCapitalsConcat(scheme + "://", host);
  }

  /** The host of an authority (section 3.2.2 of RFC 3986): a registered name, or an IP literal in brackets. */
  datatype Host = RegName(name: string) | IpLiteral(address: string)

  /** How the host is written in the authority. */
  function HostText(host: Host): string {
    match host
    case RegName(n) => n
    case IpLiteral(a) => "[" + a + "]"
  }

  /** What `urlsplit` reports as the host: an IP literal loses its brackets. */
  function HostKey(host: Host): string {
    match host
    case RegName(n) => n
    case IpLiteral(a) => a
  }

  /** A non-empty host that Compose can delimit unambiguously. */
  predicate WellFormedHost(host: Host) {
    match host
    case RegName(n) => n != [] && Avoids(n, {'@', ':', '[', ']', '/', '?', '#'})
    case IpLiteral(a) => a != [] && Avoids(a, {'@', '[', ']', '/', '?', '#'})
  }

  /** The userinfo of an authority with its "@", or "" when there is none. */
  function UserPart(userinfo: Option<string>): string {
    match userinfo case None => "" case Some(u) => u + "@"
  }

  /** The port of an authority with its ":", or "" when there is none. */
  function PortPart(port: Option<string>): string {
    match port case None => "" case Some(p) => ":" + p
  }

  /** An authority `[userinfo "@"] host [":" port]` (section 3.2 of RFC 3986). */
  function Authority(userinfo: Option<string>, host: Host, port: Option<string>): string {
    UserPart(userinfo) + HostText(host) + PortPart(port)
  }

  /** A URL `scheme "://" authority` followed by a path, query or fragment in `tail`. */
  function Compose(scheme: string, userinfo: Option<string>, host: Host, port: Option<string>, tail: string): string {
    scheme + "://" + Authority(userinfo, host, port) + tail
  }

  /** The components of a URL that Compose puts together unambiguously. */
  predicate WellSplit(scheme: string, userinfo: Option<string>, host: Host, port: Option<string>, tail: string) {
    IsScheme(scheme)
    && (userinfo.Some? ==> Avoids(userinfo.value, {'[', ']', '/', '?', '#'}))
    && WellFormedHost(host)
    && (port.Some? ==> Avoids(port.value, {'@', '[', ']', '/', '?', '#'}))
    && (tail == [] || tail[0] in {'/', '?', '#'})
  }

  lemma SchemeAvoidsColon(scheme: string)
    requires IsScheme(scheme)
    ensures Avoids(scheme, {':'})
  {
    forall i | 0 <= i < |scheme| ensures scheme[i] != ':' {
      assert IsSchemeChar(scheme[i]);
    }
  }

  lemma PortPartAvoids(port: Option<string>, stops: set<char>)
    requires ':' !in stops
    requires port.Some? ==> Avoids(port.value, stops)
    ensures Avoids(PortPart(port), stops)
  {
    if port.Some? {
      AvoidsConcat(":", port.value, stops);
    }
  }

  lemma UserPartAvoids(userinfo: Option<string>, stops: set<char>)
    requires '@' !in stops
    requires userinfo.Some? ==> Avoids(userinfo.value, stops)
    ensures Avoids(UserPart(userinfo), stops)
  {
    if userinfo.Some? {
      AvoidsConcat(userinfo.value, "@", stops);
    }
  }

  lemma HostTextAvoids(host: Host, stops: set<char>)
    requires WellFormedHost(host)
    requires stops <= {'@', '/', '?', '#'}
    ensures Avoids(HostText(host), stops)
  {
    if host.IpLiteral? {
      AvoidsConcat("[", host.address, stops);
      AvoidsConcat("[" + host.address, "]", stops);
    }
  }

  /** The scheme is the text before the first ":"; the rest follows it. */
  lemma SchemeOfComposed(scheme: string, rest: string)
    requires IsScheme(scheme)
    ensures SplitScheme(scheme + ":" + rest) == (Lower(scheme), rest)
  {
    SchemeAvoidsColon(scheme);
    assert scheme + ":" + rest == scheme + (":" + rest);
    SplitAtUnique(scheme + ":" + rest, {':'}, scheme, ":" + rest);
  }

  /** The authority is what follows "//" up to the path, query or fragment. */
  lemma NetlocOfRest(auth: string, tail: string)
    requires Avoids(auth, {'/', '?', '#'})
    requires tail == [] || tail[0] in {'/', '?', '#'}
    ensures Netloc("//" + auth + tail) == auth
  {
    var rest := "//" + auth + tail;
    assert rest[..2] == "//" && rest[2..] == auth + tail;
    SplitAtUnique(rest[2..], {'/', '?', '#'}, auth, tail);
  }

  lemma AuthorityAvoids(userinfo: Option<string>, host: Host, port: Option<string>)
    requires userinfo.Some? ==> Avoids(userinfo.value, {'/', '?', '#'})
    requires WellFormedHost(host)
    requires port.Some? ==> Avoids(port.value, {'/', '?', '#'})
    ensures Avoids(Authority(userinfo, host, port), {'/', '?', '#'})
  {
    var stops := {'/', '?', '#'};
    UserPartAvoids(userinfo, stops);
    HostTextAvoids(host, stops);
    PortPartAvoids(port, stops);
    AvoidsConcat(UserPart(userinfo), HostText(host), stops);
    AvoidsConcat(UserPart(userinfo) + HostText(host), PortPart(port), stops);
  }

  /** The scheme is the text before the first ":", and the authority follows "//". */
  lemma NetlocOfComposed(scheme: string, userinfo: Option<string>, host: Host, port: Option<string>, tail: string)
    requires WellSplit(scheme, userinfo, host, port, tail)
    ensures SplitScheme(Compose(scheme, userinfo, host, port, tail))
         == (Lower(scheme), "//" + Authority(userinfo, host, port) + tail)
    ensures Netloc("//" + Authority(userinfo, host, port) + tail) == Authority(userinfo, host, port)
  {
    var auth := Authority(userinfo, host, port);
    assert Compose(scheme, userinfo, host, port, tail) == scheme + ":" + ("//" + auth + tail);
    SchemeOfComposed(scheme, "//" + auth + tail);
    AuthorityAvoids(userinfo, host, port);
    NetlocOfRest(auth, tail);
  }

  /** The host information is what follows the userinfo's "@". */
  lemma HostinfoOfAuthority(userinfo: Option<string>, hostinfo: string)
    requires '@' !in hostinfo
    ensures AfterLast(UserPart(userinfo) + hostinfo, '@') == hostinfo
  {
    match userinfo {
      case None =>
        assert UserPart(userinfo) + hostinfo == hostinfo;
        AfterLastAbsent(hostinfo, '@');
      case Some(u) =>
        assert UserPart(userinfo) + hostinfo == u + ['@'] + hostinfo;
        AfterLastUnique(u + ['@'] + hostinfo, '@', u, hostinfo);
    }
  }

  /** Without brackets, the host is the host information up to its first ":". */
  lemma RawHostnameUnbracketed(netloc: string, host: string, portPart: string)
    requires AfterLast(netloc, '@') == host + portPart
    requires Avoids(host + portPart, {'['})
    requires Avoids(host, {':'})
    requires portPart == [] || portPart[0] == ':'
    ensures RawHostname(netloc) == host
  {
    SplitAtUnique(host + portPart, {'['}, host + portPart, []);
    SplitAtUnique(host + portPart, {':'}, host, portPart);
  }

  lemma SplitBracketed(hostinfo: string, address: string, portPart: string)
    requires hostinfo == "[" + address + "]" + portPart
    requires Avoids(address, {']'})
    ensures SplitAt(hostinfo, {'['}) == ([], hostinfo)
    ensures SplitAt(hostinfo[1..], {']'}).0 == address
  {
    assert hostinfo[0] == '[';
    SplitAtUnique(hostinfo, {'['}, [], hostinfo);
    assert hostinfo[1..] == address + ("]" + portPart);
    SplitAtUnique(hostinfo[1..], {']'}, address, "]" + portPart);
  }

  /** With brackets, the host is the text between "[" and the next "]". */
  lemma RawHostnameBracketed(netloc: string, address: string, portPart: string)
    requires AfterLast(netloc, '@') == "[" + address + "]" + portPart
    requires Avoids(address, {']'})
    ensures RawHostname(netloc) == address
  {
    SplitBracketed(AfterLast(netloc, '@'), address, portPart);
  }

  lemma HostinfoAvoidsAt(host: Host, port: Option<string>)
    requires WellFormedHost(host)
    requires port.Some? ==> Avoids(port.value, {'@'})
    ensures '@' !in HostText(host) + PortPart(port)
  {
    HostTextAvoids(host, {'@'});
    PortPartAvoids(port, {'@'});
    AvoidsConcat(HostText(host), PortPart(port), {'@'});
    var hostinfo := HostText(host) + PortPart(port);
    assert forall i :: 0 <= i < |hostinfo| ==> hostinfo[i] != '@';
  }

  /** The host information of an authority is its host and port. */
  lemma HostinfoOfComposed(userinfo: Option<string>, host: Host, port: Option<string>)
    requires WellFormedHost(host)
    requires port.Some? ==> Avoids(port.value, {'@'})
    ensures AfterLast(Authority(userinfo, host, port), '@') == HostText(host) + PortPart(port)
  {
    HostinfoAvoidsAt(host, port);
    var user, text, portPart := UserPart(userinfo), HostText(host), PortPart(port);
    assert user + text + portPart == user + (text + portPart);
    HostinfoOfAuthority(userinfo, text + portPart);
  }

  lemma RegNameOfAuthority(userinfo: Option<string>, name: string, port: Option<string>)
    requires WellFormedHost(RegName(name))
    requires port.Some? ==> Avoids(port.value, {'@', '['})
    ensures RawHostname(Authority(userinfo, RegName(name), port)) == name
  {
    HostinfoOfComposed(userinfo, RegName(name), port);
    PortPartAvoids(port, {'['});
    AvoidsConcat(name, PortPart(port), {'['});
    RawHostnameUnbracketed(Authority(userinfo, RegName(name), port), name, PortPart(port));
  }

  lemma IpLiteralOfAuthority(userinfo: Option<string>, address: string, port: Option<string>)
    requires WellFormedHost(IpLiteral(address))
    requires port.Some? ==> Avoids(port.value, {'@'})
    ensures RawHostname(Authority(userinfo, IpLiteral(address), port)) == address
  {
    HostinfoOfComposed(userinfo, IpLiteral(address), port);
    RawHostnameBracketed(Authority(userinfo, IpLiteral(address), port), address, PortPart(port));
  }

  /** Userinfo and port are removed from the authority, leaving the host as `urlsplit` reports it. */
  lemma HostOfAuthority(userinfo: Option<string>, host: Host, port: Option<string>)
    requires WellFormedHost(host)
    requires port.Some? ==> Avoids(port.value, {'@', '['})
    ensures RawHostname(Authority(userinfo, host, port)) == HostKey(host)
  {
    match host {
      case RegName(n) => RegNameOfAuthority(userinfo, n, port);
      case IpLiteral(a) => IpLiteralOfAuthority(userinfo, a, port);
    }
  }

  /**
   * Normalising a URL keeps exactly its lower-cased scheme and host (the
   * host folded up to its first "%"): userinfo, port, path, query and
   * fragment do not reach the stored name, and an IP literal is stored
   * without its brackets.
   */
  lemma NormalizeComposed(scheme: string, userinfo: Option<string>, host: Host, port: Option<string>, tail: string)
    requires WellSplit(scheme, userinfo, host, port, tail)
    ensures Normalize(Compose(scheme, userinfo, host, port, tail)) == Lower(scheme) + "://" + LowerHost(HostKey(host))
    ensures '%' !in HostKey(host) ==>
      Normalize(Compose(scheme, userinfo, host, port, tail)) == Lower(scheme) + "://" + Lower(HostKey(host))
  {
    NetlocOfComposed(scheme, userinfo, host, port, tail);
    HostOfAuthority(userinfo, host, port);
    if '%' !in HostKey(host) {
      LowerHostNoPercent(HostKey(host));
    }
  }

  /**
   * Two well-formed URLs whose scheme agrees up to case, and whose host
   * agrees up to case before its first "%", are stored under the same name,
   * whatever their userinfo, port, path, query or fragment.
   */
  lemma SameSchemeAndHostSameName(
    scheme1: string, userinfo1: Option<string>, host1: Host, port1: Option<string>, tail1: string,
    scheme2: string, userinfo2: Option<string>, host2: Host, port2: Option<string>, tail2: string)
    requires WellSplit(scheme1, userinfo1, host1, port1, tail1)
    requires WellSplit(scheme2, userinfo2, host2, port2, tail2)
    requires Lower(scheme1) == Lower(scheme2) && LowerHost(HostKey(host1)) == LowerHost(HostKey(host2))
    ensures Normalize(Compose(scheme1, userinfo1, host1, port1, tail1))
         == Normalize(Compose(scheme2, userinfo2, host2, port2, tail2))
  {
    NormalizeComposed(scheme1, userinfo1, host1, port1, tail1);
    NormalizeComposed(scheme2, userinfo2, host2, port2, tail2);
  }

  /** Lower-casing works character by character from the front. */
  lemma LowerCons(c: char, s: string)
    ensures Lower([c] + s) == [LowerChar(c)] + Lower(s)
  {
    assert forall i :: 0 < i <= |s| ==> ([c] + s)[i] == s[i - 1];
  }

  /** A name whose parts have no capitals is its own lower-cased form. */
  lemma LowerName(scheme: string, host: string)
    requires NoAsciiCapitals(scheme) && NoAsciiCapitals(host)
    ensures Lower(scheme) + "://" + Lower(host) == scheme + "://" + host
  {
    LowerNoCapitals(scheme);
    LowerNoCapitals(host);
  }

  /** Only the first letter of the host needs lower-casing. */
  lemma LowerNameCapitalised(scheme: string, first: char, rest: string)
    requires NoAsciiCapitals(scheme) && NoAsciiCapitals(rest)
    ensures Lower(scheme) + "://" + Lower([first] + rest) == scheme + "://" + [LowerChar(first)] + rest
  {
    LowerCons(first, rest);
    LowerName(scheme, rest);
  }

  lemma ExampleName(scheme: string, host: string)
    requires scheme == "https" && host == "Example.com"
    ensures Lower(scheme) + "://" + Lower(host) == "https://example.com"
  {
    assert host == ['E'] + "xample.com";
    LowerNameCapitalised(scheme, 'E', "xample.com");
  }

  lemma ExampleWellSplit(scheme: string, host: string, tail: string)
    requires scheme == "https" && host == "Example.com" && tail == "/path?q=1"
    ensures WellSplit(scheme, None, RegName(host), None, tail)
    ensures '%' !in host
  {
    assert IsScheme(scheme);
    assert Avoids(host, {'@', ':', '[', ']', '/', '?', '#'});
  }

  lemma ExampleComposed(url: string, scheme: string, host: string, tail: string)
    requires url == "https://Example.com/path?q=1"
    requires scheme == "https" && host == "Example.com" && tail == "/path?q=1"
    ensures url == Compose(scheme, None, RegName(host), None, tail)
  {
    ComposeRegName(scheme, host, tail);
    assert scheme + "://" + host + tail == url;
  }

  lemma ComposeRegName(scheme: string, host: string, tail: string)
    ensures Compose(scheme, None, RegName(host), None, tail) == scheme + "://" + host + tail
  {
    assert Authority(None, RegName(host), None) == host;
  }

  /** A mixed-case host with a path and query is stored as lower-case `scheme://host`. */
  lemma NormalizeExample(url: string)
    requires url == "https://Example.com/path?q=1"
    ensures Normalize(url) == "https://example.com"
  {
    var scheme, host, tail := "https", "Example.com", "/path?q=1";
    ExampleWellSplit(scheme, host, tail);
    ExampleComposed(url, scheme, host, tail);
    NormalizeComposed(scheme, None, RegName(host), None, tail);
    ExampleName(scheme, host);
  }

  lemma IpLiteralName(scheme: string, address: string)
    requires scheme == "http" && address == "::1"
    ensures Lower(scheme) + "://" + Lower(address) == "http://::1"
  {
    LowerName(scheme, address);
  }

  /**
   * An IP-literal host is stored without its brackets: `http://[::1]:8080/x`
   * becomes `http://::1`, which is no longer a URL with that host.
   */
  lemma NormalizeIpLiteralExample(url: string)
    requires url == "http://[::1]:8080/x"
    ensures Normalize(url) == "http://::1"
  {
    var scheme, address, port, tail := "http", "::1", "8080", "/x";
    assert IsScheme(scheme);
    assert WellFormedHost(IpLiteral(address));
    assert Avoids(port, {'@', '[', ']', '/', '?', '#'});
    assert url == Compose(scheme, None, IpLiteral(address), Some(port), tail);
    NormalizeComposed(scheme, None, IpLiteral(address), Some(port), tail);
    IpLiteralName(scheme, address);
  }

  /** Only the text before the first "%" is lower-cased. */
  lemma LowerHostAt(name: string, zone: string)
    requires '%' !in name && zone != [] && zone[0] == '%'
    ensures LowerHost(name + zone) == Lower(name) + zone
  {
    SplitAtUnique(name + zone, {'%'}, name, zone);
  }

  lemma PercentHostName(scheme: string, name: string, zone: string)
    requires scheme == "http" && name == "x" && zone == "%41B"
    ensures Lower(scheme) + "://" + LowerHost(name + zone) == "http://x%41B"
  {
    LowerHostAt(name, zone);
    LowerName(scheme, name);
  }

  lemma PercentExampleWellSplit(scheme: string, name: string, zone: string, tail: string)
    requires scheme == "http" && name == "x" && zone == "%41B" && tail == "/"
    ensures WellSplit(scheme, None, RegName(name + zone), None, tail)
  {
    assert IsScheme(scheme);
    assert Avoids(name + zone, {'@', ':', '[', ']', '/', '?', '#'});
  }

  lemma PercentExampleComposed(url: string, scheme: string, name: string, zone: string, tail: string)
    requires url == "http://x%41B/"
    requires scheme == "http" && name == "x" && zone == "%41B" && tail == "/"
    ensures url == Compose(scheme, None, RegName(name + zone), None, tail)
  {
    ComposeRegName(scheme, name + zone, tail);
    assert scheme + "://" + (name + zone) + tail == url;
  }

  /**
   * Letters after a "%" keep their case: `http://x%41B/` is stored as
   * `http://x%41B`, apart from `http://x%41b`.
   */
  lemma NormalizePercentExample(url: string)
    requires url == "http://x%41B/"
    ensures Normalize(url) == "http://x%41B"
  {
    var scheme, name, zone, tail := "http", "x", "%41B", "/";
    PercentExampleWellSplit(scheme, name, zone, tail);
    PercentExampleComposed(url, scheme, name, zone, tail);
    NormalizeComposed(scheme, None, RegName(name + zone), None, tail);
    PercentHostName(scheme, name, zone);
  }
}
