/** URL decomposition: `parse_url` and `Scheme::try_from` (src/browser.rs).
    The model follows the code: the scheme is the text before the first
    "://", the authority runs to the first '/', the path is the rest with
    that '/' (empty when there is none), and the authority is cut at its
    first ':' whether or not a port number follows. */
module Urls {
  import opened Wrappers
  import opened Text

  datatype Scheme = Http | Https

  type U16 = n: nat | n < 0x1_0000

  datatype Url = Url(scheme: Scheme, host: string, port: Option<U16>, path: string)

  datatype UrlError =
    | MissingSchemeSeparator      // `split_once("://").unwrap()` panics
    | UnknownScheme(name: string)  // `try_into().unwrap()` panics

  function SchemeName(s: Scheme): string {
    match s
    case Http => "http"
    case Https => "https"
  }

  /** `Scheme::try_from`: exact, case-sensitive match of the two names. */
  function SchemeFromStr(value: string): (r: Result<Scheme, UrlError>)
    ensures r.Ok? ==> SchemeName(r.value) == value
    ensures r.Err? ==> r.error == UnknownScheme(value) && forall s: Scheme :: SchemeName(s) != value
  {
    match value
    case "http" => Ok(Http)
    case "https" => Ok(Https)
    case _ => Err(UnknownScheme(value))
  }

  lemma SchemeNameRoundTrip(s: Scheme)
    ensures SchemeFromStr(SchemeName(s)) == Ok(s)
  {
  }

  predicate IsDigit(c: char) {
    '0' <= c <= '9'
  }

  predicate AllDigits(s: string) {
    forall i :: 0 <= i < |s| ==> IsDigit(s[i])
  }

  /** The value of a string of decimal digits, most significant first. */
  function DigitsValue(ds: string): nat
    requires AllDigits(ds)
    decreases |ds|
  {
    if ds == [] then 0
    else DigitsValue(ds[..|ds| - 1]) * 10 + (ds[|ds| - 1] as int - '0' as int)
  }

  /** The digits `u16::from_str` looks at: one leading '+' is skipped. */
  function Unsigned(s: string): string {
    if |s| > 0 && s[0] == '+' then s[1..] else s
  }

  /** `str::parse::<u16>().ok()`: an optional '+', then at least one ASCII
      digit and nothing else, and a value that fits in 16 bits (leading
      zeros are allowed). Every failure is `None`. */
  function ParseU16(s: string): Option<U16> {
    var ds := Unsigned(s);
    if |ds| > 0 && AllDigits(ds) && DigitsValue(ds) < 0x1_0000 then Some(DigitsValue(ds)) else None
  }

  /** Decimal rendering without leading zeros, as `{}` formats an integer. */
  function Decimal(n: nat): (r: string)
    ensures |r| > 0 && AllDigits(r)
    decreases n
  {
    var d := ['0' + ((n % 10) as char)];
    if n < 10 then d else Decimal(n / 10) + d
  }

  lemma {:induction false} DecimalValue(n: nat)
    ensures DigitsValue(Decimal(n)) == n
    decreases n
  {
    var r := Decimal(n);
    if n >= 10 {
      DecimalValue(n / 10);
      assert r[..|r| - 1] == Decimal(n / 10);
    }
  }

  /** Every 16-bit number, written in decimal with or without a '+', parses
      back to itself. */
  lemma ParseU16Decimal(n: U16)
    ensures ParseU16(Decimal(n)) == Some(n)
    ensures ParseU16("+" + Decimal(n)) == Some(n)
  {
    DecimalValue(n);
    assert Unsigned("+" + Decimal(n)) == Decimal(n);
  }

  /** `z` zero digits. */
  function Zeros(z: nat): (r: string)
    ensures |r| == z && AllDigits(r)
  {
    seq(z, _ => '0')
  }

  /** Leading zeros do not change the value of a digit string. */
  lemma {:induction false} ZerosValue(z: nat, d: string)
    requires AllDigits(d)
    ensures AllDigits(Zeros(z) + d) && DigitsValue(Zeros(z) + d) == DigitsValue(d)
    decreases z + |d|
  {
    var s := Zeros(z) + d;
    if d != [] {
      ZerosValue(z, d[..|d| - 1]);
      assert s[..|s| - 1] == Zeros(z) + d[..|d| - 1];
    } else if z > 0 {
      ZerosValue(z - 1, d);
      assert s[..|s| - 1] == Zeros(z - 1) + d;
    }
  }

  /** A digit string without a leading zero (or the single digit "0") is
      the decimal rendering of its own value. */
  lemma {:induction false} CanonicalDigits(ds: string)
    requires |ds| > 0 && AllDigits(ds) && (ds[0] != '0' || |ds| == 1)
    ensures Decimal(DigitsValue(ds)) == ds
    decreases |ds|
  {
    var v := DigitsValue(ds);
    var c := ds[|ds| - 1];
    var p := ds[..|ds| - 1];
    if |ds| > 1 {
      CanonicalDigits(p);
      assert Decimal(0) == "0";
      assert v / 10 == DigitsValue(p) && v % 10 == c as int - '0' as int;
      assert Decimal(v) == Decimal(v / 10) + ['0' + ((v % 10) as char)];
      assert ds == p + [c];
    } else {
      assert p == [];
    }
  }

  /** Every digit string is some leading zeros followed by the decimal
      rendering of its value. */
  lemma {:induction false} DigitsSplit(ds: string) returns (z: nat)
    requires |ds| > 0 && AllDigits(ds)
    ensures ds == Zeros(z) + Decimal(DigitsValue(ds))
    decreases |ds|
  {
    if ds[0] == '0' && |ds| > 1 {
      var rest := ds[1..];
      var z' := DigitsSplit(rest);
      var dec := Decimal(DigitsValue(rest));
      assert ds == "0" + rest;
      assert DigitsValue(ds) == DigitsValue(rest) by {
        ZerosValue(1, rest);
        assert Zeros(1) == "0";
      }
      ZerosPrepend(z', dec);
      z := z' + 1;
    } else {
      CanonicalDigits(ds);
      z := 0;
      assert Zeros(0) + ds == ds;
    }
  }

  lemma ZerosPrepend(z: nat, t: string)
    ensures "0" + (Zeros(z) + t) == Zeros(z + 1) + t
  {
    assert "0" + Zeros(z) == Zeros(z + 1);
  }

  /** The texts `u16::from_str` accepts as `n` are exactly: an optional '+',
      any number of zeros, and `n` written in decimal, for `n` below 65536.
      Everything else is rejected. */
  lemma ParseU16Accepts(s: string, n: nat)
    ensures (ParseU16(s).Some? && ParseU16(s).value == n)
            <==> n < 0x1_0000 && exists z: nat :: Unsigned(s) == Zeros(z) + Decimal(n)
  {
    var ds := Unsigned(s);
    if ParseU16(s).Some? && ParseU16(s).value == n {
      var z := DigitsSplit(ds);
      assert ds == Zeros(z) + Decimal(n);
    }
    if n < 0x1_0000 && exists z: nat :: ds == Zeros(z) + Decimal(n) {
      var z: nat :| ds == Zeros(z) + Decimal(n);
      ZerosValue(z, Decimal(n));
      DecimalValue(n);
    }
  }

  /** The authority runs to the first '/', the path is the rest, that '/'
      included; without a '/' the path is empty. */
  function AuthorityAndPath(rest: string): (r: (string, string))
    ensures rest == r.0 + r.1
    ensures '/' !in r.0
    ensures r.1 == [] || r.1[0] == '/'
  {
    var slash := match Find(rest, "/") case Some(i) => i case None => |rest|;
    assert rest[slash..] != [] ==> rest[slash] == '/' by {
      if slash < |rest| { assert OccursAt(rest, "/", slash); }
    }
    CharAbsentBefore(rest, '/', slash);
    assert rest == rest[..slash] + rest[slash..];
    (rest[..slash], rest[slash..])
  }

  /** The authority is cut at its first ':'; the port is the parsed suffix,
      and the host loses the suffix even when it does not parse. */
  function HostAndPort(authority: string): (r: (string, Option<U16>))
    ensures ':' !in r.0
    ensures ':' !in authority ==> r == (authority, None)
    ensures ':' in authority ==>
              |r.0| < |authority| && authority[..|r.0|] == r.0 && authority[|r.0|] == ':'
              && r.1 == ParseU16(authority[|r.0| + 1..])
  {
    match SplitOnce(authority, ":")
    case None =>
      CharAbsentBefore(authority, ':', |authority|);
      assert authority[..|authority|] == authority;
      (authority, None)
    case Some((host, port)) =>
      CharAbsentBefore(authority, ':', |host|);
      assert authority[..|host|] == host;
      assert authority[|host|] == ':' by { assert OccursAt(authority, ":", |host|); }
      assert authority[|host| + 1..] == port;
      (host, ParseU16(port))
  }

  /** `parse_url`, with its two panics as errors. The text after the first
      "://" is split into authority and path, and the authority into host
      and port, by the two functions above. */
  function ParseUrl(url: string): (r: Result<Url, UrlError>)
    ensures r == Err(MissingSchemeSeparator) <==> Free(url, "://")
    ensures r.Err? && r.error.UnknownScheme? ==>
              var k := |r.error.name|;
              OccursAt(url, "://", k) && (forall j: nat :: j < k ==> !OccursAt(url, "://", j))
              && url[..k] == r.error.name && r.error.name != "http" && r.error.name != "https"
    ensures r.Ok? ==>
              var u := r.value;
              var k := |SchemeName(u.scheme)|;
              OccursAt(url, "://", k) && (forall j: nat :: j < k ==> !OccursAt(url, "://", j))
              && url[..k] == SchemeName(u.scheme)
              && var (authority, path) := AuthorityAndPath(url[k + 3..]);
                 u.path == path && (u.host, u.port) == HostAndPort(authority)
  {
    match SplitOnce(url, "://")
    case None => Err(MissingSchemeSeparator)
    case Some((scheme, rest)) =>
      assert url[|scheme| + 3..] == rest;
      var (authority, path) := AuthorityAndPath(rest);
      var (host, port) := HostAndPort(authority);
      match SchemeFromStr(scheme)
      case Err(e) => Err(e)
      case Ok(s) => Ok(Url(s, host, port, path))
  }

  /** The URL text for a parsed URL: the port, when present, in decimal. */
  function FormatUrl(u: Url): string {
    SchemeName(u.scheme) + "://" + u.host + PortText(u.port) + u.path
  }

  /** What `parse_url` produces: a host without ':' or '/', and a path that
      is empty or starts with '/'. */
  predicate WellFormed(u: Url) {
    ':' !in u.host && '/' !in u.host && (u.path == [] || u.path[0] == '/')
  }

  lemma ParsedIsWellFormed(url: string)
    requires ParseUrl(url).Ok?
    ensures WellFormed(ParseUrl(url).value)
  {
    var u := ParseUrl(url).value;
    var k := |SchemeName(u.scheme)|;
    var (authority, path) := AuthorityAndPath(url[k + 3..]);
    assert (u.host, u.port) == HostAndPort(authority);
    if ':' in authority {
      PrefixNotIn(authority, |u.host|, '/');
    }
  }

  lemma PrefixNotIn(s: string, n: nat, c: char)
    requires n <= |s| && c !in s
    ensures c !in s[..n]
  {
    assert forall i :: 0 <= i < n ==> s[..n][i] == s[i];
  }

  lemma SplitOnceAtFirst(name: string, rest: string)
    requires ':' !in name
    ensures SplitOnce(name + "://" + rest, "://") == Some((name, rest))
  {
    var s := name + "://" + rest;
    assert OccursAt(s, "://", |name|);
    var r := SplitOnce(s, "://");
    var j := |r.value.0|;
    assert s[j..j + 3] == "://";
    assert s[j] == ':';
    assert forall i :: 0 <= i < |name| ==> s[i] == name[i];
    assert s[..|name|] == name;
  }

  lemma AuthorityAndPathUnique(a: string, p: string)
    requires '/' !in a && (p == [] || p[0] == '/')
    ensures AuthorityAndPath(a + p) == (a, p)
  {
    var r := AuthorityAndPath(a + p);
    assert forall i :: 0 <= i < |a| ==> (a + p)[i] == a[i];
    assert forall i :: 0 <= i < |r.0| ==> (a + p)[i] == r.0[i];
    assert r.1 != [] ==> r.1[0] == (a + p)[|r.0|];
    assert p != [] ==> p[0] == (a + p)[|a|];
    assert r.0 == (a + p)[..|r.0|];
  }

  lemma HostAndPortWithColon(host: string, text: string)
    requires ':' !in host
    ensures HostAndPort(host + ":" + text) == (host, ParseU16(text))
  {
    var a := host + ":" + text;
    assert a[|host|] == ':';
    var r := HostAndPort(a);
    assert forall i :: 0 <= i < |host| ==> a[i] == host[i];
    assert forall i :: 0 <= i < |r.0| ==> a[i] == r.0[i];
    assert r.0 == host;
    assert a[|host| + 1..] == text;
  }

  /** `parse_url` once the scheme separator has been found. */
  lemma ParseUrlAfterScheme(name: string, rest: string)
    requires ':' !in name
    ensures var (authority, path) := AuthorityAndPath(rest);
            var (host, port) := HostAndPort(authority);
            ParseUrl(name + "://" + rest)
              == match SchemeFromStr(name)
                 case Ok(s) => Ok(Url(s, host, port, path))
                 case Err(e) => Err(e)
  {
    SplitOnceAtFirst(name, rest);
  }

  function PortText(port: Option<U16>): (r: string)
    ensures '/' !in r
  {
    match port
    case None => ""
    case Some(p) =>
      var d := Decimal(p);
      assert forall i :: 0 <= i < |d| ==> IsDigit(d[i]);
      ":" + d
  }

  lemma HostAndPortText(host: string, port: Option<U16>)
    requires ':' !in host
    ensures HostAndPort(host + PortText(port)) == (host, port)
  {
    match port
    case None =>
      assert host + PortText(port) == host;
    case Some(p) =>
      assert host + PortText(port) == host + ":" + Decimal(p);
      HostAndPortWithColon(host, Decimal(p));
      ParseU16Decimal(p);
  }

  /** Round trip: a well-formed URL, written out, parses back to itself. */
  lemma ParseFormatUrl(u: Url)
    requires WellFormed(u)
    ensures ParseUrl(FormatUrl(u)) == Ok(u)
  {
    var name := SchemeName(u.scheme);
    var authority := u.host + PortText(u.port);
    assert FormatUrl(u) == name + "://" + (authority + u.path);
    assert '/' !in authority;
    AuthorityAndPathUnique(authority, u.path);
    HostAndPortText(u.host, u.port);
    SchemeNameRoundTrip(u.scheme);
    ParseUrlParts(name, authority, u.path, u);
  }

  lemma ParseUrlParts(name: string, authority: string, path: string, u: Url)
    requires ':' !in name && SchemeFromStr(name) == Ok(u.scheme)
    requires AuthorityAndPath(authority + path) == (authority, path) && path == u.path
    requires HostAndPort(authority) == (u.host, u.port)
    ensures ParseUrl(name + "://" + (authority + path)) == Ok(u)
  {
    ParseUrlAfterScheme(name, authority + path);
  }

  /** `parse_url` on `name://host:port-text/path`: the port text is parsed
      on its own, and the host keeps only what precedes the ':'. */
  lemma ParseUrlWithColon(name: string, host: string, portText: string, path: string)
    requires ':' !in name && ':' !in host && '/' !in host && '/' !in portText
    requires path == [] || path[0] == '/'
    ensures ParseUrl(name + "://" + (host + ":" + portText + path))
            == match SchemeFromStr(name)
               case Ok(s) => Ok(Url(s, host, ParseU16(portText), path))
               case Err(e) => Err(e)
  {
    var authority := host + ":" + portText;
    assert '/' !in authority;
    assert host + ":" + portText + path == authority + path;
    ParseUrlAfterScheme(name, authority + path);
    AuthorityAndPathUnique(authority, path);
    HostAndPortWithColon(host, portText);
  }

  /** Example: explicit port and path. */
  lemma ParseUrlWithPort(url: string)
    requires url == "http://example.org:8080/index.html"
    ensures ParseUrl(url) == Ok(Url(Http, "example.org", Some(8080), "/index.html"))
  {
    WithPortText(url);
    ParseUrlWithColon("http", "example.org", "8080", "/index.html");
    PortExample("8080");
  }

  lemma WithPortText(url: string)
    requires url == "http://example.org:8080/index.html"
    ensures url == "http" + "://" + ("example.org" + ":" + "8080" + "/index.html")
  {
  }

  lemma PortExample(text: string)
    requires text == "8080"
    ensures ParseU16(text) == Some(8080)
  {
    assert Decimal(8080) == text;
    ParseU16Decimal(8080);
  }

  /** `parse_url` on `name://authority/path` when the authority has no
      ':': the whole authority is the host and there is no port. */
  lemma ParseUrlWithoutColon(name: string, authority: string, path: string)
    requires ':' !in name && ':' !in authority && '/' !in authority
    requires path == [] || path[0] == '/'
    ensures ParseUrl(name + "://" + (authority + path))
            == match SchemeFromStr(name)
               case Ok(s) => Ok(Url(s, authority, None, path))
               case Err(e) => Err(e)
  {
    ParseUrlAfterScheme(name, authority + path);
    AuthorityAndPathUnique(authority, path);
  }

  /** Example: no path at all; the path stays empty. */
  lemma ParseUrlWithoutPath(url: string)
    requires url == "https://example.org"
    ensures ParseUrl(url) == Ok(Url(Https, "example.org", None, ""))
  {
    assert url == "https" + "://" + ("example.org" + "");
    ParseUrlWithoutColon("https", "example.org", "");
  }

  /** Example: a port that does not parse is dropped, and so is the text
      after ':' in the host. */
  lemma ParseUrlBadPort(url: string)
    requires url == "http://h:x/"
    ensures ParseUrl(url) == Ok(Url(Http, "h", None, "/"))
  {
    assert url == "http" + "://" + ("h" + ":" + "x" + "/");
    ParseUrlWithColon("http", "h", "x", "/");
    assert !IsDigit('x');
  }

  /** Example: an unknown scheme. */
  lemma ParseUrlUnknownScheme()
    ensures ParseUrl("ftp://x/y") == Err(UnknownScheme("ftp"))
  {
    assert "ftp://x/y" == "ftp" + "://" + "x/y";
    ParseUrlAfterScheme("ftp", "x/y");
  }

  /** Example: no "://" at all. */
  lemma ParseUrlNoSeparator()
    ensures ParseUrl("noscheme") == Err(MissingSchemeSeparator)
  {
    var s := "noscheme";
    assert ':' !in s;
    forall j: nat | j <= |s| ensures !OccursAt(s, "://", j) {
      assert j + 3 <= |s| ==> s[j..j + 3][0] == s[j];
    }
  }
}
