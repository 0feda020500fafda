/**
 * The request checks of main.py: the request-model validators of
 * `ImageURLRequest`, `validate_image`, and the checks `download_image`
 * applies to a fetched response.
 */
module Validation {
  import opened Outcomes
  import opened Errors
  import opened Text
  import Config

  type byte = x: int | 0 <= x < 256
  type Bytes = seq<byte>

  // ----- ImageURLRequest.validate_url -----

  predicate HasWebScheme(v: string) {
    StartsWith(v, "http://") || StartsWith(v, "https://")
  }

  /** The characters `urlsplit` deletes before it parses anything. */
  const UnsafeUrlChars: set<char> := {'\t', '\r', '\n'}
  /** The characters that end the network location of a URL. */
  const NetlocEnd: set<char> := {'/', '?', '#'}
  /** The host names refused (after lower-casing) as local. */
  const BlockedHostnames: set<string> := {"localhost", "127.0.0.1", "::1", "0.0.0.0"}

  /** What `urlparse(v).hostname` gives: it raises, it is `None`, or it is a lower-cased name. */
  datatype HostParse = Unparsable | NoHost | Host(name: string)

  function AfterScheme(v: string): string
    requires HasWebScheme(v)
  {
    if StartsWith(v, "http://") then v[7..] else v[8..]
  }

  /** The network location: after `//`, up to the first `/`, `?` or `#`. */
  function Netloc(v: string): string
    requires HasWebScheme(v)
  {
    TakeUntil(Remove(AfterScheme(v), UnsafeUrlChars), NetlocEnd)
  }

  /** The host part of a network location: after the last `@`, inside brackets or before a port. */
  function HostPart(netloc: string): string {
    var hostinfo := AfterLast(netloc, '@');
    if '[' in hostinfo then TakeUntil(AfterFirst(hostinfo, '['), {']'})
    else TakeUntil(hostinfo, {':'})
  }

  /** Every character of the host part comes from the network location, after its last `@`. */
  lemma HostPartChars(netloc: string)
    ensures forall i :: 0 <= i < |HostPart(netloc)| ==> HostPart(netloc)[i] in netloc && HostPart(netloc)[i] != '@'
  {
    var hostinfo := AfterLast(netloc, '@');
    var host := HostPart(netloc);
    forall i | 0 <= i < |host|
      ensures host[i] in hostinfo
    {
      if '[' in hostinfo {
        var inner := AfterFirst(hostinfo, '[');
        assert hostinfo == TakeUntil(hostinfo, {'['}) + ['['] + inner;
        assert host[i] == inner[i];
        assert host[i] == hostinfo[|hostinfo| - |inner| + i];
      } else {
        assert host[i] == hostinfo[i];
      }
    }
    forall i | 0 <= i < |host|
      ensures host[i] in netloc && host[i] != '@'
    {
      var j :| 0 <= j < |hostinfo| && hostinfo[j] == host[i];
      assert netloc[|netloc| - |hostinfo| + j] == host[i];
    }
  }

  /** The lower-cased host holds no capital letter, no `@` and none of the characters that end a network location. */
  lemma LoweredHostChars(netloc: string)
    requires forall k :: 0 <= k < |netloc| ==> netloc[k] !in NetlocEnd
    ensures var name := Lower(HostPart(netloc));
      forall i :: 0 <= i < |name| ==> !('A' <= name[i] <= 'Z') && name[i] !in NetlocEnd && name[i] != '@'
  {
    var host := HostPart(netloc);
    var name := Lower(host);
    HostPartChars(netloc);
    forall i | 0 <= i < |name|
      ensures !('A' <= name[i] <= 'Z') && name[i] !in NetlocEnd && name[i] != '@'
    {
      var c := host[i];
      assert name[i] == LowerChar(c);
      assert c !in NetlocEnd && c != '@' by {
        var j :| 0 <= j < |netloc| && netloc[j] == c;
      }
    }
  }

  function ParseHostname(v: string): (r: HostParse)
    requires HasWebScheme(v)
    ensures r.Unparsable? <==> ('[' in Netloc(v)) != (']' in Netloc(v))
    ensures r.Host? ==> r.name != []
    ensures r.Host? ==> forall i :: 0 <= i < |r.name| ==> !('A' <= r.name[i] <= 'Z')
    ensures r.Host? ==> forall i :: 0 <= i < |r.name| ==> r.name[i] !in NetlocEnd && r.name[i] != '@'
  {
    var netloc := Netloc(v);
    LoweredHostChars(netloc);
    if ('[' in netloc) != (']' in netloc) then Unparsable
    else
      var host := HostPart(netloc);
      if host == [] then NoHost else Host(Lower(host))
  }

  /**
   * `validate_url`. The private-address test of the source raises inside a
   * `try` whose `except ValueError` swallows it, so it never rejects; a URL
   * the parser cannot read is accepted as well.
   */
  function ValidateUrl(v: string): (r: Result<string, UrlFault>)
    ensures r.Ok? ==> r.value == v
    ensures r == Err(BadScheme) <==> !HasWebScheme(v)
    ensures r == Err(LocalhostBlocked) <==>
      HasWebScheme(v) && ParseHostname(v).Host? && ParseHostname(v).name in BlockedHostnames
    ensures HasWebScheme(v) && !(ParseHostname(v).Host? && ParseHostname(v).name in BlockedHostnames) ==> r == Ok(v)
  {
    if !HasWebScheme(v) then Err(BadScheme)
    else
      match ParseHostname(v)
      case Host(name) => if name in BlockedHostnames then Err(LocalhostBlocked) else Ok(v)
      case _ => Ok(v)
  }

  /** Characters that may not occur in a host for `UrlHostDecides`: they would move the host boundary. */
  const HostDelimiters: set<char> := {'/', '?', '#', '@', ':', '[', ']', '\t', '\r', '\n'}

  /** Characters that may not occur inside the brackets of a bracketed host, nor in a port. */
  const BracketedHostDelimiters: set<char> := {'/', '?', '#', '@', '[', ']', '\t', '\r', '\n'}

  /** Characters that may not occur in user information for `UrlHostDecides`. */
  const UserInfoDelimiters: set<char> := {'/', '?', '#', '[', ']', '\t', '\r', '\n'}

  lemma {:induction false} TakeUntilStopsAt(a: string, b: string, stops: set<char>)
    requires forall i :: 0 <= i < |a| ==> a[i] !in stops
    requires b == [] || b[0] in stops
    ensures TakeUntil(a + b, stops) == a
    decreases |a|
  {
    if a == [] {
      assert a + b == b;
    } else {
      assert (a + b)[1..] == a[1..] + b;
      TakeUntilStopsAt(a[1..], b, stops);
    }
  }

  lemma {:induction false} AfterLastOfSeparated(a: string, b: string, c: char)
    requires forall i :: 0 <= i < |b| ==> b[i] != c
    requires a == [] || a[|a| - 1] == c
    ensures AfterLast(a + b, c) == b
    decreases |b|
  {
    if b == [] {
      assert a + b == a;
    } else {
      var s := a + b;
      var init := b[..|b| - 1];
      assert s[|s| - 1] == b[|b| - 1] != c;
      assert s[..|s| - 1] == a + init;
      AfterLastOfSeparated(a, init, c);
      assert AfterLast(s, c) == AfterLast(a + init, c) + [b[|b| - 1]];
      assert b == init + [b[|b| - 1]];
    }
  }

  /** The network location of `scheme + netloc + tail` is `netloc` when nothing in it ends it early. */
  lemma NetlocOf(scheme: string, netloc: string, tail: string)
    requires scheme == "http://" || scheme == "https://"
    requires forall i :: 0 <= i < |netloc| ==> netloc[i] !in NetlocEnd && netloc[i] !in UnsafeUrlChars
    requires tail == [] || tail[0] in NetlocEnd
    ensures HasWebScheme(scheme + netloc + tail)
    ensures Netloc(scheme + netloc + tail) == netloc
  {
    var v := scheme + netloc + tail;
    assert v == scheme + (netloc + tail);
    assert v[..|scheme|] == scheme;
    if scheme == "https://" {
      assert v[4] == 's';
      assert !StartsWith(v, "http://") by {
        assert "http://"[4] == ':';
      }
    }
    assert AfterScheme(v) == netloc + tail;
    assert Remove(netloc, UnsafeUrlChars) == netloc;
    RemoveAppend(netloc, tail, UnsafeUrlChars);
    var cleanTail := Remove(tail, UnsafeUrlChars);
    assert cleanTail == [] || cleanTail[0] in NetlocEnd;
    TakeUntilStopsAt(netloc, cleanTail, NetlocEnd);
  }

  /** Two strings free of the characters `bad` concatenate to one free of them. */
  lemma AvoidsConcat(a: string, b: string, bad: set<char>)
    requires forall i :: 0 <= i < |a| ==> a[i] !in bad
    requires forall i :: 0 <= i < |b| ==> b[i] !in bad
    ensures forall i :: 0 <= i < |a + b| ==> (a + b)[i] !in bad
  {
    forall i | 0 <= i < |a + b|
      ensures (a + b)[i] !in bad
    {
      if i < |a| {
        assert (a + b)[i] == a[i];
      } else {
        assert (a + b)[i] == b[i - |a|];
      }
    }
  }

  lemma PlainHostPart(user: string, host: string, port: string)
    requires user == [] || user[|user| - 1] == '@'
    requires forall i :: 0 <= i < |host| ==> host[i] !in HostDelimiters
    requires port == [] || port[0] == ':'
    requires forall i :: 0 <= i < |port| ==> port[i] !in BracketedHostDelimiters
    ensures HostPart(user + host + port) == host
  {
    var hostinfo := host + port;
    AvoidsConcat(host, port, {'@', '['});
    assert user + host + port == user + hostinfo;
    AfterLastOfSeparated(user, hostinfo, '@');
    TakeUntilStopsAt(host, port, {':'});
  }

  /** A bracketed host with its port holds no `@` and nothing that ends or is deleted from a network location. */
  lemma BracketedChars(host: string, port: string)
    requires forall i :: 0 <= i < |host| ==> host[i] !in BracketedHostDelimiters
    requires forall i :: 0 <= i < |port| ==> port[i] !in BracketedHostDelimiters
    ensures var b := "[" + host + "]" + port;
      forall i :: 0 <= i < |b| ==> b[i] != '@' && b[i] !in NetlocEnd + UnsafeUrlChars
  {
    var b := "[" + host + "]" + port;
    forall i | 0 <= i < |b|
      ensures b[i] != '@' && b[i] !in NetlocEnd + UnsafeUrlChars
    {
      if i == 0 {
        assert b[i] == '[';
      } else if i <= |host| {
        assert b[i] == host[i - 1];
      } else if i == |host| + 1 {
        assert b[i] == ']';
      } else {
        assert b[i] == port[i - |host| - 2];
      }
    }
  }

  lemma InsideBrackets(host: string, port: string)
    requires forall i :: 0 <= i < |host| ==> host[i] !in BracketedHostDelimiters
    ensures TakeUntil(AfterFirst("[" + host + "]" + port, '['), {']'}) == host
  {
    var inner := host + ("]" + port);
    var netloc := "[" + inner;
    assert netloc[0] == '[';
    assert TakeUntil(netloc, {'['}) == [];
    assert netloc[1..] == inner;
    assert "[" + host + "]" + port == netloc;
    TakeUntilStopsAt(host, "]" + port, {']'});
  }

  lemma BracketedHostPart(user: string, host: string, port: string)
    requires user == [] || user[|user| - 1] == '@'
    requires forall i :: 0 <= i < |host| ==> host[i] !in BracketedHostDelimiters
    requires forall i :: 0 <= i < |port| ==> port[i] !in BracketedHostDelimiters
    ensures HostPart(user + ("[" + host + "]" + port)) == host
  {
    var b := "[" + host + "]" + port;
    BracketedChars(host, port);
    AfterLastOfSeparated(user, b, '@');
    assert b[0] == '[';
    InsideBrackets(host, port);
  }

  /** A network location `user + [host]port` holds both brackets, nothing that ends it, and the host `host`. */
  lemma BracketedNetloc(user: string, host: string, port: string)
    requires user == [] || user[|user| - 1] == '@'
    requires forall i :: 0 <= i < |user| ==> user[i] !in UserInfoDelimiters
    requires forall i :: 0 <= i < |host| ==> host[i] !in BracketedHostDelimiters
    requires forall i :: 0 <= i < |port| ==> port[i] !in BracketedHostDelimiters
    ensures var netloc := user + ("[" + host + "]" + port);
      && (forall i :: 0 <= i < |netloc| ==> netloc[i] !in NetlocEnd && netloc[i] !in UnsafeUrlChars)
      && '[' in netloc && ']' in netloc
      && HostPart(netloc) == host
  {
    var b := "[" + host + "]" + port;
    var netloc := user + b;
    BracketedChars(host, port);
    assert forall i :: 0 <= i < |user| ==> user[i] !in NetlocEnd + UnsafeUrlChars;
    AvoidsConcat(user, b, NetlocEnd + UnsafeUrlChars);
    assert b[0] == '[' && b[|host| + 1] == ']';
    assert netloc[|user|] == b[0] && netloc[|user| + |host| + 1] == b[|host| + 1];
    BracketedHostPart(user, host, port);
  }

  /** Once the network location and its host part are known, so is the parsed hostname. */
  lemma ParsedHost(v: string, host: string)
    requires HasWebScheme(v)
    requires ('[' in Netloc(v)) == (']' in Netloc(v))
    requires HostPart(Netloc(v)) == host
    ensures ParseHostname(v) == if host == [] then NoHost else Host(Lower(host))
  {
  }

  /** No blocked name is empty. */
  lemma BlockedNamesNonEmpty()
    ensures "" !in BlockedHostnames
  {
    assert "localhost" != "" && "127.0.0.1" != "" && "::1" != "" && "0.0.0.0" != "";
  }

  /** Once the parsed hostname is known, so is the verdict. */
  lemma VerdictOfHost(v: string, host: string)
    requires HasWebScheme(v)
    requires ParseHostname(v) == if host == [] then NoHost else Host(Lower(host))
    ensures ValidateUrl(v).Ok? <==> Lower(host) !in BlockedHostnames
  {
    if host == [] {
      BlockedNamesNonEmpty();
      assert Lower(host) == "";
    }
  }

  /**
   * For every URL `scheme + user + host + port + tail` whose host is written
   * plainly, the parsed host is the lower-cased host (none when the host is
   * empty), whatever port follows it, and the validator's verdict depends on
   * the host alone: it is refused exactly when the lower-cased host is one of
   * the four local names. Private, link-local and cloud-metadata addresses,
   * and URLs without a host, are therefore accepted.
   */
  lemma UrlHostDecides(scheme: string, user: string, host: string, port: string, tail: string)
    requires scheme == "http://" || scheme == "https://"
    requires user == [] || user[|user| - 1] == '@'
    requires forall i :: 0 <= i < |user| ==> user[i] !in UserInfoDelimiters
    requires forall i :: 0 <= i < |host| ==> host[i] !in HostDelimiters
    requires port == [] || port[0] == ':'
    requires forall i :: 0 <= i < |port| ==> port[i] !in BracketedHostDelimiters
    requires tail == [] || tail[0] in NetlocEnd
    ensures HasWebScheme(scheme + user + host + port + tail)
    ensures ParseHostname(scheme + user + host + port + tail) == if host == [] then NoHost else Host(Lower(host))
    ensures ValidateUrl(scheme + user + host + port + tail).Ok? <==> Lower(host) !in BlockedHostnames
  {
    var netloc := user + host + port;
    forall i | 0 <= i < |netloc|
      ensures netloc[i] !in UserInfoDelimiters
    {
      if i < |user| {
        assert netloc[i] == user[i];
      } else if i < |user| + |host| {
        assert netloc[i] == host[i - |user|];
      } else {
        assert netloc[i] == port[i - |user| - |host|];
      }
    }
    var v := scheme + netloc + tail;
    assert scheme + user + host + port + tail == v;
    NetlocOf(scheme, netloc, tail);
    assert '[' !in netloc && ']' !in netloc;
    PlainHostPart(user, host, port);
    ParsedHost(v, host);
    VerdictOfHost(v, host);
  }

  /**
   * The same for a bracketed host (an IPv6 literal such as `[::1]`), after
   * any user information and with or without a port.
   */
  lemma BracketedHostDecides(scheme: string, user: string, host: string, port: string, tail: string)
    requires scheme == "http://" || scheme == "https://"
    requires user == [] || user[|user| - 1] == '@'
    requires forall i :: 0 <= i < |user| ==> user[i] !in UserInfoDelimiters
    requires forall i :: 0 <= i < |host| ==> host[i] !in BracketedHostDelimiters
    requires port == [] || port[0] == ':'
    requires forall i :: 0 <= i < |port| ==> port[i] !in BracketedHostDelimiters
    requires tail == [] || tail[0] in NetlocEnd
    ensures HasWebScheme(scheme + user + "[" + host + "]" + port + tail)
    ensures ParseHostname(scheme + user + "[" + host + "]" + port + tail) == if host == [] then NoHost else Host(Lower(host))
    ensures ValidateUrl(scheme + user + "[" + host + "]" + port + tail).Ok? <==> Lower(host) !in BlockedHostnames
  {
    var netloc := user + ("[" + host + "]" + port);
    var v := scheme + netloc + tail;
    assert scheme + user + "[" + host + "]" + port + tail == v;
    BracketedNetloc(user, host, port);
    NetlocOf(scheme, netloc, tail);
    ParsedHost(v, host);
    VerdictOfHost(v, host);
  }

  /** The scheme test is a case-sensitive prefix test. */
  lemma SchemeExamples()
    ensures ValidateUrl("ftp://example.com/a.png") == Err(BadScheme)
    ensures ValidateUrl("HTTP://example.com/a.png") == Err(BadScheme)
  {
    assert "ftp://example.com/a.png"[..7][0] != "http://"[0];
    assert "ftp://example.com/a.png"[..8][0] != "https://"[0];
    assert "HTTP://example.com/a.png"[..7][0] != "http://"[0];
    assert "HTTP://example.com/a.png"[..8][0] != "https://"[0];
  }

  /** The local literal hosts of the examples below: written plainly and local once lower-cased. */
  lemma LocalLiteralHosts(host: string)
    requires host in ["LOCALHOST", "LocalHost", "127.0.0.1", "0.0.0.0"]
    ensures forall i :: 0 <= i < |host| ==> host[i] !in HostDelimiters
    ensures Lower(host) in BlockedHostnames
  {
    if host == "LOCALHOST" || host == "LocalHost" {
      assert Lower(host) == "localhost";
    } else {
      assert Lower(host) == host;
    }
  }

  /** The other literal hosts of the examples below: written plainly and not local. */
  lemma RemoteLiteralHosts(host: string)
    requires host in ["10.0.0.1", "192.168.1.20", "169.254.169.254", "example.com"]
    ensures forall i :: 0 <= i < |host| ==> host[i] !in HostDelimiters
    ensures Lower(host) !in BlockedHostnames
  {
    assert Lower(host) == host;
  }

  /**
   * Local names are refused for either scheme and any path, whatever their
   * case, whatever user information precedes them and whether or not a port
   * follows them.
   */
  lemma LocalNamesRefused(scheme: string, user: string, host: string, port: string, tail: string)
    requires scheme == "http://" || scheme == "https://"
    requires user == "" || user == "admin@"
    requires host in ["LOCALHOST", "LocalHost", "127.0.0.1", "0.0.0.0"]
    requires port == "" || port == ":8080" || port == ":6379"
    requires tail == [] || tail[0] in NetlocEnd
    ensures ValidateUrl(scheme + user + host + port + tail) == Err(LocalhostBlocked)
  {
    LocalLiteralHosts(host);
    UrlHostDecides(scheme, user, host, port, tail);
  }

  /** The IPv6 loopback is refused in its bracketed form, after user information or not, with a port or not. */
  lemma BracketedLoopbackRefused(scheme: string, user: string, host: string, port: string, tail: string)
    requires scheme == "http://" || scheme == "https://"
    requires user == "" || user == "admin@"
    requires host == "::1"
    requires port == "" || port == ":80"
    requires tail == [] || tail[0] in NetlocEnd
    ensures ValidateUrl(scheme + user + "[" + host + "]" + port + tail) == Err(LocalhostBlocked)
  {
    assert forall i :: 0 <= i < |host| ==> host[i] !in BracketedHostDelimiters;
    assert Lower(host) == host;
    BracketedHostDecides(scheme, user, host, port, tail);
  }

  /** Private, link-local and cloud-metadata addresses pass unchanged, with or without a port: the private-address test never rejects. */
  lemma PrivateAddressesPass(scheme: string, user: string, host: string, port: string, tail: string)
    requires scheme == "http://" || scheme == "https://"
    requires user == "" || user == "admin@"
    requires host in ["10.0.0.1", "192.168.1.20", "169.254.169.254"]
    requires port == "" || port == ":8080"
    requires tail == [] || tail[0] in NetlocEnd
    ensures ValidateUrl(scheme + user + host + port + tail) == Ok(scheme + user + host + port + tail)
  {
    RemoteLiteralHosts(host);
    UrlHostDecides(scheme, user, host, port, tail);
  }

  /** A URL without a host, such as `http:///x` or `http://user@:80/`, has no hostname, so the local-name test is skipped. */
  lemma HostlessUrlPasses(scheme: string, user: string, host: string, port: string, tail: string)
    requires scheme == "http://" || scheme == "https://"
    requires user == "" || user == "user@"
    requires host == ""
    requires port == "" || port == ":80"
    requires tail == [] || tail[0] in NetlocEnd
    ensures HasWebScheme(scheme + user + host + port + tail)
    ensures ParseHostname(scheme + user + host + port + tail) == NoHost
    ensures ValidateUrl(scheme + user + host + port + tail) == Ok(scheme + user + host + port + tail)
  {
    UrlHostDecides(scheme, user, host, port, tail);
    BlockedNamesNonEmpty();
  }

  /** A local name written as user information does not make the URL local. */
  lemma UserInfoIsNotHost(scheme: string, user: string, host: string, port: string, tail: string)
    requires scheme == "http://" || scheme == "https://"
    requires user == "localhost@" && host == "example.com"
    requires port == "" || port == ":8080"
    requires tail == [] || tail[0] in NetlocEnd
    ensures ValidateUrl(scheme + user + host + port + tail).Ok?
  {
    RemoteLiteralHosts(host);
    UrlHostDecides(scheme, user, host, port, tail);
  }

  // ----- ImageURLRequest.validate_threshold and the request model -----

  /** `validate_threshold`: a preset name is kept exactly when it names a configured preset. */
  function ValidateThreshold(v: string): (r: Option<string>)
    ensures r.Some? <==> v == "strict" || v == "balanced" || v == "permissive"
    ensures r.Some? ==> r.value == v && r.value in Config.Thresholds
  {
    if v in Config.Thresholds then Some(v) else None
  }

  /** An `ImageURLRequest` that passed both validators. */
  datatype ImageUrlRequest = ImageUrlRequest(imageUrl: string, threshold: string)

  /**
   * Building the request model from a JSON body: both validators run and
   * every refusal is reported together, as a 422 answered by the framework
   * before the endpoint body runs.
   */
  function ParseImageUrlRequest(imageUrl: string, threshold: string): (r: Result<ImageUrlRequest, HttpError>)
    ensures r.Ok? <==> ValidateUrl(imageUrl).Ok? && ValidateThreshold(threshold).Some?
    ensures r.Ok? ==> r.value == ImageUrlRequest(imageUrl, threshold)
    ensures r.Err? ==> r.error.status == 422
    ensures r.Err? ==> r.error.reason == InvalidRequestBody(
      if ValidateUrl(imageUrl).Err? then Some(ValidateUrl(imageUrl).error) else None, ValidateThreshold(threshold).None?)
  {
    var url := ValidateUrl(imageUrl);
    var preset := ValidateThreshold(threshold);
    if url.Ok? && preset.Some? then Ok(ImageUrlRequest(url.value, preset.value))
    else Err(HttpError(422, InvalidRequestBody(if url.Err? then Some(url.error) else None, preset.None?)))
  }

  // ----- validate_image -----

  /** What the image library reports for a byte string it can open. */
  datatype Dims = Dims(width: nat, height: nat)

  predicate WithinDimensions(d: Dims) {
    d.width <= Config.MaxImageDimension && d.height <= Config.MaxImageDimension
  }

  /**
   * `validate_image`. `decoded` is what opening `image` yields (`None` when
   * it cannot be opened). The oversize-dimensions error is raised inside the
   * `try` and re-raised by its blanket handler as a 400.
   */
  function ValidateImage(image: Bytes, decoded: Option<Dims>): (r: Outcome<HttpError>)
    ensures r.Pass? <==> |image| <= Config.MaxImageSizeBytes && decoded.Some? && WithinDimensions(decoded.value)
    ensures r.Fail? ==> r.error.status == 400 || r.error.status == 413
    ensures r.Fail? && r.error.status == 413 <==> |image| > Config.MaxImageSizeBytes
    ensures |image| > Config.MaxImageSizeBytes ==> r == Fail(HttpError(413, ImageTooLarge(|image|)))
    ensures |image| <= Config.MaxImageSizeBytes && decoded.None? ==> r == Fail(HttpError(400, InvalidImage(Undecodable)))
  {
    if |image| > Config.MaxImageSizeBytes then Fail(HttpError(413, ImageTooLarge(|image|)))
    else match decoded
      case None => Fail(HttpError(400, InvalidImage(Undecodable)))
      case Some(d) =>
        if !WithinDimensions(d) then Fail(HttpError(400, InvalidImage(DimensionsTooLarge(d.width, d.height))))
        else Pass
  }

  // ----- the response checks of download_image -----

  /** How the single HTTP GET of `download_image` ended. */
  datatype FetchOutcome =
    | FetchTimeout                                              // `requests.exceptions.Timeout`
    | FetchError                                                // any other `RequestException`
    | Fetched(statusCode: int, contentType: Option<string>, body: Bytes)

  /** The content-type fragments `download_image` accepts (no `image/bmp`). */
  const DownloadContentTypes: seq<string> := ["image/jpeg", "image/jpg", "image/png", "image/gif", "image/webp"]

  /** The header contains one of the accepted fragments anywhere in it. */
  predicate AcceptedContentType(contentType: string) {
    exists i :: 0 <= i < |DownloadContentTypes| && Contains(contentType, DownloadContentTypes[i])
  }

  /** `raise_for_status` raises for client and server error codes. */
  predicate IsHttpError(statusCode: int) {
    400 <= statusCode < 600
  }

  /**
   * `download_image` after the request: a timeout is a 408, every other
   * failure a 400 (including an oversized body); the body is returned
   * unchanged otherwise. The content type is checked before the size.
   */
  function DownloadImage(fetch: FetchOutcome): (r: Result<Bytes, HttpError>)
    ensures r.Ok? <==>
      && fetch.Fetched? && !IsHttpError(fetch.statusCode)
      && AcceptedContentType(fetch.contentType.GetOr("")) && |fetch.body| <= Config.MaxImageSizeBytes
    ensures r.Ok? ==> r.value == fetch.body
    ensures r.Err? ==> (r.error.status == 408 <==> fetch.FetchTimeout?)
    ensures r.Err? ==> r.error.status == 408 || r.error.status == 400
    ensures fetch.Fetched? && !IsHttpError(fetch.statusCode) && !AcceptedContentType(fetch.contentType.GetOr("")) ==>
      r == Err(HttpError(400, InvalidContentType(fetch.contentType.GetOr(""))))
  {
    match fetch
    case FetchTimeout => Err(HttpError(408, DownloadTimeout))
    case FetchError => Err(HttpError(400, DownloadFailed))
    case Fetched(code, header, body) =>
      if IsHttpError(code) then Err(HttpError(400, DownloadFailed))
      else
        var contentType := header.GetOr("");
        if !AcceptedContentType(contentType) then Err(HttpError(400, InvalidContentType(contentType)))
        else if |body| > Config.MaxImageSizeBytes then Err(HttpError(400, DownloadTooLarge(|body|)))
        else Ok(body)
  }

  /**
   * A BMP is listed among the configured image types, yet a download served
   * as `image/bmp` is refused, while a header that merely mentions an accepted
   * type among other text passes.
   */
  lemma ContentTypeExamples(bmp: string, png: string, missing: Option<string>)
    requires bmp == "image/bmp" && png == "text/plain; image/png" && missing == None
    ensures bmp in Config.AllowedImageTypes && !AcceptedContentType(bmp)
    ensures AcceptedContentType(png)
    ensures !AcceptedContentType(missing.GetOr(""))
  {
    assert png[12..12 + |DownloadContentTypes[2]|] == DownloadContentTypes[2];
    ContainsOffset(png, DownloadContentTypes[2], 12);
    forall i | 0 <= i < |DownloadContentTypes|
      ensures !Contains(bmp, DownloadContentTypes[i])
    {
      var t := DownloadContentTypes[i];
      if |t| <= |bmp| {
        assert bmp[..|t|] != t by {
          assert bmp[6] != t[6];
        }
        assert !Contains(bmp[1..], t);
      }
    }
  }
}
