/**
 * The `ss://` URL classifier and the parser of Android-style links of the
 * server tester. The URL arrives already split by `urlparse` and
 * `parse_qs`: the username, the values of the `plugin` query parameter in
 * order, the host name, the port and the fragment. Of `urlparse` itself the
 * model keeps what decides the username: the network location and its
 * userinfo. The parser checks the
 * plugin, decodes the userinfo and checks the port, in that order, and
 * fails with the first check that does not pass.
 */
module SsTester {
  import opened Wrappers
  import opened Text
  import Base64
  import SsLinks
  import Percent

  /**
   * What reading `port` of a parsed URL gives: None when the URL has no
   * port, the number, or a ValueError when the port text is not an integer
   * in 0-65535.
   */
  datatype PortRead = NoPort | Port(number: int) | BadPort

  /** The parts of a parsed URL the parser reads; no `plugin` parameter is an empty list. */
  datatype UrlParts = UrlParts(
    username: Option<string>, pluginValues: seq<string>,
    hostname: Option<string>, port: PortRead, fragment: string)

  // ------------------------------------------------------------ urlparse

  /** The characters that end the network location after "//". */
  predicate EndsNetloc(c: char)
  {
    c == '/' || c == '?' || c == '#'
  }

  /** The network location: the text up to the first "/", "?" or "#". */
  function Netloc(rest: string): (n: string)
    ensures forall i :: 0 <= i < |n| ==> !EndsNetloc(n[i])
    decreases |rest|
  {
    if rest == [] || EndsNetloc(rest[0]) then [] else [rest[0]] + Netloc(rest[1..])
  }

  /** The network location is the longest prefix holding no "/", "?" or "#". */
  lemma {:induction false} NetlocPrefix(rest: string)
    ensures var n := Netloc(rest);
      && |n| <= |rest| && n == rest[..|n|]
      && (|n| < |rest| ==> EndsNetloc(rest[|n|]))
    decreases |rest|
  {
    if rest != [] && !EndsNetloc(rest[0]) {
      NetlocPrefix(rest[1..]);
    }
  }

  /** The text before the last c, as `rpartition` splits it. */
  function BeforeLast(s: string, c: char): string
    requires c in s
    decreases |s|
  {
    if s[|s| - 1] == c then s[..|s| - 1] else BeforeLast(s[..|s| - 1], c)
  }

  /**
   * `urlparse(url).username` for an `ss://` URL: the userinfo before the
   * last "@" of the network location, cut at its first ":", or None when
   * the network location has no "@".
   */
  function Username(url: string): Option<string>
    requires StartsWith(url, "ss://")
  {
    var n := Netloc(url[5..]);
    if '@' !in n then None
    else
      var info := BeforeLast(n, '@');
      if ':' in info then Some(SplitOnce(info, ':').value.0) else Some(info)
  }

  /** Text that can stand in a network location without ending it or adding an "@". */
  predicate NetlocSafe(s: string)
  {
    forall i :: 0 <= i < |s| ==> !EndsNetloc(s[i]) && s[i] != '@'
  }

  lemma {:induction false} NetlocAfter(a: string, b: string)
    requires forall i :: 0 <= i < |a| ==> !EndsNetloc(a[i])
    ensures Netloc(a + b) == a + Netloc(b)
    decreases |a|
  {
    if a == [] {
      assert a + b == b;
    } else {
      assert (a + b)[0] == a[0] && (a + b)[1..] == a[1..] + b;
      NetlocAfter(a[1..], b);
      assert [a[0]] + (a[1..] + Netloc(b)) == a + Netloc(b);
    }
  }

  lemma {:induction false} BeforeLastSkips(s: string, c: char, t: string)
    requires c !in t
    ensures c in s + [c] + t && BeforeLast(s + [c] + t, c) == s
    decreases |t|
  {
    var x := s + [c] + t;
    assert x[|s|] == c;
    if t == [] {
      assert x[..|x| - 1] == s;
    } else {
      assert x[..|x| - 1] == s + [c] + t[..|t| - 1];
      BeforeLastSkips(s, c, t[..|t| - 1]);
    }
  }

  /**
   * The username of "ss://" info "@" host "?" query is info, when info has
   * no ":" and neither part ends the network location or holds an "@".
   */
  lemma LinkUsername(info: string, host: string, query: string, url: string)
    requires NetlocSafe(info) && ':' !in info && NetlocSafe(host)
    requires StartsWith(url, "ss://") && url[5..] == info + ("@" + host + "?" + query)
    ensures Username(url) == Some(info)
  {
    var rest := info + "@" + host;
    assert url[5..] == rest + ("?" + query);
    assert forall i :: 0 <= i < |rest| ==> !EndsNetloc(rest[i]) by {
      forall i | 0 <= i < |rest|
        ensures !EndsNetloc(rest[i])
      {
        if i < |info| {
          assert rest[i] == info[i];
        } else if i > |info| {
          assert rest[i] == host[i - |info| - 1];
        }
      }
    }
    NetlocAfter(rest, "?" + query);
    assert Netloc("?" + query) == [];
    assert rest + [] == rest;
    assert '@' !in host by {
      forall i | 0 <= i < |host|
        ensures host[i] != '@'
      {
      }
    }
    BeforeLastSkips(info, '@', host);
  }

  datatype UrlType = Android | Other

  /** `detect_url_type(parsed_url)`. */
  function DetectUrlType(u: UrlParts): (t: UrlType)
    ensures t == Android <==> u.username.Some?
    ensures t == Other <==> u.username.None?
  {
    if u.username.Some? then Android else Other
  }

  /** The checks whose failure raises `SsUrlParseError`. */
  datatype ParseReason =
    | NoPlugin                          // no `plugin` query parameter
    | InvalidPluginOptions(value: string) // a plugin value without ";"
    | UnknownPlugin(plugin: string)     // a plugin other than v2ray-plugin
    | NoRemotePort                      // no port in the URL

  /** What the parser raises that is not `SsUrlParseError`. */
  datatype ValueCause =
    | BadBase64(error: Base64.DecodeError) // binascii.Error or the ASCII check of the decoder
    | BadUtf8                              // UnicodeDecodeError
    | NoSeparator                          // the unpacking of `split(':', 1)`
    | InvalidPort                          // reading `port` of a URL whose port text is not a valid port

  datatype ParseFailure =
    | SsUrlParseError(reason: ParseReason)
    | TypeError             // `None + '=='`: a URL without a username
    | ValueError(cause: ValueCause)

  /** The message text of each `SsUrlParseError`. */
  function Message(r: ParseReason): string
  {
    match r
    case NoPlugin => "No plugin value in query string"
    case InvalidPluginOptions(v) => "Invalid plugin options: " + v
    case UnknownPlugin(p) => "Unknown plugin: " + p
    case NoRemotePort => "No remote port in url"
  }

  /** The dictionary the parser returns; `cipher` is its `method` entry. */
  datatype SsConfig = SsConfig(
    name: Option<string>, title: Option<string>,
    remoteAddr: Option<string>, remotePort: int,
    cipher: string, password: string, plugin: string, pluginOpts: string)

  const V2rayPlugin: string := "v2ray-plugin"

  /** How an f-string writes an optional host name. */
  function HostText(h: Option<string>): string
  {
    if h.Some? then h.value else "None"
  }

  /** The userinfo decoded with "==" appended, as UTF-8, split at its first ":". */
  function Credentials(username: string): Result<(string, string), ParseFailure>
  {
    match Base64.UrlsafeDecode(username + "==")
    case Err(e) => Err(ValueError(BadBase64(e)))
    case Ok(bs) =>
      match Utf8Decode(bs)
      case None => Err(ValueError(BadUtf8))
      case Some(params) =>
        match SplitOnce(params, ':')
        case None => Err(ValueError(NoSeparator))
        case Some((m, p)) => Ok((m, p))
  }

  /** `get_config_from_android_url(parsed_url)`. */
  function GetConfigFromAndroidUrl(u: UrlParts): Result<SsConfig, ParseFailure>
  {
    if u.pluginValues == [] then Err(SsUrlParseError(NoPlugin))
    else
      var pc := u.pluginValues[0];
      match SplitOnce(pc, ';')
      case None => Err(SsUrlParseError(InvalidPluginOptions(pc)))
      case Some((plugin, opts)) =>
        if plugin != V2rayPlugin then Err(SsUrlParseError(UnknownPlugin(plugin)))
        else if u.username.None? then Err(TypeError)
        else
          match Credentials(u.username.value)
          case Err(e) => Err(e)
          case Ok((m, p)) =>
            if u.port.BadPort? then Err(ValueError(InvalidPort))
            else if u.port.NoPort? then Err(SsUrlParseError(NoRemotePort))
            else
              var name := if u.fragment != [] then Some(u.fragment) else u.hostname;
              var title := if u.fragment != [] then Some(HostText(u.hostname) + " (" + u.fragment + ")") else u.hostname;
              Ok(SsConfig(name, title, u.hostname, u.port.number, m, p, plugin, opts))
  }

  /** The plugin checks in order: a value is present, it has ";", and its plugin is v2ray-plugin. */
  lemma PluginChecks(u: UrlParts)
    ensures GetConfigFromAndroidUrl(u) == Err(SsUrlParseError(NoPlugin)) <==> u.pluginValues == []
    ensures u.pluginValues != [] && ';' !in u.pluginValues[0] ==>
      GetConfigFromAndroidUrl(u) == Err(SsUrlParseError(InvalidPluginOptions(u.pluginValues[0])))
    ensures (exists v :: GetConfigFromAndroidUrl(u) == Err(SsUrlParseError(InvalidPluginOptions(v)))) <==>
      u.pluginValues != [] && ';' !in u.pluginValues[0]
    ensures (exists p :: GetConfigFromAndroidUrl(u) == Err(SsUrlParseError(UnknownPlugin(p)))) <==>
      u.pluginValues != [] && ';' in u.pluginValues[0] &&
      SplitOnce(u.pluginValues[0], ';').value.0 != V2rayPlugin
  {
  }

  /**
   * Only the first `plugin` value is read: the plugin is the text before its
   * first ";" and the options everything after it.
   */
  lemma FirstPluginValue(u: UrlParts, plugin: string, opts: string, more: seq<string>)
    requires u.pluginValues == [plugin + ";" + opts] + more && ';' !in plugin
    ensures GetConfigFromAndroidUrl(u) == GetConfigFromAndroidUrl(u.(pluginValues := [plugin + ";" + opts]))
    ensures GetConfigFromAndroidUrl(u).Ok? ==>
      GetConfigFromAndroidUrl(u).value.plugin == plugin && GetConfigFromAndroidUrl(u).value.pluginOpts == opts
  {
    SplitOnceJoin(plugin, ';', opts);
  }

  /**
   * A URL without a username passes the plugin checks and then fails with a
   * TypeError, and a userinfo that does not decode or has no ":" fails with a
   * ValueError: neither is an `SsUrlParseError`, so the caller that catches
   * only that exception lets them through.
   */
  lemma UserinfoFailures(u: UrlParts)
    requires u.pluginValues != [] && ';' in u.pluginValues[0]
    requires SplitOnce(u.pluginValues[0], ';').value.0 == V2rayPlugin
    ensures u.username.None? ==> GetConfigFromAndroidUrl(u) == Err(TypeError)
    ensures u.username.Some? && Credentials(u.username.value).Err? ==>
      GetConfigFromAndroidUrl(u) == Err(Credentials(u.username.value).error)
      && GetConfigFromAndroidUrl(u).error.ValueError?
  {
  }

  /**
   * The port is checked last: a missing port is reported, and a port text
   * that is not a valid port raises ValueError (not `SsUrlParseError`), only
   * when everything before it passed.
   */
  lemma PortCheckedLast(u: UrlParts)
    ensures GetConfigFromAndroidUrl(u) == Err(SsUrlParseError(NoRemotePort)) <==>
      && u.pluginValues != [] && ';' in u.pluginValues[0]
      && SplitOnce(u.pluginValues[0], ';').value.0 == V2rayPlugin
      && u.username.Some? && Credentials(u.username.value).Ok?
      && u.port.NoPort?
    ensures GetConfigFromAndroidUrl(u) == Err(ValueError(InvalidPort)) <==>
      && u.pluginValues != [] && ';' in u.pluginValues[0]
      && SplitOnce(u.pluginValues[0], ';').value.0 == V2rayPlugin
      && u.username.Some? && Credentials(u.username.value).Ok?
      && u.port.BadPort?
  {
  }

  /**
   * A parse succeeds exactly when every check passes, and then the entries
   * come from the parts: a non-empty fragment names the server and is added
   * to the title after the host name; otherwise both are the host name.
   */
  lemma ConfigEntries(u: UrlParts)
    ensures GetConfigFromAndroidUrl(u).Ok? <==>
      && u.pluginValues != [] && ';' in u.pluginValues[0]
      && SplitOnce(u.pluginValues[0], ';').value.0 == V2rayPlugin
      && u.username.Some? && Credentials(u.username.value).Ok?
      && u.port.Port?
    ensures GetConfigFromAndroidUrl(u).Ok? ==>
      var c := GetConfigFromAndroidUrl(u).value;
      && c.remoteAddr == u.hostname && c.remotePort == u.port.number
      && u.pluginValues[0] == c.plugin + ";" + c.pluginOpts && ';' !in c.plugin
      && (u.fragment != [] ==> c.name == Some(u.fragment) && c.title == Some(HostText(u.hostname) + " (" + u.fragment + ")"))
      && (u.fragment == [] ==> c.name == u.hostname && c.title == u.hostname)
      && (c.cipher, c.password) == Credentials(u.username.value).value
  {
  }

  /**
   * The credentials are the decoded text split at its first ":": the
   * cipher holds no ":", the password may.
   */
  lemma CredentialsSplit(username: string)
    requires Credentials(username).Ok?
    ensures var (m, p) := Credentials(username).value;
      exists bs :: Base64.UrlsafeDecode(username + "==") == Ok(bs) && Utf8Decode(bs) == Some(m + ":" + p) && ':' !in m
  {
  }

  /** The parts of a link around its userinfo, split as `LinkUsername` reads them. */
  lemma LinkParts(u: string, c: SsLinks.ServerConfig)
    requires NetlocSafe(u) && ':' !in u && NetlocSafe(SsLinks.HostPort(c))
    ensures Username(SsLinks.LinkAround(u, c)) == Some(u)
  {
    LinkUsername(u, SsLinks.HostPort(c), SsLinks.PluginQuery(c), SsLinks.LinkAround(u, c));
  }

  /** The userinfo decoded and split: the cipher before the first ":", the password after it. */
  lemma CredentialsOf(c: SsLinks.ServerConfig, username: string)
    requires IsAscii(SsLinks.Userinfo(c)) && ':' !in c.cipher
    requires Base64.UrlsafeDecode(username + "==") == Ok(AsciiBytes(SsLinks.Userinfo(c)))
    ensures Credentials(username) == Ok((c.cipher, c.password))
  {
    var info := SsLinks.Userinfo(c);
    Utf8DecodeAscii(AsciiBytes(info));
    AsciiCharsBytes(info);
    SplitOnceJoin(c.cipher, ':', c.password);
  }

  /** Standard base64 text holds none of "@", "?", "#" and ":". */
  lemma UnpaddedDelimiters(bs: seq<byte>)
    ensures var name := Base64.Unpadded(bs);
      forall i :: 0 <= i < |name| ==> name[i] != '@' && name[i] != '?' && name[i] != '#' && name[i] != ':'
  {
    var name := Base64.Unpadded(bs);
    Base64.UnpaddedShape(bs);
    forall i | 0 <= i < |name|
      ensures name[i] != '@' && name[i] != '?' && name[i] != '#' && name[i] != ':'
    {
      assert name[i] == Base64.SymbolFor(Base64.Sextets(bs)[i]);
    }
  }

  /** When every step passes, the parser returns the plugin, options and credentials it read. */
  lemma ParsesParts(u: UrlParts, plugin: string, opts: string, cipher: string, password: string)
    requires u.pluginValues != [] && SplitOnce(u.pluginValues[0], ';') == Some((plugin, opts))
    requires plugin == V2rayPlugin
    requires u.username.Some? && Credentials(u.username.value) == Ok((cipher, password))
    requires u.port.Port?
    ensures GetConfigFromAndroidUrl(u).Ok?
    ensures var r := GetConfigFromAndroidUrl(u).value;
      r.cipher == cipher && r.password == password && r.plugin == plugin && r.pluginOpts == opts
  {
  }

  /**
   * A URL whose username decodes to the userinfo of c, with the plugin
   * parameter and a port, is classified Android and parsed back to c's
   * credentials and plugin options.
   */
  lemma ParsesUserinfo(c: SsLinks.ServerConfig, u: UrlParts, name: string)
    requires IsAscii(SsLinks.Userinfo(c)) && ':' !in c.cipher
    requires c.plugin == V2rayPlugin
    requires u.username == Some(name)
    requires Base64.UrlsafeDecode(name + "==") == Ok(AsciiBytes(SsLinks.Userinfo(c)))
    requires u.pluginValues == [c.plugin + ";" + c.pluginOpts]
    requires u.port.Port?
    ensures DetectUrlType(u) == Android
    ensures GetConfigFromAndroidUrl(u).Ok?
    ensures var r := GetConfigFromAndroidUrl(u).value;
      r.cipher == c.cipher && r.password == c.password && r.plugin == c.plugin && r.pluginOpts == c.pluginOpts
  {
    CredentialsOf(c, name);
    SplitOnceJoin(c.plugin, ';', c.pluginOpts);
    ParsesParts(u, c.plugin, c.pluginOpts, c.cipher, c.password);
  }

  /**
   * The parser reads back the credentials and plugin options of a link built
   * by the Android builder when the standard base64 of the userinfo has no
   * "/" and the server and port hold none of "/", "?", "#" and "@": the
   * username `urlparse` finds is the unpadded userinfo, the classifier calls
   * the link Android, and the decoded text splits into the cipher and the
   * password. The plugin values are the percent-decoded query parameter. A
   * cipher containing ":" would be split there instead.
   */
  lemma ReadsAndroidLink(c: SsLinks.ServerConfig, u: UrlParts)
    requires IsAscii(SsLinks.Userinfo(c)) && ':' !in c.cipher
    requires c.plugin == V2rayPlugin
    requires '/' !in Base64.Unpadded(AsciiBytes(SsLinks.Userinfo(c)))
    requires NetlocSafe(SsLinks.HostPort(c))
    requires u.username == Username(SsLinks.AndroidLink(c).value)
    requires u.pluginValues == [c.plugin + ";" + c.pluginOpts]
    requires u.port.Port?
    ensures u.username == Some(Base64.Unpadded(AsciiBytes(SsLinks.Userinfo(c))))
    ensures DetectUrlType(u) == Android
    ensures GetConfigFromAndroidUrl(u).Ok?
    ensures var r := GetConfigFromAndroidUrl(u).value;
      r.cipher == c.cipher && r.password == c.password && r.plugin == c.plugin && r.pluginOpts == c.pluginOpts
  {
    var bs := AsciiBytes(SsLinks.Userinfo(c));
    var name := Base64.Unpadded(bs);
    UnpaddedDelimiters(bs);
    LinkParts(name, c);
    Base64.DecodeUnpaddedPlusTwo(bs);
    ParsesUserinfo(c, u, name);
  }

  /**
   * The same read-back for the link with a URL-safe userinfo: no condition
   * on the credentials is needed, as that alphabet has no "/".
   */
  lemma ReadsUrlsafeAndroidLink(c: SsLinks.ServerConfig, u: UrlParts)
    requires IsAscii(SsLinks.Userinfo(c)) && ':' !in c.cipher
    requires c.plugin == V2rayPlugin
    requires NetlocSafe(SsLinks.HostPort(c))
    requires u.username == Username(SsLinks.UrlsafeAndroidLink(c).value)
    requires u.pluginValues == [c.plugin + ";" + c.pluginOpts]
    requires u.port.Port?
    ensures u.username == Some(Base64.UrlsafeUnpadded(AsciiBytes(SsLinks.Userinfo(c))))
    ensures DetectUrlType(u) == Android
    ensures GetConfigFromAndroidUrl(u).Ok?
    ensures var r := GetConfigFromAndroidUrl(u).value;
      r.cipher == c.cipher && r.password == c.password && r.plugin == c.plugin && r.pluginOpts == c.pluginOpts
  {
    var bs := AsciiBytes(SsLinks.Userinfo(c));
    var name := Base64.UrlsafeUnpadded(bs);
    Base64.UrlsafeUnpaddedShape(bs);
    assert NetlocSafe(name) && ':' !in name by {
      forall i | 0 <= i < |name|
        ensures !EndsNetloc(name[i]) && name[i] != '@' && name[i] != ':'
      {
        assert Base64.IsUrlsafeSymbol(name[i]);
      }
    }
    LinkParts(name, c);
    Base64.DecodeUrlsafeUnpaddedPlusTwo(bs);
    ParsesUserinfo(c, u, name);
  }

  /**
   * A network location that starts with base64 text holding a "/" ends at
   * that "/", before any "@".
   */
  lemma {:induction false} NetlocStopsAtSlash(name: string, rest: string)
    requires forall i :: 0 <= i < |name| ==> name[i] != '@' && name[i] != '?' && name[i] != '#'
    requires '/' in name
    ensures '@' !in Netloc(name + rest)
    decreases |name|
  {
    assert (name + rest)[0] == name[0];
    if name[0] != '/' {
      assert (name + rest)[1..] == name[1..] + rest;
      assert '/' in name[1..] by {
        var j :| 0 <= j < |name| && name[j] == '/';
        assert name[1..][j - 1] == '/';
      }
      NetlocStopsAtSlash(name[1..], rest);
    }
  }

  /**
   * The builder as written can produce a link the tester never parses: when
   * the standard base64 of the userinfo holds a "/", that "/" ends the
   * network location, so `urlparse` finds no "@" and no username and the
   * classifier calls the link "other".
   */
  lemma SlashUserinfoLost(c: SsLinks.ServerConfig, u: UrlParts)
    requires IsAscii(SsLinks.Userinfo(c))
    requires '/' in Base64.Unpadded(AsciiBytes(SsLinks.Userinfo(c)))
    requires u.username == Username(SsLinks.AndroidLink(c).value)
    ensures DetectUrlType(u) == Other
  {
    UnpaddedDelimiters(AsciiBytes(SsLinks.Userinfo(c)));
    NetlocStopsAtSlash(Base64.Unpadded(AsciiBytes(SsLinks.Userinfo(c))), SsLinks.AfterUserinfo(c));
  }

  /** A configuration whose userinfo "a:?" has the standard base64 "YTo/". */
  const SlashConfig: SsLinks.ServerConfig := SsLinks.ServerConfig("h", "1", "a", "?", V2rayPlugin, "")

  /**
   * Such configurations exist and are ordinary: for the credentials "a"
   * and "?" the userinfo is "YTo/", which the parser would have read back
   * had the link reached it.
   */
  lemma SlashUserinfoExample()
    ensures IsAscii(SsLinks.Userinfo(SlashConfig))
    ensures Base64.Unpadded(AsciiBytes(SsLinks.Userinfo(SlashConfig))) == "YTo/"
    ensures Credentials("YTo/") == Ok(("a", "?"))
  {
    var bs := AsciiBytes(SsLinks.Userinfo(SlashConfig));
    assert bs == [97, 58, 63];
    assert Base64.Sextets(bs) == [24, 19, 40, 63];
    Base64.UnpaddedShape(bs);
    Base64.DecodeUnpaddedPlusTwo(bs);
    assert Base64.Unpadded(bs) == "YTo/";
    assert Base64.UrlsafeDecode("YTo/" + "==") == Ok(bs);
    CredentialsOf(SlashConfig, "YTo/");
  }
}
