/**
 * The Shadowsocks link builders. The Android link follows the layout of
 * SIP002: `ss://` and the unpadded base64 of "method:password", "@", the
 * server and port, and the plugin with its options percent-encoded. The iOS
 * link base64-encodes the whole authority and carries the plugin options as
 * base64-encoded JSON, with the websocket host and path taken from the
 * `key=value` options, the last one winning.
 */
module SsLinks {
  import opened Wrappers
  import opened Text
  import Base64
  import Percent
  import Json

  /**
   * The keys of a server configuration the links read. The port is the text
   * the f-string writes for `config['server_port']`, and the cipher is
   * `config['method']`.
   */
  datatype ServerConfig = ServerConfig(
    server: string, serverPort: string, cipher: string, password: string,
    plugin: string, pluginOpts: string)

  datatype LinkError =
    | EncodeError                      // UnicodeEncodeError: a character outside ASCII is encoded as ASCII
    | OptionUnpackError(option: string) // ValueError: `k, v = opt.split('=')` meets more than one "="

  function Userinfo(c: ServerConfig): string
  {
    c.cipher + ":" + c.password
  }

  function Authority(c: ServerConfig): string
  {
    Userinfo(c) + "@" + c.server + ":" + c.serverPort
  }

  /** `b64encode(t.encode('ascii')).decode('ascii').rstrip('=')`. */
  function UnpaddedAscii(t: string): (r: Result<string, LinkError>)
    ensures r.Err? <==> !IsAscii(t)
    ensures r.Err? ==> r.error == EncodeError
  {
    if !IsAscii(t) then Err(EncodeError) else Ok(Base64.Unpadded(AsciiBytes(t)))
  }

  // ------------------------------------------------------------ Android

  /** The server and port, written after the "@". */
  function HostPort(c: ServerConfig): string
  {
    c.server + ":" + c.serverPort
  }

  /** The query: the plugin name and its quoted options. */
  function PluginQuery(c: ServerConfig): string
  {
    "plugin=" + c.plugin + Percent.Quote(";" + c.pluginOpts)
  }

  /** What follows the userinfo: the server, the port and the plugin query. */
  function AfterUserinfo(c: ServerConfig): string
  {
    "@" + HostPort(c) + "?" + PluginQuery(c)
  }

  /** The link around an encoded userinfo u. */
  function LinkAround(u: string, c: ServerConfig): (link: string)
    ensures StartsWith(link, "ss://") && link[5..] == u + AfterUserinfo(c)
  {
    StartsWithAppend("ss://", u + AfterUserinfo(c));
    "ss://" + (u + AfterUserinfo(c))
  }

  /** `get_ss_android_link(config)`. */
  function AndroidLink(c: ServerConfig): Result<string, LinkError>
  {
    match UnpaddedAscii(Userinfo(c))
    case Err(e) => Err(e)
    case Ok(u) => Ok(LinkAround(u, c))
  }

  /**
   * The Android link with the userinfo in the URL-safe alphabet, the
   * alphabet `urlsafe_b64decode` reads it back in.
   */
  function UrlsafeAndroidLink(c: ServerConfig): Result<string, LinkError>
  {
    if !IsAscii(Userinfo(c)) then Err(EncodeError)
    else Ok(LinkAround(Base64.UrlsafeUnpadded(AsciiBytes(Userinfo(c))), c))
  }

  /**
   * Only "method:password" is encoded as ASCII, so the link fails exactly
   * when it is not ASCII; the server, port and plugin are written as given.
   */
  lemma AndroidLinkFails(c: ServerConfig)
    ensures AndroidLink(c).Err? <==> !IsAscii(Userinfo(c))
    ensures AndroidLink(c).Err? ==> AndroidLink(c).error == EncodeError
  {
  }

  /**
   * The Android link's layout: the userinfo part has no "=", ceil(4n/3)
   * characters for an n-character userinfo, and decodes back to it once
   * "==" is appended; after it come "@", the server, ":", the port, "?" and
   * the query, whose options part starts with "%3B", the quoted ";".
   */
  lemma AndroidLinkShape(c: ServerConfig)
    requires IsAscii(Userinfo(c))
    ensures var u := Base64.Unpadded(AsciiBytes(Userinfo(c)));
      && AndroidLink(c) == Ok("ss://" + (u + ("@" + c.server + ":" + c.serverPort + "?" + PluginQuery(c))))
      && PluginQuery(c) == "plugin=" + c.plugin + "%3B" + Percent.Quote(c.pluginOpts)
      && '=' !in u
      && |u| == (4 * |Userinfo(c)| + 2) / 3
      && Base64.UrlsafeDecode(u + "==") == Ok(AsciiBytes(Userinfo(c)))
  {
    var bs := AsciiBytes(Userinfo(c));
    Base64.UnpaddedShape(bs);
    Base64.DecodeUnpaddedPlusTwo(bs);
    Percent.QuoteSemicolon(c.pluginOpts);
    var pre := "plugin=" + c.plugin;
    assert pre + ("%3B" + Percent.Quote(c.pluginOpts)) == pre + "%3B" + Percent.Quote(c.pluginOpts);
    assert "@" + HostPort(c) == "@" + c.server + ":" + c.serverPort;
    assert AfterUserinfo(c) == "@" + c.server + ":" + c.serverPort + "?" + PluginQuery(c);
  }

  // ------------------------------------------------------------ plugin options

  /** An option the unpacking accepts: one without "=", or one that splits on "=" into exactly two parts. */
  predicate WellFormedOption(o: string)
  {
    '=' !in o || |SplitAll(o, '=')| == 2
  }

  /**
   * The websocket host and path after reading the options left to right
   * from host and path: an option with "=" and key "host" or "path"
   * replaces that value, other options are skipped.
   */
  function ApplyOptions(opts: seq<string>, host: string, path: string): Result<(string, string), LinkError>
    decreases |opts|
  {
    if opts == [] then Ok((host, path))
    else
      var o := opts[0];
      if '=' !in o then ApplyOptions(opts[1..], host, path)
      else
        var parts := SplitAll(o, '=');
        if |parts| != 2 then Err(OptionUnpackError(o))
        else
          var (k, v) := (parts[0], parts[1]);
          ApplyOptions(opts[1..], if k == "host" then v else host, if k == "path" then v else path)
  }

  /** The value of the last option with key k, read from the end: an independent account of "last wins". */
  function LastValue(opts: seq<string>, k: string): Option<string>
    decreases |opts|
  {
    if opts == [] then None
    else
      var parts := SplitAll(opts[|opts| - 1], '=');
      if |parts| == 2 && parts[0] == k then Some(parts[1]) else LastValue(opts[..|opts| - 1], k)
  }

  function ValueOr(v: Option<string>, d: string): string
  {
    if v.Some? then v.value else d
  }

  /** The last value of a list that starts with o: the rest's last value, or else o's own. */
  lemma {:induction false} LastValueCons(o: string, rest: seq<string>, k: string)
    ensures var parts := SplitAll(o, '=');
      LastValue([o] + rest, k) ==
        if LastValue(rest, k).Some? then LastValue(rest, k)
        else if |parts| == 2 && parts[0] == k then Some(parts[1]) else None
    decreases |rest|
  {
    var all := [o] + rest;
    if rest == [] {
      assert all[..0] == [];
    } else {
      assert all[|all| - 1] == rest[|rest| - 1];
      assert all[..|all| - 1] == [o] + rest[..|rest| - 1];
      LastValueCons(o, rest[..|rest| - 1], k);
    }
  }

  /**
   * Reading the options fails exactly when one of them does not unpack, and
   * otherwise ends with the last host and the last path given, or the
   * starting values where none is.
   */
  lemma {:induction false} OptionsLastWins(opts: seq<string>, host: string, path: string)
    ensures ApplyOptions(opts, host, path).Ok? <==> forall i :: 0 <= i < |opts| ==> WellFormedOption(opts[i])
    ensures ApplyOptions(opts, host, path).Ok? ==>
      ApplyOptions(opts, host, path).value ==
        (ValueOr(LastValue(opts, "host"), host), ValueOr(LastValue(opts, "path"), path))
    ensures ApplyOptions(opts, host, path).Err? ==>
      exists i :: 0 <= i < |opts| && ApplyOptions(opts, host, path).error == OptionUnpackError(opts[i])
    decreases |opts|
  {
    if opts != [] {
      var o, rest := opts[0], opts[1..];
      assert opts == [o] + rest;
      var parts := SplitAll(o, '=');
      LastValueCons(o, rest, "host");
      LastValueCons(o, rest, "path");
      if '=' !in o {
        assert |parts| == 1;
        OptionsLastWins(rest, host, path);
      } else if |parts| == 2 {
        var (k, v) := (parts[0], parts[1]);
        OptionsLastWins(rest, if k == "host" then v else host, if k == "path" then v else path);
      }
      if ApplyOptions(opts, host, path).Err? && ApplyOptions(rest, host, path).Err? && '=' !in o {
        var i :| 0 <= i < |rest| && ApplyOptions(rest, host, path).error == OptionUnpackError(rest[i]);
        assert rest[i] == opts[i + 1];
      }
      if ApplyOptions(opts, host, path).Err? && '=' in o && |parts| == 2 {
        var (k, v) := (parts[0], parts[1]);
        var h, p := if k == "host" then v else host, if k == "path" then v else path;
        var i :| 0 <= i < |rest| && ApplyOptions(rest, h, p).error == OptionUnpackError(rest[i]);
        assert rest[i] == opts[i + 1];
      }
      if ApplyOptions(opts, host, path).Ok? {
        forall i | 0 <= i < |opts|
          ensures WellFormedOption(opts[i])
        {
          if i > 0 { assert opts[i] == rest[i - 1]; }
        }
      } else if forall i :: 0 <= i < |opts| ==> WellFormedOption(opts[i]) {
        assert WellFormedOption(opts[0]);
        forall i | 0 <= i < |rest|
          ensures WellFormedOption(rest[i])
        {
          assert rest[i] == opts[i + 1];
        }
      }
    }
  }

  /** The option loop of `get_ss_ios_link`: host starts as the server and path as "/". */
  method PluginOptions(pluginOpts: string, server: string) returns (r: Result<(string, string), LinkError>)
    ensures r == ApplyOptions(SplitAll(pluginOpts, ';'), server, "/")
  {
    var opts := SplitAll(pluginOpts, ';');
    var host, path := server, "/";
    var i := 0;
    while i < |opts|
      invariant 0 <= i <= |opts|
      invariant ApplyOptions(opts, server, "/") == ApplyOptions(opts[i..], host, path)
    {
      var o := opts[i];
      assert opts[i..][0] == o && opts[i..][1..] == opts[i + 1..];
      if '=' in o {
        var parts := SplitAll(o, '=');
        if |parts| != 2 {
          return Err(OptionUnpackError(o));
        }
        var k, v := parts[0], parts[1];
        if k == "host" {
          host := v;
        } else if k == "path" {
          path := v;
        }
      }
      i := i + 1;
    }
    assert opts[i..] == [];
    return Ok((host, path));
  }

  // ------------------------------------------------------------ iOS

  /** `get_ss_ios_link(config)`. */
  function IosLink(c: ServerConfig): Result<string, LinkError>
  {
    match UnpaddedAscii(Authority(c))
    case Err(e) => Err(e)
    case Ok(auth) =>
      match ApplyOptions(SplitAll(c.pluginOpts, ';'), c.server, "/")
      case Err(e) => Err(e)
      case Ok((host, path)) =>
        var json := Json.Dumps(path, host);
        Json.DumpsAscii(path, host);
        Ok("ss://" + auth + "?tfo=1&" + c.plugin + "=" + Base64.Unpadded(AsciiBytes(json)))
  }

  /** `get_ss_ios_link(config)`, with the option loop run as the source runs it. */
  method GetSsIosLink(c: ServerConfig) returns (r: Result<string, LinkError>)
    ensures r == IosLink(c)
  {
    var authority := Authority(c);
    if !IsAscii(authority) {
      return Err(EncodeError);
    }
    var auth := Base64.Unpadded(AsciiBytes(authority));
    var opts := PluginOptions(c.pluginOpts, c.server);
    if opts.Err? {
      return Err(opts.error);
    }
    var (host, path) := opts.value;
    var json := Json.Dumps(path, host);
    Json.DumpsAscii(path, host);
    r := Ok("ss://" + auth + "?tfo=1&" + c.plugin + "=" + Base64.Unpadded(AsciiBytes(json)));
  }

  /**
   * The iOS link fails at the ASCII encoding exactly when the authority is
   * not ASCII, and otherwise exactly when an option does not unpack; the
   * encoding comes first.
   */
  lemma IosLinkFails(c: ServerConfig)
    ensures IosLink(c).Err? <==>
      !IsAscii(Authority(c)) || exists o :: o in SplitAll(c.pluginOpts, ';') && !WellFormedOption(o)
    ensures !IsAscii(Authority(c)) ==> IosLink(c) == Err(EncodeError)
    ensures IsAscii(Authority(c)) && IosLink(c).Err? ==>
      exists o :: o in SplitAll(c.pluginOpts, ';') && IosLink(c) == Err(OptionUnpackError(o))
  {
    var opts := SplitAll(c.pluginOpts, ';');
    OptionsLastWins(opts, c.server, "/");
    if exists o :: o in opts && !WellFormedOption(o) {
      var o :| o in opts && !WellFormedOption(o);
      var i :| 0 <= i < |opts| && opts[i] == o;
    }
  }

  /**
   * What an iOS link carries: after "ss://" the unpadded base64 of
   * "method:password@server:port", and after the plugin name the unpadded
   * base64 of the JSON options, whose host and path are the last ones given
   * in the options, or the server and "/".
   */
  lemma IosLinkContents(c: ServerConfig)
    requires IosLink(c).Ok?
    ensures exists auth, opts ::
      && IosLink(c).value == "ss://" + auth + "?tfo=1&" + c.plugin + "=" + opts
      && '=' !in auth && '=' !in opts
      && Base64.UrlsafeDecode(auth + "==") == Ok(AsciiBytes(Authority(c)))
      && exists json ::
        && IsAscii(json)
        && Base64.UrlsafeDecode(opts + "==") == Ok(AsciiBytes(json))
        && Json.ReadOptions(json) == Some((
             ValueOr(LastValue(SplitAll(c.pluginOpts, ';'), "path"), "/"),
             ValueOr(LastValue(SplitAll(c.pluginOpts, ';'), "host"), c.server)))
  {
    var opts := SplitAll(c.pluginOpts, ';');
    OptionsLastWins(opts, c.server, "/");
    var (host, path) := ApplyOptions(opts, c.server, "/").value;
    var json := Json.Dumps(path, host);
    Json.DumpsAscii(path, host);
    Json.DumpsBack(path, host);
    var a := AsciiBytes(Authority(c));
    var j := AsciiBytes(json);
    Base64.UnpaddedShape(a);
    Base64.DecodeUnpaddedPlusTwo(a);
    Base64.UnpaddedShape(j);
    Base64.DecodeUnpaddedPlusTwo(j);
    var auth, enc := Base64.Unpadded(a), Base64.Unpadded(j);
    assert IosLink(c).value == "ss://" + auth + "?tfo=1&" + c.plugin + "=" + enc;
  }
}
