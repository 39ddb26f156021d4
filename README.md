# Tunnel provisioning service: a verified model

This project models the core of a service that hands out per-client network
tunnels for a proxy service. The model is written in Dafny and its properties
are proved.

- **Subdomain generator** (`ConnectUtils`, with `Radix`, `Text` and `Base32`). A
  64-bit linear congruential generator uses Knuth's MMIX multiplier and
  increment. It is evaluated in closed form at an index drawn from the
  `connect:subdomain:idx` counter. Its value becomes 8 big-endian bytes, then
  base 32 (section 6 of RFC 4648). The padding is stripped, the text is
  lower-cased and a prefix goes in front. The claims the tunnel token signs are
  modelled too.
- **Tunnel records** (`KvStore`, `Tunnels`). A Redis key space is a class with
  three map fields: values, expiry settings and counters. `TunnelManager`
  works on it:
  - get-or-create-pending,
  - the `tunnel-N` name allocator,
  - the record writer, which sets the time-to-live.
- **One pass of the reconciliation worker** (`Remote`, `Worker`). The
  Cloudflare account and zone are in-memory collections:
  - tunnels with an id and a name,
  - ingress configurations,
  - DNS records with an id and a content,
  - the set of tunnels whose deletion the remote refuses.

  The pass has five steps:
  1. admit by the number of `tunnel-` tunnels;
  2. reject or provision each record without a hostname;
  3. collect the tunnel ids in use;
  4. build the CNAME map;
  5. delete unused tunnels and their DNS records.

  Each step is a specification function. An imperative method over the store
  and the account is proved equal to it. The exceptions that end a pass are
  explicit outcomes:
  - a key gone between scan and read,
  - a record whose `cfd_creds` is null (rejected or still pending) met by the
    active-id loop, which raises AttributeError there (see Findings),
  - a missing DNS mapping,
  - a DNS delete the remote refuses.
- **Shadowsocks links** (`SsLinks`, `Base64`, `Percent`, `Json`).
  - The Android link is built from unpadded base64 (section 4 of RFC 4648) and
    percent-encoding (section 2.1 of RFC 3986).
  - The iOS link carries base64 of a JSON options object. Its host and path
    are read from `key=value` options, and the last one wins.
- **Link parser** (`SsTester`). It classifies `ss://` URLs and parses
  Android-style ones, using URL parts already split by `urlparse` and
  `parse_qs`. It makes its checks in the source's order and keeps its mix of
  exception types. Of `urlparse` it models the username: the userinfo before
  the last "@" of the network location, which ends at the first "/", "?" or
  "#".
- **Environment registry** (`Env`). `defenv` updates the registry in place, and
  `env.NAME` is a lookup with ordered errors.

Facts about the code that the model follows:
- A tunnel is named by the `uid:tunnel` counter (`tunnel-N`), not after the
  record's subdomain.
- No record stores a tunnel name.
- The token claims are `ver`, `cid` and `tname`.
- There is no retry or backoff around remote calls.
- The tunnel list is not fetched again before cleanup.
- No separate DNS sweep exists: a deleted tunnel's mapped DNS record is deleted
  right after it.
- The Android link encodes only `method:password` as ASCII. A non-ASCII server
  is written into the link as it is.

## Model

| member | source | states |
|---|---|---|
| `ConnectUtils.Lcg` | connect/utils.py:55-75 | the generator's value at any index lies in [0, 2^64) |
| `ConnectUtils.LcgZero` | connect/utils.py:74-75 | index 0 gives the seed reduced modulo 2^64 |
| `ConnectUtils.LcgAgreesWithStepping` | connect/utils.py:66-75 | the jump-ahead formula equals the n-th term reached by stepping x -> (a*x + c) mod 2^64 from the seed |
| `ConnectUtils.LcgStep` | connect/utils.py:71-75 | consecutive indices are one generator step apart |
| `ConnectUtils.LcgInjective` | connect/utils.py:56-61 | full period: two indices in [0, 2^64) with equal values are equal, because c is odd and a - 1 is divisible by 4 |
| `ConnectUtils.EncodeEightBytes` | connect/utils.py:46-47 | base 32 of the 8 big-endian bytes is 13 symbols (high 40 bits, then low 24 bits and a zero bit) followed by "===" |
| `ConnectUtils.LabelShape` | connect/utils.py:46-50 | after stripping "=" and lower-casing, the label is exactly 13 characters of a-z and 2-7 |
| `ConnectUtils.LabelRoundTrip` | connect/utils.py:46-50 | the label decodes back to the 64-bit value it encodes, so bytes, base 32 and lower-casing lose nothing |
| `ConnectUtils.SubdomainShape` | connect/utils.py:42-52 | a subdomain is the prefix followed by 13 characters of the lower-case base-32 alphabet |
| `ConnectUtils.SubdomainInjective` | connect/utils.py:42-52 | equal subdomains come from equal indices in [0, 2^64) |
| `ConnectUtils.ComposeClaims` | connect/utils.py:17-37 | the counter rises by exactly one, and the new value picks the subdomain; the token claims are exactly ver 1, the fresh connector id and that subdomain; a negative index gives no claims |
| `ConnectUtils.NthIndex` | connect/utils.py:18 | the (n+1)-th compose call draws the counter's starting value plus n + 1 |
| `ConnectUtils.ComposeSubdomainsDistinct` | connect/utils.py:17-19 | compose calls draw strictly increasing indices starting at 1 from a fresh counter, and any two of them name different subdomains below 2^64 |
| `KvStore.SetIdempotent` | api/tunnel.py:21-30 | setting the same value and expiry twice leaves the store as setting it once |
| `KvStore.IncrsCount` | api/tunnel.py:34 | n INCRs of a counter raise it by exactly n |
| `Tunnels.TunnelKey` | api/tunnel.py:15 | the record key is "tunnel:" followed by the connector id, which the text after the prefix gives back |
| `Tunnels.Written` | api/tunnel.py:37-46 | the written record has exactly the four given fields, and it has a reject reason exactly when a non-empty one is given |
| `Tunnels.TunnelManager.constructor` | api/tunnel.py:9-12 | the manager shares the store, uses the prefix "tunnel-" and keeps the configured time-to-live |
| `Tunnels.TunnelManager.GetTunnel` | api/tunnel.py:14-31 | returns the stored record and resets only its expiry; or stores and returns the pending record with no expiry |
| `Tunnels.TunnelManager.GetTunnelUid` | api/tunnel.py:33-35 | raises counter uid:tunnel by one and returns "tunnel-" followed by the new value in decimal |
| `Tunnels.TunnelManager.WriteTunnel` | api/tunnel.py:37-48 | replaces the record with the written one and sets its expiry to the time-to-live |
| `Tunnels.GetTunnelHit` | api/tunnel.py:16-19 | on a stored key the record is returned unchanged, and only that key's expiry changes, to the time-to-live |
| `Tunnels.GetTunnelMiss` | api/tunnel.py:21-31 | on a missing key, the pending record with null hostname, path and credentials is stored with no expiry and returned |
| `Tunnels.GetTunnelTwice` | api/tunnel.py:14-31 | two calls for a new connector return equal pending records; the second call leaves the stored records as they were |
| `Tunnels.PendingRaceHarmless` | api/tunnel.py:21-30 | a second writer that also missed the key and stores the pending record leaves the same key space |
| `Tunnels.LatePendingWriteClobbers` | api/tunnel.py:21-30 | when a late writer that missed the key stores the pending record after the record was written, the key holds the pending record with no expiry again, the written record is lost, and the key space is the one a lone pending write gives |
| `Tunnels.TunnelOpsFrame` | api/tunnel.py:14-48 | `get_tunnel` and `write_tunnel` leave every other key, expiry and counter unchanged |
| `Tunnels.WriteTunnelEffect` | api/tunnel.py:47-48 | after a write, the key holds exactly the written record and expires after the time-to-live |
| `Tunnels.UidNamesCount` | api/tunnel.py:33-35 | the i-th of successive allocated names is "tunnel-" followed by the counter's start plus i + 1 |
| `Tunnels.UidNamesDistinct` | api/tunnel.py:33-35 | successive allocated names are pairwise distinct |
| `Tunnels.ConnectorIdOfKey` | connect/worker.py:137 | splitting "tunnel:" + cid at the first ':' gives back cid exactly, even when cid contains ':' |
| `Worker.Managed` | connect/worker.py:117-120 | keeps exactly the listed tunnels whose names start with "tunnel-", and no more of them than listed |
| `Worker.ManagedAppend` | connect/worker.py:117-120 | filtering a concatenation concatenates the filtered parts, so the kept tunnels stay in the listed order |
| `Worker.ManagedSingle` | connect/worker.py:117-120 | a single tunnel is kept exactly when its name starts with "tunnel-" |
| `Worker.ConnectorId` | connect/worker.py:137 | the connector id taken from a scanned key names that same key |
| `Worker.CreateTunnel` | connect/worker.py:34-96 | performs exactly the store and account changes of the create-tunnel specification |
| `Worker.CreateTunnelEffect` | connect/worker.py:34-96 | allocates one name and adds one remote tunnel, one ingress configuration and one CNAME to id + ".cfargotunnel.com"; commits a ready record with hostname name + ".oneconnect.hair", path "graphql" and the new tunnel id |
| `Worker.CnameRoundTrip` | connect/worker.py:164-166 | stripping ".cfargotunnel.com" from a CNAME target written by create_tunnel gives back the tunnel id |
| `Worker.CreatedTunnelMapped` | connect/worker.py:71-80 | after create_tunnel, the DNS map sends the new tunnel id to its new record |
| `Worker.DnsMapKeys` | connect/worker.py:162-167 | a tunnel id is mapped iff some record's content ends with the suffix and names it |
| `Worker.DnsMapLastWins` | connect/worker.py:162-167 | when several records name the same tunnel, the last one wins |
| `Worker.BuildDnsMap` | connect/worker.py:160-167 | the loop builds exactly the DNS map |
| `Worker.StepFrame` | connect/worker.py:131-148 | one turn of the provisioning loop changes at most the record it scanned |
| `Worker.StepEffect` | connect/worker.py:131-148 | a vanished key raises; a record with a hostname is skipped; one without is either rejected, leaving the account alone, or made ready, never both |
| `Worker.PassCompletesIff` | connect/worker.py:131-133 | the provisioning loop raises iff a scanned key is gone from the store |
| `Worker.RejectingPass` | connect/worker.py:139-143 | a rejecting pass leaves the account alone and keeps records with a hostname; it rewrites every scanned record without one as rejected with "No free tunnels available." |
| `Worker.ProvisioningPass` | connect/worker.py:145-148 | a non-rejecting pass leaves every scanned key with a hostname and keeps every other record |
| `Worker.RejectedRecordReexamined` | connect/worker.py:134-148 | a rejected record keeps a null hostname, so the next non-rejecting pass provisions it as ready |
| `Worker.ProvisionPass` | connect/worker.py:131-148 | the loop computes the provisioning pass specification |
| `Worker.ActiveIdsAsWrittenCompleteIff` | connect/worker.py:150-158 | the loop as written completes iff every scanned key is still stored and its record has non-null `cfd_creds` |
| `Worker.ActiveIdsAsWrittenOrNull` | connect/worker.py:150-158 | the loop as written gives the corrected result or raises on a null `cfd_creds` |
| `Worker.ActiveIdsCompleteIff` | connect/worker.py:151-154 | the corrected collection fails iff a scanned key is gone from the store |
| `Worker.ActiveIdsMembers` | connect/worker.py:150-158 | in the corrected collection, the ids are exactly the non-empty TunnelIDs of the scanned records with credentials |
| `Worker.ActiveIdsAgree` | connect/worker.py:150-158 | where no scanned record has null credentials, the loop as written and the corrected one agree |
| `Worker.RejectedRecordCrashesAsWritten` | connect/worker.py:155-156 | as written, the loop raises on a rejected or a pending record; the corrected loop skips it |
| `Worker.CollectActiveIds` | connect/worker.py:150-158 | the loop computes the collection of active ids as written, raising on a null `cfd_creds` |
| `Worker.DeletePassKeeps` | connect/worker.py:169-183 | the loop never deletes a tunnel that is active, refused by the remote or missing from the list fetched at the start |
| `Worker.DeletePassShrinks` | connect/worker.py:169-187 | the deletion loop adds no tunnel and no DNS record |
| `Worker.DeletePassRemoves` | connect/worker.py:169-187 | a deletion loop that completes has removed every listed tunnel that is neither active nor refused, and for one present at the start, the DNS record mapped to it |
| `Worker.DeleteStepEffect` | connect/worker.py:170-187 | for an unused tunnel, a refused delete changes nothing; an accepted one removes the tunnel, then raises KeyError if no DNS record is mapped, or deletes the mapped one |
| `Worker.DeleteOrphans` | connect/worker.py:169-189 | the loop computes the deletion pass specification |
| `Worker.IterationSleep` | connect/worker.py:191 | a completed pass sleeps 5 seconds when it rejected, else 1 |
| `Worker.RejectingIterationCreatesNothing` | connect/worker.py:121-148 | when the managed tunnels have reached the maximum, the pass creates no remote tunnel |
| `Worker.RejectingIterationStops` | connect/worker.py:121-158 | a rejecting pass that finds a waiting connector whose key the second scan sees again raises, and deletes no remote tunnel or DNS record |
| `Worker.CorrectedIterationAgrees` | connect/worker.py:112-191 | the pass as written and the corrected pass have the same outcome and state unless the former raises on a null `cfd_creds` |
| `Worker.Iteration` | connect/worker.py:112-191 | one pass performs exactly the state change and outcome of the iteration specification, the active-id loop as written |
| `SsLinks.UnpaddedAscii` | pyutils/sslinks.py:8-9 | the ASCII encode fails iff the text is not ASCII |
| `SsLinks.AndroidLinkFails` | pyutils/sslinks.py:7-8 | the Android link fails iff method:password is not ASCII |
| `SsLinks.AndroidLinkShape` | pyutils/sslinks.py:6-18 | the link is "ss://" U "@" server ":" port "?" and the query "plugin=" plugin "%3B" quoted options; U has no "=", has ceil(4n/3) characters, and decodes back to the userinfo |
| `SsLinks.OptionsLastWins` | pyutils/sslinks.py:30-38 | option reading fails iff an option with "=" does not split into two parts; otherwise host and path are the last ones given, or the server and "/" |
| `SsLinks.PluginOptions` | pyutils/sslinks.py:29-38 | the loop computes the option reading |
| `SsLinks.GetSsIosLink` | pyutils/sslinks.py:21-52 | the method computes the iOS link |
| `SsLinks.IosLinkFails` | pyutils/sslinks.py:24-34 | the iOS link fails iff the authority is not ASCII (checked first) or an option does not unpack |
| `SsLinks.IosLinkContents` | pyutils/sslinks.py:21-52 | the link is "ss://" + unpadded base64 of the authority + "?tfo=1&" + plugin + "=" + unpadded base64 of JSON; that JSON reads back to the chosen path and host |
| `Base64.UnpaddedShape` | pyutils/sslinks.py:8-9 | the unpadded encoding has no "=" and has ceil(4n/3) characters |
| `Base64.DecodeEncoded` | sstester/tester.py:55 | `urlsafe_b64decode` inverts `b64encode` |
| `Base64.DecodeUnpaddedPlusTwo` | sstester/tester.py:52-55 | appending "==" to the unpadded text decodes to the same bytes as the padded text |
| `Base64.ToUrlsafe` | sstester/tester.py:55 | the URL-safe text has the same length, with "+" written as "-" and "/" as "_" |
| `Base64.UrlsafeUnpaddedShape` | sstester/tester.py:55 | the unpadded URL-safe encoding uses only A-Z, a-z, 0-9, "-" and "_", and has ceil(4n/3) characters |
| `Base64.A2bUrlsafe` | sstester/tester.py:55 | `urlsafe_b64decode` reads the URL-safe text as it reads the standard one |
| `Base64.DecodeUrlsafeUnpaddedPlusTwo` | sstester/tester.py:52-55 | the unpadded URL-safe text with "==" appended decodes back to the bytes |
| `Percent.QuoteSemicolon` | pyutils/sslinks.py:15 | the quoted options start with "%3B" and then the quoted options text |
| `Percent.UnquoteQuote` | pyutils/sslinks.py:15 | percent-decoding inverts `quote`, so nothing is lost |
| `Percent.QuoteSafeText` | pyutils/sslinks.py:15 | unreserved characters and "/" are kept unescaped |
| `Json.DumpsAscii` | pyutils/sslinks.py:47-48 | the JSON options text is ASCII, so its ASCII encode cannot fail |
| `Json.DumpsBack` | pyutils/sslinks.py:39-47 | the JSON object, with keys path, host, mux, tfo, mode and tls in that order, reads back to the path and host it was given |
| `SsTester.Netloc` | sstester/tester.py:29-33 | the network location `urlparse` takes after "//" holds no "/", "?" or "#" |
| `SsTester.NetlocPrefix` | sstester/tester.py:29-33 | the network location is the longest prefix of the rest holding no "/", "?" or "#" |
| `SsTester.NetlocAfter` | sstester/tester.py:29-33 | text free of "/", "?" and "#" is all kept in the network location, which goes on into what follows |
| `SsTester.BeforeLastSkips` | sstester/tester.py:29-33 | the userinfo is the text before the last "@", however many "@" precede it |
| `SsTester.LinkUsername` | sstester/tester.py:29-33 | for "ss://" info "@" host "?" query with info free of ":" and neither part holding "/", "?", "#" or "@", the username is info |
| `SsTester.NetlocStopsAtSlash` | sstester/tester.py:29-33 | a network location that starts with base64 text holding a "/" contains no "@" |
| `SsTester.PluginChecks` | sstester/tester.py:37-50 | in order: a missing plugin parameter, a value without ';', and a plugin other than v2ray-plugin each raise SsUrlParseError, and exactly then |
| `SsTester.FirstPluginValue` | sstester/tester.py:41-47 | only the first plugin value is read; the plugin is the text before its first ';' and the options all after it |
| `SsTester.UserinfoFailures` | sstester/tester.py:52-57 | a missing username raises TypeError; a bad decode or no ':' raises ValueError, not SsUrlParseError |
| `SsTester.CredentialsSplit` | sstester/tester.py:55-57 | method is the decoded text before the first ':' and password the rest |
| `SsTester.PortCheckedLast` | sstester/tester.py:59-60 | a missing port raises SsUrlParseError, and a port text that is not a valid port raises ValueError, each exactly when the plugin and userinfo steps succeed |
| `SsTester.ConfigEntries` | sstester/tester.py:36-78 | parsing succeeds iff every check passes; a non-empty fragment gives the name and is added to the title after the host name, otherwise both are the host name; address and port echo the URL's |
| `SsTester.CredentialsOf` | sstester/tester.py:55-57 | a username that decodes to "method:password" with no ":" in the method splits back into that method and password |
| `SsTester.ParsesParts` | sstester/tester.py:36-78 | when the plugin value splits into v2ray-plugin and options, the username decodes to credentials and the port is a number, the parser returns that plugin, those options and those credentials |
| `SsTester.ParsesUserinfo` | sstester/tester.py:29-78 | a URL whose username decodes to "method:password" and whose plugin parameter is "v2ray-plugin;" options, with a port, is classified android and parsed back to that method, password, plugin and options |
| `SsTester.ReadsAndroidLink` | sstester/tester.py:29-78 | for a link built by the Android builder whose base64 userinfo has no "/" and whose server and port hold no "/", "?", "#" or "@", the username `urlparse` finds is that userinfo, the link is classified android, and the parser reads back the method, password, plugin and options |
| `SsTester.SlashUserinfoLost` | sstester/tester.py:29-33 | as written, a link whose standard base64 userinfo holds a "/" has no username and is classified "other", so the tester skips it |
| `SsTester.SlashUserinfoExample` | pyutils/sslinks.py:7-8 | the method "a" with the password "?" gives the userinfo "YTo/", which would decode back to them |
| `SsLinks.UrlsafeAndroidLink` | pyutils/sslinks.py:6-18 | the Android link with its userinfo in the URL-safe base64 alphabet |
| `SsTester.ReadsUrlsafeAndroidLink` | sstester/tester.py:29-78 | for the URL-safe link, the username is the userinfo, the link is classified android and every credential reads back, with no condition on the credentials |
| `Env.Registry.constructor` | pyutils/env.py:6 | the registry starts empty |
| `Env.Registry.Defenv` | pyutils/env.py:9-15 | stores name, type, default and optional under the name, replacing any earlier entry |
| `Env.Registry.GetAttr` | pyutils/env.py:18-33 | lookup computes the lookup specification and leaves the registry unchanged |
| `Env.LookupErrors` | pyutils/env.py:18-31 | in order: a leading '_' raises AttributeError, then an unknown name raises ValueError, then an unset required variable raises ValueError, each exactly then |
| `Env.LookupUnset` | pyutils/env.py:26-29 | an unset optional variable gives the declared default, unconverted |
| `Env.LookupSet` | pyutils/env.py:26-33 | a set variable gives its text converted to the declared type, whatever the default |
| `Env.LookupOwnEntry` | pyutils/env.py:25 | a lookup depends only on its own name's entry |
| `Env.ParseIntStr` | pyutils/env.py:33 | `int()` reads back the decimal text of any integer |
| `Env.ParseIntBlanks` | pyutils/env.py:33 | `int()` reads the decimal text of any integer with any blanks on either side as that integer |
| `Env.ParseNumeral` | pyutils/env.py:33 | any digit string reads as its decimal value, and with "+" or "-" in front as that value or its negation |
| `Env.ParseIntUnderscore` | pyutils/env.py:33 | a single "_" between two digit groups is ignored |
| `Env.ParseIntBadUnderscores` | pyutils/env.py:33 | a doubled "_" between digit groups, or a trailing "_", makes `int()` fail |
| `Env.DeclareLastWins` | pyutils/env.py:9-15 | after several declarations, a name holds its last declaration |
| `Env.DeclareAgain` | website/app.py:5 | declaring WEBSITE_SECRET_KEY again with the same entry (connect/website.py:8 does) changes nothing |

## Left out

- Redis expiry as real time: a time-to-live is a stored attribute. Keys
  expiring on their own are modelled only as a scanned key that is missing
  when the worker reads it.
- `scan_iter` concurrency: each scan is a key sequence fixed when it starts.
  It is a parameter of the pass (`scan1`, `scan2`).
- Cloudflare HTTP calls: the account and zone are in-memory collections.
  - A tunnel delete fails for ids in the `undeletable` set, standing in for
    `CloudFlareAPIError`.
  - A DNS delete fails for a record that is not there.
  - Failures of the list, create, configure and DNS-create calls are not
    modelled. In the source they would end the worker.
- `os.urandom`, `uuid4` and the remote's new ids: parameters of the model.
  - `Fresh` supplies the tunnel id, secret and DNS record id of each
    provisioning.
  - The connector id is passed to `ComposeClaims`.
- JWT signing (HS256), Jinja template rendering and the `ss_password` of
  `get_compose_file` are foreign code. Only the token's claims are modelled.
- The worker's process shell: signal handling, `keep_running`, the sleep
  itself and logging. One pass is modelled; the sleep length is reported.
- JSON serialization of tunnel records: records are a datatype. `json.dumps`
  is modelled only for the iOS plugin options.
- `urlparse` and `parse_qs`: their results are inputs. Reading `port` is
  an input with three outcomes (none, a number, a ValueError); which port
  texts make it raise is not modelled. The plugin value is
  taken after `parse_qs` has percent-decoded it. For the username the model
  follows `urlparse` on an `ss://` URL only as far as the network location
  and its last "@": stripping of blanks and of tab and newline characters,
  bracketed hosts and other schemes are not modelled.
- `Env.Convert`: models `var_type` for `int` and `str` only. `int()` accepts
  an ASCII sign, ASCII digits with single underscores, and ASCII blanks around
  them. Unicode digits and blanks are not modelled.
- `load_dotenv` and `os.environ`: the environment is a map passed in.
- `test_android_url` and `main` of sstester/tester.py: subprocesses, HTTP
  through a SOCKS proxy, timing, scraping, a process pool and a Redis write.
  `SsUrlParseError` is the `SsUrlParseError` constructor of `ParseFailure`.
- client/client.py, client/web.py, api/app.py, connect/website.py,
  website/app.py, pyutils/redisutils.py and pyutils/logutils.py: HTTP, Flask,
  file writes, connection retries and logging set-up are not part of this
  model.
- Token verification (`InvalidToken`, `UnsupportedVersion`): the repository
  has no verifying code.

## Findings

| source | as written | input that shows it | evidently intended | confidence | as-written member | corrected member |
|---|---|---|---|---|---|---|
| connect/worker.py:155-156 | `tunnel.get('cfd_creds', {})` returns None for a record whose `cfd_creds` is stored as null, and `.get('TunnelID')` on None raises AttributeError | a pass that rejects leaves a rejected record with null credentials; the same pass's active-id loop then reaches it and the worker stops. A record still pending in the second scan does the same | records without credentials contribute no tunnel id, as the `{}` default shows | high; not executed | `Worker.RejectingIterationStops` | `Worker.ActiveIdsMembers` |
| pyutils/sslinks.py:8 | the Android link's userinfo is standard base64, whose alphabet holds "/"; `urlparse` ends the network location at that "/", so the tester finds no username and classifies the link "other" (sstester/tester.py:29-33) | method "a" and password "?" give the userinfo "YTo/" and the link "ss://YTo/@h:1?plugin=..." | the userinfo in the URL-safe alphabet that `urlsafe_b64decode` reads (sstester/tester.py:55) | medium; not executed | `SsTester.SlashUserinfoLost` | `SsTester.ReadsUrlsafeAndroidLink` |

The as-written active-id loop is `Worker.ActiveIdsAsWritten`, and both
`Worker.IterationSpec` and the method `Worker.Iteration` use it;
`Worker.RejectedRecordCrashesAsWritten` exhibits the raise on a single
record. The corrected loop is `Worker.ActiveIds`, used by
`Worker.CorrectedIterationSpec`. `Worker.ActiveIdsAgree` and
`Worker.CorrectedIterationAgrees` show that the two agree wherever no
scanned record has null credentials.

The Android builder as written is `SsLinks.AndroidLink`; the corrected
builder is `SsLinks.UrlsafeAndroidLink`. `SsTester.SlashUserinfoExample`
gives the credentials that hit the "/".
