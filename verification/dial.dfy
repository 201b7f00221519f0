/**
 * The dial command's core (dial.go): expanding one target into the
 * addresses to probe, probing each over TCP or TLS, and the row each
 * successful probe prints.
 */
module Dial {
  import opened Returns
  import Text
  import Options
  import Net
  import Schedule

  /** The host part of a target: everything before its first ':'. */
  function HostOf(target: string): string {
    Text.Split(target, ':')[0]
  }

  /** The port part of a target: its second ':'-separated field. */
  function PortOf(target: string): string
    requires ':' in target
  {
    Text.Split(target, ':')[1]
  }

  /**
   * A target splits into the text before its first ':' and the text between
   * that ':' and the next one (or the end); a plain `host:port` gives back
   * exactly its host and port.
   */
  lemma TargetFields(target: string)
    requires ':' in target
    ensures var h, p := HostOf(target), PortOf(target);
      && ':' !in h && ':' !in p
      && |h| + 1 + |p| <= |target|
      && target == h + ":" + p + target[|h| + 1 + |p|..]
      && (|h| + 1 + |p| < |target| ==> target[|h| + 1 + |p|] == ':')
  {
    Text.SplitSecond(target, ':');
  }

  /** `host:port` with colon-free parts splits back into exactly that host and port. */
  lemma HostPortRoundTrip(host: string, port: string)
    requires ':' !in host && ':' !in port
    ensures ':' in host + ":" + port
    ensures HostOf(host + ":" + port) == host
    ensures PortOf(host + ":" + port) == port
  {
    var t := host + ":" + port;
    assert t[|host|] == ':';
    assert Text.Join([host, port], [':']) == t;
    Text.SplitJoin([host, port], ':');
  }

  /** Each resolved host with the original port re-attached, in resolver order. */
  function WithPort(hosts: seq<string>, port: string): (addrs: seq<string>)
    ensures |addrs| == |hosts|
    ensures forall j :: 0 <= j < |hosts| ==> addrs[j] == hosts[j] + ":" + port
  {
    if |hosts| == 0 then []
    else [hosts[0] + ":" + port] + WithPort(hosts[1..], port)
  }

  /**
   * The addresses to probe for a target. Without sniffing the target itself
   * is the only address and nothing is resolved; with sniffing the host part
   * is resolved and every resolved host gets the target's port, or the
   * lookup error is returned and nothing is probed.
   */
  function Expand(target: string, sniff: bool, env: Net.Env): (r: Result<seq<string>, string>)
    requires sniff ==> ':' in target
    ensures !sniff ==> r == Ok([target])
    ensures sniff ==> (r.Err? <==> env.lookupHost(HostOf(target)).result.Err?)
    ensures sniff && r.Err? ==> r.error == env.lookupHost(HostOf(target)).result.error
    ensures sniff && r.Ok? ==>
      var hosts := env.lookupHost(HostOf(target)).result.value;
      && |r.value| == |hosts|
      && forall j :: 0 <= j < |hosts| ==> r.value[j] == hosts[j] + ":" + PortOf(target)
  {
    if sniff then
      match env.lookupHost(HostOf(target)).result
      case Err(e) => Err(e)
      case Ok(hosts) => Ok(WithPort(hosts, PortOf(target)))
    else Ok([target])
  }

  /**
   * With sniffing, every expanded address of a colon-free resolved host
   * splits back into that host and the target's original port.
   */
  lemma ExpandRoundTrip(target: string, env: Net.Env, j: nat)
    requires ':' in target
    requires Expand(target, true, env).Ok?
    requires j < |Expand(target, true, env).value|
    requires ':' !in env.lookupHost(HostOf(target)).result.value[j]
    ensures var addr := Expand(target, true, env).value[j];
      && ':' in addr
      && HostOf(addr) == env.lookupHost(HostOf(target)).result.value[j]
      && PortOf(addr) == PortOf(target)
  {
    TargetFields(target);
    HostPortRoundTrip(env.lookupHost(HostOf(target)).result.value[j], PortOf(target));
  }

  /** The row a successful probe prints. */
  datatype ProbeRow =
    | TcpRow(target: string, tcp: int, ip: string, names: seq<string>)
    | TlsRow(target: string, tcp: int, tls: int, total: int, ip: string,
             version: string, alpn: string, cipher: string, names: seq<string>)

  /**
   * The cells of the line a probe prints, left to right: the target, the
   * labelled times, the peer IP, for TLS the version, ALPN protocol and
   * cipher suite, and the reverse names joined by ", ".
   */
  function ProbeCells(row: ProbeRow, durationText: int -> string): seq<string> {
    match row
    case TcpRow(target, tcp, ip, names) =>
      [target, "tcp:" + durationText(tcp), ip, Text.Join(names, ", ")]
    case TlsRow(target, tcp, tls, total, ip, version, alpn, cipher, names) =>
      [target, "tcp:" + durationText(tcp), "tls:" + durationText(tls), "total:" + durationText(total),
       ip, version, alpn, cipher, Text.Join(names, ", ")]
  }

  /** The TLS line: nine cells joined by tabs. */
  lemma TlsJoin(cells: seq<string>)
    requires |cells| == 9
    ensures Text.Join(cells, "\t") == cells[0] + "\t" + cells[1] + "\t" + cells[2] + "\t" + cells[3] + "\t"
      + cells[4] + "\t" + cells[5] + "\t" + cells[6] + "\t" + cells[7] + "\t" + cells[8]
  {
    assert cells == cells[..9];
    assert cells[..4] == [cells[0], cells[1], cells[2], cells[3]];
    Text.JoinFour(cells[0], cells[1], cells[2], cells[3], "\t");
    Text.JoinPrefix(cells, 5, "\t");
    Text.JoinPrefix(cells, 6, "\t");
    Text.JoinPrefix(cells, 7, "\t");
    Text.JoinPrefix(cells, 8, "\t");
    Text.JoinPrefix(cells, 9, "\t");
  }

  /**
   * The line `dialTcp` or `dialTls` prints for a row, without its newline:
   * its cells joined by tabs, four for TCP and nine for TLS.
   */
  function ProbeLine(row: ProbeRow, durationText: int -> string): (line: string)
    ensures line == Text.Join(ProbeCells(row, durationText), "\t")
  {
    var c := ProbeCells(row, durationText);
    if row.TcpRow? then
      assert c == [c[0], c[1], c[2], c[3]];
      Text.JoinFour(c[0], c[1], c[2], c[3], "\t");
      c[0] + "\t" + c[1] + "\t" + c[2] + "\t" + c[3]
    else
      TlsJoin(c);
      c[0] + "\t" + c[1] + "\t" + c[2] + "\t" + c[3] + "\t" + c[4] + "\t" + c[5] + "\t" + c[6] + "\t" + c[7] + "\t" + c[8]
  }

  /**
   * When no cell holds a tab, the printed line splits back into its cells:
   * four columns for a TCP probe, nine for a TLS probe.
   */
  lemma ProbeColumns(row: ProbeRow, durationText: int -> string)
    requires forall i :: 0 <= i < |ProbeCells(row, durationText)| ==> '\t' !in ProbeCells(row, durationText)[i]
    ensures Text.Split(ProbeLine(row, durationText), '\t') == ProbeCells(row, durationText)
    ensures |Text.Split(ProbeLine(row, durationText), '\t')| == if row.TcpRow? then 4 else 9
  {
    Text.SplitJoin(ProbeCells(row, durationText), '\t');
  }

  /**
   * The peer IP as reported: the remote-address text before its first ':'.
   * It is the longest colon-free prefix of the address.
   */
  function PeerIp(remoteAddr: string): (ip: string)
    ensures |ip| <= |remoteAddr| && ip == remoteAddr[..|ip|]
    ensures ':' !in ip
    ensures |ip| < |remoteAddr| ==> remoteAddr[|ip|] == ':'
  {
    Text.SplitHead(remoteAddr, ':');
    Text.Split(remoteAddr, ':')[0]
  }

  /** Go's table of TLS protocol version codes and their labels. */
  const TlsVersions: map<int, string> :=
    map[0x0301 := "TLS1.0", 0x0302 := "TLS1.1", 0x0303 := "TLS1.2", 0x0304 := "TLS1.3"]

  /**
   * The label of a negotiated TLS version: "TLS1.0" to "TLS1.3" for codes
   * 0x0301 to 0x0304, and the empty string (the map's zero value) for any
   * other code.
   */
  function VersionLabel(version: int): (name: string)
    ensures name != "" <==> 0x0301 <= version <= 0x0304
    ensures name != "" ==> name == "TLS1." + [('0' as int + (version - 0x0301)) as char]
  {
    if version in TlsVersions then TlsVersions[version] else ""
  }

  /**
   * The client configuration for one TLS probe: the given verification, and
   * as server name the target up to its first ':' (all of it when it has
   * none), whatever the port or later fields.
   */
  function WithServerName(config: Options.TlsConfig, target: string): (c: Options.TlsConfig)
    ensures c.verification == config.verification
    ensures |c.serverName| <= |target| && c.serverName == target[..|c.serverName|]
    ensures ':' !in c.serverName
    ensures |c.serverName| < |target| ==> target[|c.serverName|] == ':'
  {
    Text.SplitHead(target, ':');
    config.(serverName := HostOf(target))
  }

  /**
   * `dialTcp`: dial the address; on failure return the error and print
   * nothing; otherwise report the target, the connect time, the peer IP and
   * its reverse names (a reverse-lookup error only leaves them out).
   */
  function ProbeTcp(network: string, target: string, addr: string, env: Net.Env): (r: Result<ProbeRow, string>)
    ensures var attempt := env.dial(network, addr);
      && (r.Err? <==> attempt.result.Err?)
      && (r.Err? ==> r.error == attempt.result.error)
      && (r.Ok? ==>
           && r.value.TcpRow?
           && r.value.target == target
           && r.value.tcp == attempt.end - attempt.start
           && (attempt.start <= attempt.end ==> r.value.tcp >= 0)
           && r.value.ip == PeerIp(attempt.result.value)
           && r.value.names == env.lookupAddr(r.value.ip).names)
  {
    var attempt := env.dial(network, addr);
    match attempt.result
    case Err(e) => Err(e)
    case Ok(remote) =>
      var ip := PeerIp(remote);
      Ok(TcpRow(target, attempt.end - attempt.start, ip, env.lookupAddr(ip).names))
  }

  /**
   * `dialTls`: dial the address; on failure return the error; otherwise run
   * the handshake with SNI set to the target's host and report the connect,
   * handshake and total times, the peer IP, the negotiated version label,
   * ALPN protocol and cipher suite, and the reverse names. The handshake's
   * own error is not checked: the row shows whatever state it left.
   */
  function ProbeTls(network: string, target: string, addr: string, config: Options.TlsConfig, env: Net.Env)
    : (r: Result<ProbeRow, string>)
    ensures var attempt := env.dial(network, addr);
      var hs := env.handshake(addr, WithServerName(config, target));
      && (r.Err? <==> attempt.result.Err?)
      && (r.Err? ==> r.error == attempt.result.error)
      && (r.Ok? ==>
           && r.value.TlsRow?
           && r.value.target == target
           && r.value.total == r.value.tcp + r.value.tls
           && r.value.tcp == attempt.end - attempt.start
           && r.value.tls == hs.end - attempt.end
           && (attempt.start <= attempt.end <= hs.end ==>
                 0 <= r.value.tcp <= r.value.total && 0 <= r.value.tls <= r.value.total)
           && r.value.ip == PeerIp(attempt.result.value)
           && r.value.version == VersionLabel(hs.state.version)
           && r.value.alpn == hs.state.negotiatedProtocol
           && r.value.cipher == env.cipherSuiteName(hs.state.cipherSuite)
           && r.value.names == env.lookupAddr(r.value.ip).names)
  {
    var attempt := env.dial(network, addr);
    match attempt.result
    case Err(e) => Err(e)
    case Ok(remote) =>
      var hs := env.handshake(addr, WithServerName(config, target));
      var ip := PeerIp(remote);
      Ok(TlsRow(target,
                attempt.end - attempt.start,
                hs.end - attempt.end,
                hs.end - attempt.start,
                ip,
                VersionLabel(hs.state.version),
                hs.state.negotiatedProtocol,
                env.cipherSuiteName(hs.state.cipherSuite),
                env.lookupAddr(ip).names))
  }

  /**
   * One probe goroutine: plain TCP without a TLS configuration, TLS with one.
   * It fails exactly when dialling the address fails, with the dialer's error.
   */
  function Probe(network: string, target: string, addr: string, config: Option<Options.TlsConfig>, env: Net.Env)
    : (r: Result<ProbeRow, string>)
    ensures r.Err? <==> env.dial(network, addr).result.Err?
    ensures r.Err? ==> r.error == env.dial(network, addr).result.error
    ensures r.Ok? ==> r.value.target == target && (r.value.TcpRow? <==> config.None?)
  {
    match config
    case None => ProbeTcp(network, target, addr, env)
    case Some(c) => ProbeTls(network, target, addr, c, env)
  }

  /** The outcome of probing each address, in address order. */
  function Probes(network: string, target: string, addrs: seq<string>, config: Option<Options.TlsConfig>, env: Net.Env)
    : (rs: seq<Result<ProbeRow, string>>)
    ensures |rs| == |addrs|
    ensures forall k :: 0 <= k < |addrs| ==> rs[k] == Probe(network, target, addrs[k], config, env)
  {
    seq(|addrs|, k requires 0 <= k < |addrs| => Probe(network, target, addrs[k], config, env))
  }

  /**
   * The rows of the probes of `addrs`, in address order: one per address
   * whose dial succeeded; a failed dial's error is dropped.
   */
  function ProbeAll(network: string, target: string, addrs: seq<string>, config: Option<Options.TlsConfig>, env: Net.Env)
    : (rows: seq<ProbeRow>)
    ensures |rows| == OkCount(Probes(network, target, addrs, config, env)) <= |addrs|
    ensures forall row :: multiset(rows)[row] == multiset(Probes(network, target, addrs, config, env))[Ok(row)]
    ensures forall row :: row in rows <==> Ok(row) in Probes(network, target, addrs, config, env)
    ensures |rows| == |addrs| <==> forall k :: 0 <= k < |addrs| ==> Probes(network, target, addrs, config, env)[k].Ok?
    ensures forall row :: row in rows ==> row.target == target && (row.TcpRow? <==> config.None?)
  {
    var outcomes := Probes(network, target, addrs, config, env);
    SuccessCounts(outcomes);
    Successes(outcomes)
  }

  /**
   * `Runner.Dial` for one target: expand it, probe every address
   * concurrently and print one row per successful probe, in the order the
   * probes finish (`picks`). Only a failed sniff lookup is an error; a
   * failed dial just prints nothing. The target is split into host and
   * port only when sniffing, so a target without a port (a unix socket
   * path) is dialled verbatim; see `DialAsWritten` for the source's order.
   */
  function Dial(network: string, target: string, config: Option<Options.TlsConfig>, sniff: bool, env: Net.Env, picks: seq<nat>)
    : (r: Result<seq<ProbeRow>, string>)
    requires sniff ==> ':' in target
    ensures r.Err? <==> sniff && env.lookupHost(HostOf(target)).result.Err?
    ensures r.Err? ==> r.error == env.lookupHost(HostOf(target)).result.error
    ensures r.Ok? ==> forall row :: row in r.value ==> row.target == target && (row.TcpRow? <==> config.None?)
    ensures r.Ok? ==> multiset(r.value) == multiset(ProbeAll(network, target, Expand(target, sniff, env).value, config, env))
  {
    match Expand(target, sniff, env)
    case Err(e) => Err(e)
    case Ok(addrs) =>
      var rows := ProbeAll(network, target, addrs, config, env);
      var printed := Schedule.Arrange(rows, picks);
      assert forall row :: row in printed ==> row in multiset(rows);
      Ok(printed)
  }

  /** Without sniffing exactly one address is probed: one row if its dial succeeds, none otherwise. */
  lemma DialVerbatim(network: string, target: string, config: Option<Options.TlsConfig>, env: Net.Env, picks: seq<nat>)
    ensures Dial(network, target, config, false, env, picks).Ok?
    ensures var rows := Dial(network, target, config, false, env, picks).value;
      var probe := Probe(network, target, target, config, env);
      && (probe.Ok? ==> rows == [probe.value])
      && (probe.Err? ==> rows == [])
  {
    var probe := Probe(network, target, target, config, env);
    var rows := ProbeAll(network, target, [target], config, env);
    assert rows == if probe.Ok? then [probe.value] else [];
    assert Schedule.Arrange(rows, picks) == rows;
  }

  /**
   * With sniffing and a successful lookup of N hosts, N probes run, one of
   * `host:port` per resolved host, and the target prints exactly one row per
   * probe whose dial succeeded: as many rows as successes, each row as often
   * as a probe produced it.
   */
  lemma DialFanOut(network: string, target: string, config: Option<Options.TlsConfig>, env: Net.Env, picks: seq<nat>)
    requires ':' in target
    requires env.lookupHost(HostOf(target)).result.Ok?
    ensures var hosts := env.lookupHost(HostOf(target)).result.value;
      var probes := Probes(network, target, WithPort(hosts, PortOf(target)), config, env);
      var r := Dial(network, target, config, true, env, picks);
      && r.Ok?
      && |probes| == |hosts|
      && (forall j :: 0 <= j < |hosts| ==> probes[j] == Probe(network, target, hosts[j] + ":" + PortOf(target), config, env))
      && |r.value| == OkCount(probes)
      && (forall row :: multiset(r.value)[row] == multiset(probes)[Ok(row)])
      && (|r.value| == |hosts| <==> forall j :: 0 <= j < |hosts| ==> probes[j].Ok?)
  {
    var hosts := env.lookupHost(HostOf(target)).result.value;
    var addrs := Expand(target, true, env).value;
    assert addrs == WithPort(hosts, PortOf(target));
    var r := Dial(network, target, config, true, env, picks);
    var rows := ProbeAll(network, target, addrs, config, env);
    assert |r.value| == |rows| by {
      assert |multiset(r.value)| == |multiset(rows)|;
    }
  }

  /**
   * `Runner.Dial` as the source orders it: the target is split and its
   * second field read before the sniff flag is looked at, so a target with
   * no ':' stops the program with an index-out-of-range panic (`None`)
   * even when nothing needs resolving.
   */
  function DialAsWritten(network: string, target: string, config: Option<Options.TlsConfig>, sniff: bool,
                         env: Net.Env, picks: seq<nat>)
    : (r: Option<Result<seq<ProbeRow>, string>>)
    ensures r.None? <==> ':' !in target
    ensures r.Some? ==> r.value == Dial(network, target, config, sniff, env, picks)
    ensures ':' !in target && !sniff ==> r.None? && Dial(network, target, config, false, env, picks).Ok?
  {
    if ':' !in target then None
    else Some(Dial(network, target, config, sniff, env, picks))
  }

  /**
   * A unix socket path, which the dial command documents as a valid target,
   * panics as written; without sniffing the corrected `Dial` probes it
   * verbatim and prints its row when the dial succeeds.
   */
  lemma UnixSocketPath(config: Option<Options.TlsConfig>, env: Net.Env, picks: seq<nat>)
    ensures DialAsWritten("unix", "/var/run/app.sock", config, false, env, picks) == None
    ensures var probe := Probe("unix", "/var/run/app.sock", "/var/run/app.sock", config, env);
      var r := Dial("unix", "/var/run/app.sock", config, false, env, picks);
      && r.Ok?
      && (probe.Ok? ==> r.value == [probe.value])
  {
    assert ':' !in "/var/run/app.sock";
    DialVerbatim("unix", "/var/run/app.sock", config, env, picks);
  }

  /** The schedule of the `k`-th target's probes. */
  function PicksAt(picks: seq<seq<nat>>, k: nat): seq<nat> {
    if k < |picks| then picks[k] else []
  }

  /** The targets: the arguments when there are any, otherwise the input lines. */
  function Targets(args: seq<string>, stdin: seq<string>): seq<string> {
    if |args| > 0 then args else stdin
  }

  /** The sniff flag; an error reading it is dropped and leaves the zero value, false. */
  function Sniff(flags: Options.FlagSet): bool {
    Options.GetBool(flags, "sniff").GetOr(false)
  }

  /**
   * The dial command: read the network and the TLS configuration (either
   * error ends the command), then dial the targets one after another. Each
   * target's rows are all printed before the next target is dialled, and a
   * target's error is printed in its place.
   */
  function Command(args: seq<string>, flags: Options.FlagSet, stdin: seq<string>,
                   readFile: string -> Result<seq<Text.byte>, string>, env: Net.Env, picks: seq<seq<nat>>)
    : (r: Result<seq<Result<seq<ProbeRow>, string>>, Options.OptionError>)
    requires Sniff(flags) ==> forall t :: t in Targets(args, stdin) ==> ':' in t
    ensures r.Err? <==> Options.GetNetwork(flags).Err? || Options.GetTlsConfig(flags, readFile).Err?
    ensures Options.GetNetwork(flags).Err? ==> r == Err(Options.GetNetwork(flags).error)
    ensures Options.GetNetwork(flags).Ok? && Options.GetTlsConfig(flags, readFile).Err? ==>
      r == Err(Options.GetTlsConfig(flags, readFile).error)
    ensures r.Ok? ==>
      var targets := Targets(args, stdin);
      && |r.value| == |targets|
      && forall k :: 0 <= k < |targets| ==>
           r.value[k] == Dial(Options.GetNetwork(flags).value, targets[k],
                              Options.GetTlsConfig(flags, readFile).value, Sniff(flags), env, PicksAt(picks, k))
  {
    match Options.GetNetwork(flags)
    case Err(e) => Err(e)
    case Ok(network) =>
      match Options.GetTlsConfig(flags, readFile)
      case Err(e) => Err(e)
      case Ok(config) =>
        var targets := Targets(args, stdin);
        var sniff := Sniff(flags);
        Ok(seq(|targets|, k requires 0 <= k < |targets| => Dial(network, targets[k], config, sniff, env, PicksAt(picks, k))))
  }

  /** What the dial command printed: one outcome per target dialled, and whether it then panicked. */
  datatype Dialled = Dialled(outcomes: seq<Result<seq<ProbeRow>, string>>, panicked: bool)

  /** How many targets the loop gets through before the first one with no ':'. */
  function ColonPrefix(targets: seq<string>): (n: nat)
    ensures n <= |targets|
    ensures forall j :: 0 <= j < n ==> ':' in targets[j]
    ensures n < |targets| ==> ':' !in targets[n]
  {
    if |targets| == 0 || ':' !in targets[0] then 0
    else 1 + ColonPrefix(targets[1..])
  }

  /**
   * The dial command as written: the flag errors of `Command`, then the
   * targets in order until the first one with no ':', where `Runner.Dial`
   * panics and the remaining targets are never dialled.
   */
  function CommandAsWritten(args: seq<string>, flags: Options.FlagSet, stdin: seq<string>,
                            readFile: string -> Result<seq<Text.byte>, string>, env: Net.Env, picks: seq<seq<nat>>)
    : (r: Result<Dialled, Options.OptionError>)
    ensures r.Err? <==> Options.GetNetwork(flags).Err? || Options.GetTlsConfig(flags, readFile).Err?
    ensures Options.GetNetwork(flags).Err? ==> r == Err(Options.GetNetwork(flags).error)
    ensures Options.GetNetwork(flags).Ok? && Options.GetTlsConfig(flags, readFile).Err? ==>
      r == Err(Options.GetTlsConfig(flags, readFile).error)
    ensures r.Ok? ==>
      var targets := Targets(args, stdin);
      var n := |r.value.outcomes|;
      && n <= |targets|
      && (r.value.panicked <==> exists t :: t in targets && ':' !in t)
      && (r.value.panicked ==> n < |targets| && ':' !in targets[n])
      && forall k :: 0 <= k < n ==>
           ':' in targets[k]
           && r.value.outcomes[k] == Dial(Options.GetNetwork(flags).value, targets[k],
                                         Options.GetTlsConfig(flags, readFile).value, Sniff(flags), env, PicksAt(picks, k))
  {
    match Options.GetNetwork(flags)
    case Err(e) => Err(e)
    case Ok(network) =>
      match Options.GetTlsConfig(flags, readFile)
      case Err(e) => Err(e)
      case Ok(config) =>
        var targets := Targets(args, stdin);
        var sniff := Sniff(flags);
        var n := ColonPrefix(targets);
        assert n < |targets| ==> targets[n] in targets;
        Ok(Dialled(seq(n, k requires 0 <= k < n => DialAsWritten(network, targets[k], config, sniff, env, PicksAt(picks, k)).value),
                   n < |targets|))
  }

  /**
   * When every target holds a ':' the corrected command and the code as
   * written print the same outcomes, and the program does not panic.
   */
  lemma AsWrittenAgrees(args: seq<string>, flags: Options.FlagSet, stdin: seq<string>,
                        readFile: string -> Result<seq<Text.byte>, string>, env: Net.Env, picks: seq<seq<nat>>)
    requires forall t :: t in Targets(args, stdin) ==> ':' in t
    ensures var r := Command(args, flags, stdin, readFile, env, picks);
      && (r.Err? ==> CommandAsWritten(args, flags, stdin, readFile, env, picks) == Err(r.error))
      && (r.Ok? ==> CommandAsWritten(args, flags, stdin, readFile, env, picks) == Ok(Dialled(r.value, false)))
  {
    var r := Command(args, flags, stdin, readFile, env, picks);
    var w := CommandAsWritten(args, flags, stdin, readFile, env, picks);
    if r.Ok? {
      var targets := Targets(args, stdin);
      assert !w.value.panicked;
      assert w.value.outcomes == r.value;
    }
  }

  /** A sniff flag that cannot be read behaves exactly like `--sniff=false`. */
  lemma SniffErrorIgnored(args: seq<string>, flags: Options.FlagSet, stdin: seq<string>,
                          readFile: string -> Result<seq<Text.byte>, string>, env: Net.Env, picks: seq<seq<nat>>)
    requires Options.GetBool(flags, "sniff").Err?
    ensures Command(args, flags, stdin, readFile, env, picks) ==
      Command(args, flags["sniff" := Options.BoolFlag(false)], stdin, readFile, env, picks)
  {
    var flags' := flags["sniff" := Options.BoolFlag(false)];
    assert Options.GetBool(flags', Options.UnixSocketFlag) == Options.GetBool(flags, Options.UnixSocketFlag);
    assert Options.GetBool(flags', Options.TlsFlag) == Options.GetBool(flags, Options.TlsFlag);
    assert Options.GetString(flags', Options.RootCaFlag) == Options.GetString(flags, Options.RootCaFlag);
    assert Sniff(flags') == Sniff(flags);
  }
}
