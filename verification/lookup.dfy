/**
 * The lookup command's core (lookup.go): choosing the addresses, resolving
 * each of them concurrently, and the tab-separated rows and diagnostics the
 * command prints.
 *
 * Each address's goroutine either prints one diagnostic line to the error
 * stream or, holding the address lock, one block to the output: a leading
 * row for the first IP, one row per further IP in the order their
 * goroutines finish, and a separator line. The lock keeps blocks whole; the
 * order of blocks and of rows inside a block is a schedule input.
 */
module Lookup {
  import opened Returns
  import Text
  import Options
  import Net
  import Schedule
  import IpGrep

  /** One printed row: the looked-up address, the lookup time, one IP and its names. */
  datatype Row = Row(host: string, time: int, ip: string, name: string)

  /** A failed forward lookup: the address, how long it took and the resolver's error text. */
  datatype Failure = Failure(host: string, time: int, err: string)

  /** What one address's goroutine produces. */
  datatype Answer = Failed(failure: Failure) | Resolved(rows: seq<Row>)

  /** Everything a run prints: the blocks on the output and the failures on the error stream, in print order. */
  datatype Output = Output(blocks: seq<seq<Row>>, failures: seq<Failure>)

  /** The line that closes every block: four empty cells. */
  const Separator: string := "\t\t\t"

  /** The time cell of a row: blank for a zero duration, otherwise the duration's text. */
  function TimeCell(time: int, durationText: int -> string): string {
    if time == 0 then "" else durationText(time)
  }

  /** The four cells of a row, left to right. */
  function Cells(r: Row, durationText: int -> string): seq<string> {
    [r.host, TimeCell(r.time, durationText), r.ip, r.name]
  }

  /**
   * `row.print` without its newline. A row with a zero time prints its host,
   * an empty time cell, its IP and its names; any other row prints the
   * duration's text in the time cell. Either way the line is the row's four
   * cells joined by tabs.
   */
  function RowLine(r: Row, durationText: int -> string): (line: string)
    ensures line == Text.Join(Cells(r, durationText), "\t")
  {
    Text.JoinFour(r.host, TimeCell(r.time, durationText), r.ip, r.name, "\t");
    if r.time == 0 then r.host + "\t\t" + r.ip + "\t" + r.name
    else r.host + "\t" + durationText(r.time) + "\t" + r.ip + "\t" + r.name
  }

  /** No cell of the row holds a tab. */
  predicate TabFree(r: Row, durationText: int -> string) {
    forall i :: 0 <= i < 4 ==> '\t' !in Cells(r, durationText)[i]
  }

  /** A row whose cells hold no tab splits back into exactly its four cells. */
  lemma RowColumns(r: Row, durationText: int -> string)
    requires TabFree(r, durationText)
    ensures Text.Split(RowLine(r, durationText), '\t') == Cells(r, durationText)
  {
    Text.SplitJoin(Cells(r, durationText), '\t');
  }

  /**
   * A row that continues a block (no host, zero time) leaves its first two
   * columns empty: its line splits into "", "", the IP and the names.
   */
  lemma FollowerColumns(ip: string, name: string, durationText: int -> string)
    requires '\t' !in ip && '\t' !in name
    ensures Text.Split(RowLine(Row("", 0, ip, name), durationText), '\t') == ["", "", ip, name]
  {
    RowColumns(Row("", 0, ip, name), durationText);
  }

  /** The separator has the shape of a row: it splits into four empty cells. */
  lemma SeparatorColumns()
    ensures Text.Split(Separator, '\t') == ["", "", "", ""]
  {
    var blank := Row("", 0, "", "");
    var noText := (t: int) => "";
    assert RowLine(blank, noText) == Separator;
    RowColumns(blank, noText);
  }

  /** A row with a non-empty IP never prints as the separator, so separators delimit blocks. */
  lemma RowIsNotSeparator(r: Row, durationText: int -> string)
    requires r.ip != "" && TabFree(r, durationText)
    ensures RowLine(r, durationText) != Separator
  {
    RowColumns(r, durationText);
    SeparatorColumns();
    assert Cells(r, durationText)[2] != "";
  }

  /** The diagnostic for a failed lookup, without its newline. */
  function DiagnosticLine(f: Failure, durationText: int -> string): (line: string)
    ensures line == Text.Join([f.host, durationText(f.time), "error resolving: " + f.err], "\t")
  {
    Text.JoinThree(f.host, durationText(f.time), "error resolving: " + f.err, "\t");
    f.host + "\t" + durationText(f.time) + "\terror resolving: " + f.err
  }

  /**
   * A diagnostic has three cells, the time always filled in (a zero
   * duration prints as its text, unlike in a row): it never splits into the
   * four cells of a row.
   */
  lemma DiagnosticColumns(f: Failure, durationText: int -> string)
    requires '\t' !in f.host && '\t' !in durationText(f.time) && '\t' !in f.err
    ensures Text.Split(DiagnosticLine(f, durationText), '\t') ==
      [f.host, durationText(f.time), "error resolving: " + f.err]
  {
    var last := "error resolving: " + f.err;
    assert forall i :: 0 <= i < |last| && last[i] == '\t' ==> i >= 17 && f.err[i - 17] == '\t';
    Text.SplitJoin([f.host, durationText(f.time), last], '\t');
  }

  /**
   * The name cell for an IP: empty without `--name`; with it, the reverse
   * lookup's error text when it failed and its names joined by spaces
   * otherwise.
   */
  function NameOf(ip: string, withName: bool, env: Net.Env): (name: string)
    ensures !withName ==> name == ""
    ensures withName && env.lookupAddr(ip).err.Some? ==> name == env.lookupAddr(ip).err.value
  {
    if !withName then ""
    else
      var a := env.lookupAddr(ip);
      match a.err
      case Some(e) => e
      case None => Text.Join(a.names, " ")
  }

  /** With `--name` and a successful reverse lookup, the name cell splits back into the names. */
  lemma NamesRoundTrip(ip: string, env: Net.Env)
    requires env.lookupAddr(ip).err.None? && |env.lookupAddr(ip).names| >= 1
    requires forall i :: 0 <= i < |env.lookupAddr(ip).names| ==> ' ' !in env.lookupAddr(ip).names[i]
    ensures Text.Split(NameOf(ip, true, env), ' ') == env.lookupAddr(ip).names
  {
    Text.SplitJoin(env.lookupAddr(ip).names, ' ');
  }

  /** Go's resolver reports success only with at least one address. */
  predicate HostAnswers(env: Net.Env, ad: string) {
    env.lookupHost(ad).result.Ok? ==> |env.lookupHost(ad).result.value| > 0
  }

  /** The time a forward lookup took. */
  function Elapsed(env: Net.Env, ad: string): int {
    env.lookupHost(ad).end - env.lookupHost(ad).start
  }

  /**
   * The rows of the IPs after the first: their IP column is exactly `ips`,
   * in order, and each row has no host, a zero time and its own IP's name
   * cell.
   */
  function Followers(ips: seq<string>, withName: bool, env: Net.Env): (rows: seq<Row>)
    ensures IpsOf(rows) == ips
    ensures forall j :: 0 <= j < |rows| ==>
      rows[j].host == "" && rows[j].time == 0 && rows[j].name == NameOf(rows[j].ip, withName, env)
  {
    seq(|ips|, j requires 0 <= j < |ips| => Row("", 0, ips[j], NameOf(ips[j], withName, env)))
  }

  /** The IPs of a block are the leading IP followed by a reordering of the others. */
  lemma FollowersIps(ips: seq<string>, later: seq<string>, lead: Row, withName: bool, env: Net.Env)
    requires |ips| > 0 && lead.ip == ips[0] && multiset(later) == multiset(ips[1..])
    ensures multiset(IpsOf([lead] + Followers(later, withName, env))) == multiset(ips)
  {
    calc {
      multiset(IpsOf([lead] + Followers(later, withName, env)));
      { assert IpsOf([lead] + Followers(later, withName, env)) == [ips[0]] + later; }
      multiset([ips[0]] + later);
      multiset([ips[0]]) + multiset(ips[1..]);
      { assert ips == [ips[0]] + ips[1..]; }
      multiset(ips);
    }
  }

  /** The IP column of some rows. */
  function IpsOf(rows: seq<Row>): (ips: seq<string>)
    ensures |ips| == |rows| && forall j :: 0 <= j < |rows| ==> ips[j] == rows[j].ip
  {
    seq(|rows|, j requires 0 <= j < |rows| => rows[j].ip)
  }

  /**
   * What a block printed for address `ad` must be: one row per resolved IP,
   * each IP as often as the resolver returned it; the first row carries the
   * address, the lookup time and the resolver's first IP; every other row
   * has no host and a zero time; each row's name cell belongs to its IP.
   */
  predicate BlockOf(rows: seq<Row>, ad: string, withName: bool, env: Net.Env) {
    var look := env.lookupHost(ad);
    && look.result.Ok?
    && |rows| == |look.result.value| > 0
    && rows[0] == Row(ad, Elapsed(env, ad), look.result.value[0], NameOf(look.result.value[0], withName, env))
    && multiset(IpsOf(rows)) == multiset(look.result.value)
    && forall j :: 1 <= j < |rows| ==> rows[j] == Row("", 0, rows[j].ip, NameOf(rows[j].ip, withName, env))
  }

  /** The failure reported for an address whose forward lookup failed. */
  predicate FailureOf(f: Failure, env: Net.Env) {
    var look := env.lookupHost(f.host);
    look.result.Err? && f == Failure(f.host, Elapsed(env, f.host), look.result.error)
  }

  /**
   * One address's goroutine: resolve it; on error report a failure and
   * print no row; otherwise print the leading row, then the rows of the
   * remaining IPs in the order their goroutines finish (`picks`).
   */
  function Resolve(ad: string, withName: bool, env: Net.Env, picks: seq<nat>): (a: Answer)
    requires HostAnswers(env, ad)
    ensures a.Failed? <==> env.lookupHost(ad).result.Err?
    ensures a.Failed? ==> a.failure.host == ad && FailureOf(a.failure, env)
    ensures a.Resolved? ==> BlockOf(a.rows, ad, withName, env)
  {
    match env.lookupHost(ad).result
    case Err(e) => Failed(Failure(ad, Elapsed(env, ad), e))
    case Ok(ips) =>
      var later := Schedule.Arrange(ips[1..], picks);
      var lead := Row(ad, Elapsed(env, ad), ips[0], NameOf(ips[0], withName, env));
      var rows := [lead] + Followers(later, withName, env);
      FollowersIps(ips, later, lead, withName, env);
      Resolved(rows)
  }

  /** The address a block is about: the host of its first row. */
  function Leader(rows: seq<Row>): string {
    if |rows| > 0 then rows[0].host else ""
  }

  /** The address of every block, in print order. */
  function Leaders(blocks: seq<seq<Row>>): (hosts: seq<string>)
    ensures |hosts| == |blocks|
    ensures forall k :: 0 <= k < |blocks| ==> hosts[k] == Leader(blocks[k])
  {
    seq(|blocks|, k requires 0 <= k < |blocks| => Leader(blocks[k]))
  }

  /** The addresses of the failures, in print order. */
  function FailedHosts(failures: seq<Failure>): (hosts: seq<string>)
    ensures |hosts| == |failures|
    ensures forall k :: 0 <= k < |failures| ==> hosts[k] == failures[k].host
  {
    seq(|failures|, k requires 0 <= k < |failures| => failures[k].host)
  }

  /** The schedule of the rows of the `k`-th address to finish. */
  function RowPicks(rowPicks: seq<seq<nat>>): seq<nat> {
    if |rowPicks| > 0 then rowPicks[0] else []
  }

  /**
   * The goroutines of `order` finishing one after another: each failed
   * address adds a failure, each resolved one a whole block.
   */
  function Emit(order: seq<string>, withName: bool, env: Net.Env, rowPicks: seq<seq<nat>>): (out: Output)
    requires forall ad :: ad in order ==> HostAnswers(env, ad)
    ensures |out.blocks| + |out.failures| == |order|
    decreases |order|
  {
    if |order| == 0 then Output([], [])
    else
      var rest := Emit(order[1..], withName, env, LaterPicks(rowPicks));
      match Resolve(order[0], withName, env, RowPicks(rowPicks))
      case Failed(f) => Output(rest.blocks, [f] + rest.failures)
      case Resolved(rows) => Output([rows] + rest.blocks, rest.failures)
  }

  /** The row schedules of the addresses that finish after the first. */
  function LaterPicks(rowPicks: seq<seq<nat>>): seq<seq<nat>> {
    if |rowPicks| > 0 then rowPicks[1..] else []
  }

  /** Every block is what its address's lookup dictates, and so is every failure. */
  predicate Faithful(out: Output, withName: bool, env: Net.Env) {
    && (forall k :: 0 <= k < |out.blocks| ==> BlockOf(out.blocks[k], Leader(out.blocks[k]), withName, env))
    && (forall f :: f in out.failures ==> FailureOf(f, env))
  }

  /** Every address is accounted for exactly once: as the leader of a block or as a failure. */
  predicate Accounts(out: Output, order: seq<string>) {
    multiset(Leaders(out.blocks)) + multiset(FailedHosts(out.failures)) == multiset(order)
  }

  /** Each block and each failure that `Emit` produces matches its address's lookup. */
  lemma {:induction false} EmitFaithful(order: seq<string>, withName: bool, env: Net.Env, rowPicks: seq<seq<nat>>)
    requires forall ad :: ad in order ==> HostAnswers(env, ad)
    ensures Faithful(Emit(order, withName, env, rowPicks), withName, env)
    decreases |order|
  {
    if |order| > 0 {
      var rest := Emit(order[1..], withName, env, LaterPicks(rowPicks));
      EmitFaithful(order[1..], withName, env, LaterPicks(rowPicks));
      match Resolve(order[0], withName, env, RowPicks(rowPicks))
      case Failed(f) =>
        assert Emit(order, withName, env, rowPicks) == Output(rest.blocks, [f] + rest.failures);
      case Resolved(rows) =>
        assert Emit(order, withName, env, rowPicks) == Output([rows] + rest.blocks, rest.failures);
        FaithfulCons(rows, rest, withName, env);
    }
  }

  /** A faithful output stays faithful when a block for its own leader is put in front. */
  lemma FaithfulCons(rows: seq<Row>, out: Output, withName: bool, env: Net.Env)
    requires BlockOf(rows, Leader(rows), withName, env) && Faithful(out, withName, env)
    ensures Faithful(Output([rows] + out.blocks, out.failures), withName, env)
  {
    var blocks := [rows] + out.blocks;
    forall k | 0 <= k < |blocks|
      ensures BlockOf(blocks[k], Leader(blocks[k]), withName, env)
    {
      if k > 0 { assert blocks[k] == out.blocks[k - 1]; }
    }
  }

  /** `Emit` accounts for every address of `order` exactly once. */
  lemma {:induction false} EmitAccounts(order: seq<string>, withName: bool, env: Net.Env, rowPicks: seq<seq<nat>>)
    requires forall ad :: ad in order ==> HostAnswers(env, ad)
    ensures Accounts(Emit(order, withName, env, rowPicks), order)
    decreases |order|
  {
    if |order| > 0 {
      var ad := order[0];
      var rest := Emit(order[1..], withName, env, LaterPicks(rowPicks));
      EmitAccounts(order[1..], withName, env, LaterPicks(rowPicks));
      assert multiset(order) == multiset{ad} + multiset(order[1..]) by {
        assert order == [ad] + order[1..];
      }
      match Resolve(ad, withName, env, RowPicks(rowPicks))
      case Failed(f) =>
        assert Emit(order, withName, env, rowPicks) == Output(rest.blocks, [f] + rest.failures);
        FailedHostsCons(f, rest.failures);
      case Resolved(rows) =>
        assert Emit(order, withName, env, rowPicks) == Output([rows] + rest.blocks, rest.failures);
        assert Leader(rows) == ad;
        LeadersCons(rows, rest.blocks);
    }
  }

  lemma LeadersCons(rows: seq<Row>, blocks: seq<seq<Row>>)
    ensures multiset(Leaders([rows] + blocks)) == multiset{Leader(rows)} + multiset(Leaders(blocks))
  {
    assert Leaders([rows] + blocks) == [Leader(rows)] + Leaders(blocks);
  }

  lemma FailedHostsCons(f: Failure, failures: seq<Failure>)
    ensures multiset(FailedHosts([f] + failures)) == multiset{f.host} + multiset(FailedHosts(failures))
  {
    assert FailedHosts([f] + failures) == [f.host] + FailedHosts(failures);
  }

  /**
   * The addresses to look up: the arguments when given, otherwise the input
   * lines; with `--grep`, the dotted quads found in them once joined by
   * spaces.
   */
  function Addresses(args: Option<seq<string>>, stdin: seq<string>, withGrep: bool): (addrs: seq<string>)
    ensures var given := if args.Some? then args.value else stdin;
      && (!withGrep ==> addrs == given)
      && (withGrep ==>
            var joined := Text.Join(given, " ");
            IpGrep.AllQuads(addrs) && IpGrep.CutOf(joined, IpGrep.Spans(joined, 0), addrs))
  {
    var given := if args.Some? then args.value else stdin;
    if withGrep then IpGrep.Grep(given) else given
  }

  /**
   * `Runner.Lookup`: resolve every address concurrently; the addresses
   * finish in the order `picks` gives and the rows of the `k`-th to finish
   * in the order `rowPicks[k]` gives. No address means no output at all.
   */
  function Run(args: Option<seq<string>>, stdin: seq<string>, withName: bool, withGrep: bool, env: Net.Env,
               picks: seq<nat>, rowPicks: seq<seq<nat>>): (out: Output)
    requires forall ad :: ad in Addresses(args, stdin, withGrep) ==> HostAnswers(env, ad)
    ensures Addresses(args, stdin, withGrep) == [] ==> out == Output([], [])
    ensures Faithful(out, withName, env)
    ensures Accounts(out, Addresses(args, stdin, withGrep))
  {
    var addrs := Addresses(args, stdin, withGrep);
    var order := Schedule.Arrange(addrs, picks);
    assert forall ad :: ad in order ==> ad in multiset(addrs);
    EmitFaithful(order, withName, env, rowPicks);
    EmitAccounts(order, withName, env, rowPicks);
    Emit(order, withName, env, rowPicks)
  }

  /** A member of a list of dotted quads is a dotted quad. */
  lemma {:induction false} QuadsMember(ms: seq<string>, a: string)
    requires IpGrep.AllQuads(ms) && a in ms
    ensures IpGrep.DottedQuad(a)
    decreases |ms|
  {
    if ms[0] != a {
      assert a in ms[1..];
      QuadsMember(ms[1..], a);
    }
  }

  /** Whatever the leaders or the failures name is one of the accounted addresses. */
  lemma AccountedMember(x: string, out: Output, addrs: seq<string>)
    requires Accounts(out, addrs)
    requires x in Leaders(out.blocks) || x in FailedHosts(out.failures)
    ensures x in addrs
  {
    var leaders, failed := Leaders(out.blocks), FailedHosts(out.failures);
    assert x in multiset(leaders) || x in multiset(failed);
    assert x in multiset(leaders) + multiset(failed);
  }

  /** Every address a run accounts for, as a block's leader or as a failure, is one of its addresses. */
  lemma AccountedFrom(out: Output, addrs: seq<string>)
    requires Accounts(out, addrs)
    ensures forall k :: 0 <= k < |out.blocks| ==> Leader(out.blocks[k]) in addrs
    ensures forall f :: f in out.failures ==> f.host in addrs
  {
    forall k | 0 <= k < |out.blocks|
      ensures Leader(out.blocks[k]) in addrs
    {
      assert Leaders(out.blocks)[k] == Leader(out.blocks[k]);
      AccountedMember(Leader(out.blocks[k]), out, addrs);
    }
    forall f | f in out.failures
      ensures f.host in addrs
    {
      var k :| 0 <= k < |out.failures| && out.failures[k] == f;
      assert FailedHosts(out.failures)[k] == f.host;
      AccountedMember(f.host, out, addrs);
    }
  }

  /** Every member of a list of dotted quads is a dotted quad. */
  lemma QuadsMembers(ms: seq<string>)
    requires IpGrep.AllQuads(ms)
    ensures forall a :: a in ms ==> IpGrep.DottedQuad(a)
  {
    forall a | a in ms
      ensures IpGrep.DottedQuad(a)
    {
      QuadsMember(ms, a);
    }
  }

  /** With `--grep`, every block and every failure is about a dotted quad. */
  lemma GrepOnlyQuads(args: Option<seq<string>>, stdin: seq<string>, withName: bool, env: Net.Env,
                      picks: seq<nat>, rowPicks: seq<seq<nat>>)
    requires forall ad :: ad in Addresses(args, stdin, true) ==> HostAnswers(env, ad)
    ensures var out := Run(args, stdin, withName, true, env, picks, rowPicks);
      && (forall k :: 0 <= k < |out.blocks| ==> IpGrep.DottedQuad(Leader(out.blocks[k])))
      && (forall f :: f in out.failures ==> IpGrep.DottedQuad(f.host))
  {
    var addrs := Addresses(args, stdin, true);
    var out := Run(args, stdin, withName, true, env, picks, rowPicks);
    AccountedFrom(out, addrs);
    QuadsMembers(addrs);
  }

  /** Every order in which the address goroutines can finish is a possible run. */
  lemma AnyAddressOrder(args: Option<seq<string>>, stdin: seq<string>, withName: bool, withGrep: bool, env: Net.Env,
                        order: seq<string>, rowPicks: seq<seq<nat>>)
    requires forall ad :: ad in Addresses(args, stdin, withGrep) ==> HostAnswers(env, ad)
    requires multiset(order) == multiset(Addresses(args, stdin, withGrep))
    ensures forall ad :: ad in order ==> HostAnswers(env, ad)
    ensures exists picks :: Run(args, stdin, withName, withGrep, env, picks, rowPicks) == Emit(order, withName, env, rowPicks)
  {
    var addrs := Addresses(args, stdin, withGrep);
    assert forall ad :: ad in order ==> ad in multiset(addrs);
    Schedule.EveryOrderReachable(addrs, order);
    var picks := Schedule.PicksFor(addrs, order);
    assert Run(args, stdin, withName, withGrep, env, picks, rowPicks) == Emit(order, withName, env, rowPicks);
  }

  /**
   * A single address given on the command line without `--grep` prints
   * exactly one thing: its block when it resolves, its failure otherwise;
   * the input is not read.
   */
  lemma SingleAddress(ad: string, stdin: seq<string>, withName: bool, env: Net.Env,
                      picks: seq<nat>, rowPicks: seq<seq<nat>>)
    requires HostAnswers(env, ad)
    ensures var out := Run(Some([ad]), stdin, withName, false, env, picks, rowPicks);
      var answer := Resolve(ad, withName, env, RowPicks(rowPicks));
      && (answer.Failed? ==> out == Output([], [answer.failure]))
      && (answer.Resolved? ==> out == Output([answer.rows], []))
  {
    assert Schedule.Arrange([ad], picks) == [ad];
    assert [ad][1..] == [];
  }

  /** The lines of one block: its rows, then the separator. */
  function BlockLines(rows: seq<Row>, durationText: int -> string): (lines: seq<string>)
    ensures |lines| == |rows| + 1 && lines[|rows|] == Separator
    ensures forall j :: 0 <= j < |rows| ==> lines[j] == RowLine(rows[j], durationText)
  {
    seq(|rows|, j requires 0 <= j < |rows| => RowLine(rows[j], durationText)) + [Separator]
  }

  /**
   * Every line of a block of printable rows splits back into four cells:
   * each row's own cells, then the four empty cells of the separator.
   */
  lemma BlockColumns(rows: seq<Row>, durationText: int -> string)
    requires Printable(rows, durationText)
    ensures var lines := BlockLines(rows, durationText);
      && |lines| == |rows| + 1
      && (forall j :: 0 <= j < |rows| ==> Text.Split(lines[j], '\t') == Cells(rows[j], durationText))
      && Text.Split(lines[|rows|], '\t') == ["", "", "", ""]
  {
    forall j | 0 <= j < |rows|
      ensures Text.Split(BlockLines(rows, durationText)[j], '\t') == Cells(rows[j], durationText)
    {
      RowColumns(rows[j], durationText);
    }
    SeparatorColumns();
  }

  /** The output stream: the lines of each block, block after block; a block is never interleaved with another. */
  function Stdout(blocks: seq<seq<Row>>, durationText: int -> string): seq<string> {
    if |blocks| == 0 then [] else BlockLines(blocks[0], durationText) + Stdout(blocks[1..], durationText)
  }

  /** Rows whose IPs are non-empty and whose cells hold no tab. */
  predicate Printable(rows: seq<Row>, durationText: int -> string) {
    forall j :: 0 <= j < |rows| ==> rows[j].ip != "" && TabFree(rows[j], durationText)
  }

  /** A block of printable rows holds exactly one separator line: its last. */
  lemma OneSeparator(rows: seq<Row>, durationText: int -> string)
    requires Printable(rows, durationText)
    ensures multiset(BlockLines(rows, durationText))[Separator] == 1
  {
    var lines := BlockLines(rows, durationText);
    var body := lines[..|rows|];
    forall j | 0 <= j < |rows|
      ensures body[j] != Separator
    {
      RowIsNotSeparator(rows[j], durationText);
    }
    assert lines == body + [Separator];
    assert Separator !in multiset(body);
  }

  /**
   * When every row is printable the separators in the output count the
   * blocks: the output can be cut back into one block per resolved address.
   */
  lemma {:induction false} SeparatorsCountBlocks(blocks: seq<seq<Row>>, durationText: int -> string)
    requires forall k :: 0 <= k < |blocks| ==> Printable(blocks[k], durationText)
    ensures multiset(Stdout(blocks, durationText))[Separator] == |blocks|
    decreases |blocks|
  {
    if |blocks| > 0 {
      OneSeparator(blocks[0], durationText);
      SeparatorsCountBlocks(blocks[1..], durationText);
    }
  }

  /** The error stream: one diagnostic per failure. */
  function Stderr(out: Output, durationText: int -> string): (lines: seq<string>)
    ensures |lines| == |out.failures|
    ensures forall k :: 0 <= k < |out.failures| ==> lines[k] == DiagnosticLine(out.failures[k], durationText)
  {
    seq(|out.failures|, k requires 0 <= k < |out.failures| => DiagnosticLine(out.failures[k], durationText))
  }

  /**
   * Each diagnostic on the error stream splits back into the failed
   * address, the time its lookup took and the resolver's error, in the
   * order the failures were reported.
   */
  lemma StderrColumns(out: Output, durationText: int -> string)
    requires forall k :: 0 <= k < |out.failures| ==>
      '\t' !in out.failures[k].host && '\t' !in durationText(out.failures[k].time) && '\t' !in out.failures[k].err
    ensures var lines := Stderr(out, durationText);
      && |lines| == |out.failures|
      && forall k :: 0 <= k < |lines| ==>
           Text.Split(lines[k], '\t') == [FailedHosts(out.failures)[k], durationText(out.failures[k].time),
                                          "error resolving: " + out.failures[k].err]
  {
    forall k | 0 <= k < |out.failures|
      ensures Text.Split(Stderr(out, durationText)[k], '\t') ==
        [out.failures[k].host, durationText(out.failures[k].time), "error resolving: " + out.failures[k].err]
    {
      DiagnosticColumns(out.failures[k], durationText);
    }
  }

  /**
   * The `lookup` command: read the `--name` and `--grep` flags (an
   * undefined or non-boolean flag is returned as the error), then look up
   * the arguments, or the input lines when there are none.
   */
  function Command(args: seq<string>, flags: Options.FlagSet, stdin: seq<string>, env: Net.Env,
                   picks: seq<nat>, rowPicks: seq<seq<nat>>): (r: Result<Output, Options.OptionError>)
    requires forall ad :: HostAnswers(env, ad)
    ensures r.Err? <==> Options.GetBool(flags, "name").Err? || Options.GetBool(flags, "grep").Err?
    ensures Options.GetBool(flags, "name").Err? ==> r == Err(Options.GetBool(flags, "name").error)
    ensures Options.GetBool(flags, "name").Ok? && Options.GetBool(flags, "grep").Err? ==>
      r == Err(Options.GetBool(flags, "grep").error)
    ensures r.Ok? ==>
      var withGrep := Options.GetBool(flags, "grep").value;
      var given := if |args| > 0 then args else stdin;
      var addrs := if withGrep then IpGrep.Grep(given) else given;
      && (addrs == [] ==> r.value == Output([], []))
      && Faithful(r.value, Options.GetBool(flags, "name").value, env)
      && Accounts(r.value, addrs)
  {
    match Options.GetBool(flags, "name")
    case Err(e) => Err(e)
    case Ok(withName) =>
      match Options.GetBool(flags, "grep")
      case Err(e) => Err(e)
      case Ok(withGrep) =>
        var addr := if |args| > 0 then Some(args) else None;
        Ok(Run(addr, stdin, withName, withGrep, env, picks, rowPicks))
  }

  /** With arguments on the command line the input is never read. */
  lemma ArgsOverInput(args: seq<string>, flags: Options.FlagSet, stdin: seq<string>, stdin': seq<string>,
                      env: Net.Env, picks: seq<nat>, rowPicks: seq<seq<nat>>)
    requires forall ad :: HostAnswers(env, ad)
    requires |args| > 0
    ensures Command(args, flags, stdin, env, picks, rowPicks) == Command(args, flags, stdin', env, picks, rowPicks)
  {
  }
}
