# netdog core in Dafny

netdog is a small command-line network tool. It relays stdin to a TCP or unix
socket, probes targets with timed TCP or TLS dials (`dial`), and resolves
addresses to IPs and names (`lookup`). Underneath the sockets, goroutines and
tabwriter output there is a layer of decisions about strings and sequences.
This project models that layer and proves properties of it:

- the delimiter split function `makeSplitFunc` (root.go:136), which the
  root package defines although none of the commands modelled here calls it;
- the flag decisions about the network and the TLS client configuration
  (`getNetwork`, `getTlsConfig`);
- the dial command: how a target becomes the addresses to probe, the row
  that each successful TCP or TLS probe prints, and the order of rows when
  probes run concurrently (`Runner.Dial`, `dialTcp`, `dialTls`);
- the lookup command: the IPv4 grep filter, the per-address blocks of rows
  and their separators, the error diagnostics, and the `row.print` layout
  (`Runner.Lookup`, `row`, `row.print`).

Modules:

| file | module | models |
|---|---|---|
| returns.dfy | Returns | `Option`, `Result`, and dropping the errors of a batch |
| text.dfy | Text | `strings.Index`, `strings.Split` and `strings.Join` on sequences |
| schedule.dfy | Schedule | the order in which goroutines reach a shared writer |
| tokenizer.dfy | Tokenizer | `makeSplitFunc` and a scanner driving it to the end of input |
| options.dfy | Options | pflag lookups, `getNetwork`, `getTlsConfig` |
| net.dfy | Net | the resolver, dialer, TLS handshake, clock and duration text as one environment value |
| dial.dfy | Dial | target expansion, probes, probe lines, `Runner.Dial`, the dial command |
| ipgrep.dfy | IpGrep | the expression `\b(?:\d{1,3}\.){3}\d{1,3}\b` under `FindAllString` |
| lookup.dfy | Lookup | rows, blocks, diagnostics, `Runner.Lookup`, the lookup command |

The model takes the outside world as inputs:

- The resolver, dialer, TLS handshake, `tls.CipherSuiteName` and
  `time.Duration.String` are the fields of a `Net.Env`. Each clock reading is
  an integer paired with the call it surrounds.
- `os.ReadFile` is a function parameter of `Options.GetTlsConfig`.
- The input lines that `Runner.ReadLines` would read are a parameter.
- Concurrency is a schedule parameter. `Schedule.Arrange(xs, picks)` is the
  order in which the goroutines working on `xs` print. Every pick sequence is
  a legal schedule (`Schedule.Arrange` keeps the multiset of units), and
  every order is produced by some schedule (`Schedule.EveryOrderReachable`).
  The address lock in `Runner.Lookup` is reflected by emitting each block
  whole.

Where the code and its own description differ, the model follows the code,
except in the first case below, which it models both ways:

- The dial command documents a unix socket path as a valid target. The code
  reads the second ':'-separated field of every target and panics without
  one. `Dial.DialAsWritten` and `Dial.CommandAsWritten` follow the code;
  `Dial.Dial` and `Dial.Command` dial such a target verbatim, as described;
  see Findings.
- The dial command declares an `insecure` flag that nothing reads. The flag
  has no effect (`Options.InsecureFlagIgnored`).
- A failed sniff lookup is printed to the error stream, and the dial command
  still returns no error. A failed forward lookup in `lookup` is likewise
  only a diagnostic line.
- A lookup block ends with the line `"\t\t\t"`: four empty cells, not an
  empty line. Dial rows have no separator.

## Model

| member | source | states |
|---|---|---|
| Text.IndexOf | root.go:142 | `strings.Index`: -1 exactly when the delimiter does not occur; otherwise an occurrence with none before it |
| Text.Split | dial.go:67 | there is at least one field; no field holds the separator; there is exactly one field iff the separator does not occur |
| Text.JoinSplit | dial.go:67 | joining the fields with the separator gives the string back |
| Text.SplitJoin | lookup.go:56 | splitting a join of separator-free parts gives exactly those parts |
| Text.SplitHead | dial.go:67-68 | the first field is the longest separator-free prefix, followed by the separator unless it is the whole string |
| Text.SplitSecond | dial.go:67-69 | the second field is the separator-free text after the first separator, ended by the next separator or the end |
| Schedule.Arrange | dial.go:86-100 | goroutines print in any order, and each unit is printed exactly as often as it was started (multiset equality) |
| Schedule.EveryOrderReachable | lookup.go:114-127 | every reordering of the units is the output of some schedule |
| Schedule.ScheduleExists | lookup.go:72-132 | some schedule produces any given permutation |
| Tokenizer.SplitStep | root.go:136-152 | the four cases: at EOF with no data, advance 0 and no token; with a delimiter, the bytes before its first occurrence, with advance = index + len(delim); without a delimiter before EOF, nothing consumed and no token; without one at EOF, all data is the token. advance <= len(data); a token means advance >= 1 and no delimiter in the token |
| Tokenizer.MoreDataSameStep | root.go:142-144 | once the delimiter is buffered, more data or reaching EOF does not change the answer |
| Tokenizer.ScanAll | root.go:136-152 | scanned tokens hold no delimiter; there are no tokens iff the input is empty |
| Tokenizer.ScanJoin | root.go:136-152 | joining the tokens with the delimiter gives the input, possibly minus one trailing delimiter |
| Tokenizer.ScanTerminated | root.go:142-148 | records each followed by a one-byte terminator scan back to exactly those records |
| Options.GetBool | root.go:124-127 | a flag lookup succeeds iff the flag is defined and boolean, and returns its value |
| Options.GetString | root.go:98-99 | a flag lookup succeeds iff the flag is defined and a string, and returns its value |
| Options.GetNetwork | root.go:123-134 | "unix" iff the unix-socket flag is true, "tcp" iff it is false, and the lookup error otherwise |
| Options.GetTlsConfig | root.go:89-121 | TLS off gives no configuration; rootca "skip" skips verification; rootca "" gives the default; any other rootca builds a root pool from the file, and a read error is returned |
| Options.ReadsOnlyNamedFile | root.go:101-109 | the CA file is read only when TLS is on and rootca names a path |
| Options.InsecureFlagIgnored | dial.go:58 | the declared `insecure` flag never changes the TLS configuration |
| Dial.TargetFields | dial.go:67-69 | the host is the text before the first ':', the port the text up to the next ':'; both are colon-free and lie in the target in order |
| Dial.HostPortRoundTrip | dial.go:67-80 | `host + ":" + port` with colon-free parts splits back into that host and port |
| Dial.WithPort | dial.go:79-81 | one address per resolved host, in resolver order, each `host:port` |
| Dial.Expand | dial.go:67-84 | without sniff the target alone and no lookup; with sniff one `ip:port` per resolved host, or the lookup error and no address |
| Dial.ExpandRoundTrip | dial.go:74-81 | each sniffed address splits back into its resolved host and the target's port |
| Dial.PeerIp | dial.go:130 | the peer IP is the longest colon-free prefix of the remote address |
| Dial.VersionLabel | dial.go:150-155 | codes 0x0301..0x0304 give "TLS1.0".."TLS1.3"; any other code gives the empty string |
| Dial.WithServerName | dial.go:168 | SNI is the longest colon-free prefix of the target (all of it when it has no ':'), and verification is unchanged |
| Dial.ProbeTcp | dial.go:105-136 | a failed dial returns its error and no row; otherwise the row holds the target, connect time, peer IP and reverse names; time is non-negative when the clock is monotonic |
| Dial.ProbeTls | dial.go:138-192 | a failed dial returns its error; otherwise total = tcp + tls, and all three are non-negative and bounded by total when start <= tcpEnd <= tlsEnd; the row holds version label, ALPN, cipher and names from the handshake state |
| Dial.Probe | dial.go:92-96 | TCP without a TLS configuration and TLS with one; the probe fails iff dialling the address fails, with the dialer's error (dial.go:118-123, 161-166); each row is labelled with its target |
| Dial.ProbeColumns | dial.go:133 | a TCP line splits back into its 4 cells and a TLS line into its 9 (dial.go:185-189) |
| Dial.ProbeAll | dial.go:86-100 | exactly one row per successful probe: as many rows as successful probes, each row as often as a probe produced it, and no row from a failed one; one row per address iff every dial succeeds |
| Dial.Dial | dial.go:61-103 | an error only from a failed sniff lookup, and then the resolver's error; otherwise the printed rows are a permutation of the successful probes' rows |
| Dial.DialVerbatim | dial.go:82-84 | without sniff exactly the target is probed: one row if its dial succeeds, none otherwise |
| Dial.DialFanOut | dial.go:70-100 | with sniff and N resolved hosts, N probes run, one of `host:port` per host in resolver order; the rows number the successful probes, each row printed as often as a probe produced it; exactly N rows iff every probe succeeds |
| Dial.DialAsWritten | dial.go:67-69 | as written, a target panics iff it has no ':', whether or not sniff is on; without sniff the corrected dial of that same target succeeds |
| Dial.UnixSocketPath | dial.go:18 | a unix socket path panics as written, and the corrected dial probes it verbatim |
| Dial.Command | dial.go:19-52 | the network flag error, else the TLS-option error, ends the command with that error; otherwise the targets (arguments, else input lines) are dialled in order, one outcome each |
| Dial.CommandAsWritten | dial.go:44-48 | as written, the targets are dialled in order up to the first one with no ':'; the program panics iff some target has none, and no later target is dialled |
| Dial.AsWrittenAgrees | dial.go:44-69 | when every target holds a ':', the code as written and the corrected command print the same outcomes and do not panic |
| Dial.SniffErrorIgnored | dial.go:42 | an unreadable sniff flag behaves exactly like sniff off |
| IpGrep.DottedQuadFields | lookup.go:55 | `(?:\d{1,3}\.){3}\d{1,3}` matches exactly four dot-separated fields of one to three digits each |
| IpGrep.GroupChainIff | lookup.go:55 | reading the expression left to right agrees with splitting on dots |
| IpGrep.MatchEndSpec | lookup.go:55-56 | the scanner reports a match from p to e iff the whole expression, with its word boundaries, matches there |
| IpGrep.MatchUnique | lookup.go:55 | at most one match starts at any position |
| IpGrep.SpansOrdered | lookup.go:56 | the reported matches are in order and do not overlap |
| IpGrep.SpansSound | lookup.go:56 | every reported span is a match |
| IpGrep.SpansComplete | lookup.go:56 | every match is reported or starts strictly inside a reported one |
| IpGrep.TextsOfSpans | lookup.go:56 | the reported strings are exactly the texts of the reported spans, in order |
| IpGrep.FindAll | lookup.go:56 | every string `FindAllString` returns is a dotted quad, and the strings are the texts of the leftmost non-overlapping match spans, in order |
| IpGrep.Grep | lookup.go:53-57 | with grep on, the addresses are the texts of the match spans of the space-joined input lines, in order, and each is a dotted quad |
| IpGrep.GrepKeepsAddress | lookup.go:53-57 | a single input line that is a dotted quad passes through unchanged |
| Lookup.RowLine | lookup.go:150-156 | a row prints as its four cells joined by tabs, with a blank time cell when Time == 0 |
| Lookup.RowColumns | lookup.go:150-156 | a row line with tab-free cells splits back into exactly four cells, so columns stay aligned |
| Lookup.FollowerColumns | lookup.go:114-124 | a later row of a block has an empty host and an empty time column |
| Lookup.SeparatorColumns | lookup.go:130 | the separator splits into four empty cells |
| Lookup.RowIsNotSeparator | lookup.go:130 | a row with a non-empty IP never prints as the separator |
| Lookup.DiagnosticLine | lookup.go:84-87 | the diagnostic is address, elapsed time and "error resolving: " + error, joined by tabs |
| Lookup.DiagnosticColumns | lookup.go:84-87 | a diagnostic splits into three cells, the time always filled in |
| Lookup.NameOf | lookup.go:89-102 | the name cell is empty without the name flag and holds the reverse-lookup error text when that lookup fails |
| Lookup.NamesRoundTrip | lookup.go:94-100 | with the name flag and a successful reverse lookup, the name cell splits on spaces back into the names |
| Lookup.Resolve | lookup.go:72-131 | a failed forward lookup gives one failure (address, elapsed time, error) and no rows. Otherwise one row per resolved IP, each IP as often as returned; the first row has the address, the time and `result[0]`; later rows have no host and zero time |
| Lookup.Emit | lookup.go:69-132 | each address produces exactly one block or one failure |
| Lookup.EmitFaithful | lookup.go:69-132 | every block and every failure is what its address's lookup dictates |
| Lookup.EmitAccounts | lookup.go:69-132 | block leaders plus failed addresses are exactly the addresses, as a multiset |
| Lookup.Addresses | lookup.go:47-57 | without grep, the arguments if given, otherwise the input lines, unchanged; with grep on, the dotted-quad match texts of those lines joined by spaces, in order |
| Lookup.Run | lookup.go:45-141 | no address means no output at all; every block and failure is faithful; every address is accounted for exactly once |
| Lookup.GrepOnlyQuads | lookup.go:53-57 | with grep on, every block and failure is about a dotted quad |
| Lookup.AnyAddressOrder | lookup.go:72-132 | every order in which the address goroutines finish is a possible run |
| Lookup.SingleAddress | lookup.go:47-51 | one address argument without grep gives exactly its block or its failure |
| Lookup.BlockColumns | lookup.go:107-130 | each line of a printed block splits back into its row's four cells, and its last line into the separator's four empty cells |
| Lookup.OneSeparator | lookup.go:107-130 | a block of rows with non-empty IPs holds exactly one separator line |
| Lookup.SeparatorsCountBlocks | lookup.go:104-131 | the separators in the output count the blocks, since blocks are never interleaved |
| Lookup.StderrColumns | lookup.go:84-87 | the error stream has one line per failure, in print order, and each splits back into the failed address, its lookup time and the resolver's error |
| Lookup.Command | lookup.go:19-37 | a name flag error, else a grep flag error, ends the command with that error; otherwise the addresses are the arguments or, without any, the grepped or plain input: no address means no output, every block and every failure is its own address's lookup, and every address is accounted for exactly once |
| Lookup.ArgsOverInput | lookup.go:31-36 | with arguments, the input is never read |

## Findings

| source | as written | input that shows it | evidently intended | confidence | as-written member | corrected member |
|---|---|---|---|---|---|---|
| dial.go:67-69 | `parts[1]` is read for every target before `sniff` is checked | `dial --unix-socket /var/run/app.sock`: the target has no ':' and the index is out of range | the documented unix socket path (dial.go:18) is dialled verbatim; the port is needed only when sniffing | high, not executed | Dial.DialAsWritten, Dial.CommandAsWritten | Dial.Dial, Dial.Command (with Dial.UnixSocketPath) |

## Left out

- `Runner.WriteToSocket` (root.go:62-87), the raw relay, is left out: it is socket I/O with no decision to model.
- The root command's wiring (root.go:17-50) is left out: opening the input files, chaining them with `io.MultiReader` and relaying them is I/O. It does not use `makeSplitFunc`; that function is modelled on its own.
- `Runner.ReadLines` (runner.go:27-36) is a parameter. The model does not cover `bufio.ScanLines`, the Scanner's buffer growth or its token size limit.
- Reading the CA file and parsing it as PEM (root.go:106-112) are left out. The file's bytes stand in for the certificate pool.
- The resolver, dialer and TLS handshake, their deadlines and their errors are `Net.Env` inputs.
- Net.Env answers each call by its arguments alone, so repeated lookups or dials of the same address in one run get the same answer and timing. A round-robin resolver, or different latencies for an address that `--grep` finds twice, is not modelled: the source starts one lookup per list entry (lookup.go:72-81), and those may differ.
- `time.Duration` formatting and `tls.CipherSuiteName` are opaque functions in `Net.Env`. Durations are unbounded integers, so the saturation of `time.Time.Sub` is not modelled.
- The tabwriter's column padding is left out. Lines are modelled as tab-separated cells before alignment.
- The tabwriter flush error (lookup.go:134-138) is left out: it is a write error of the output stream.
- Goroutines, wait groups and mutexes (runner.go:38-50, print.go:13-29, lookup.go:69-70) are replaced by schedule inputs. The address lock is reflected by emitting each block whole.
- Dial.ProbeTls does not check the handshake error (dial.go:172): as in the source, the row shows whatever state the handshake left.
- Dial.Command is built on the corrected Dial: a target with no ':' is dialled verbatim and the later targets are still dialled. The code as written panics there (dial.go:69) and stops; Dial.CommandAsWritten models that, and Dial.AsWrittenAgrees shows the two agree when every target holds a ':'.
- Dial.Dial still requires a ':' when sniffing. The source panics there too, and a unix path cannot be resolved.
- IPv6 literals are outside the model. Splitting on ':' mishandles them in the source, and the model reproduces that split.
- Lookup.Resolve requires a successful forward lookup to return at least one IP (`Lookup.HostAnswers`). Go's resolver guarantees this, and the source indexes `result[0]` on it.
- IpGrep.GrepKeepsAddress covers only a single input line. The statement that every dotted quad standing alone on its line survives grepping a multi-line input is not proved.
- Tokenizer.ScanAll requires a non-empty delimiter. `makeSplitFunc("")` is legal Go, but before EOF it returns advance 0 with an empty token, so `bufio.Scanner` would yield empty tokens without end; the model leaves that non-terminating scan out.
- ping.go and fetch.go are not subcommands of the root command (root.go:58-59) and are not modelled. main.go is not modelled either.
