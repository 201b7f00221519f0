/**
 * Everything the core consults outside itself, as data: the resolver, the
 * dialer, the TLS handshake, the clock readings around each of them, and the
 * text form of a `time.Duration`. A model run fixes one `Env`, and each
 * function answers a call by its arguments alone: two calls with the same
 * arguments in one run get the same answer and the same clock readings.
 */
module Net {
  import opened Returns
  import Options

  /** A forward lookup (`Resolver.LookupHost`) with the clock read before and after it. */
  datatype HostLookup = HostLookup(start: int, end: int, result: Result<seq<string>, string>)

  /**
   * A reverse lookup (`Resolver.LookupAddr`). Go returns names and an error
   * together; names that did survive validation may come with an error.
   */
  datatype AddrLookup = AddrLookup(names: seq<string>, err: Option<string>)

  /** One `net.Dialer.Dial`: the clock before and after, and the remote address or the error. */
  datatype DialAttempt = DialAttempt(start: int, end: int, result: Result<string, string>)

  /** The fields of `tls.ConnectionState` the core reads. */
  datatype ConnState = ConnState(version: int, cipherSuite: int, negotiatedProtocol: string)

  /** A TLS client handshake: the clock after it and the connection state it leaves. */
  datatype Handshake = Handshake(end: int, state: ConnState)

  datatype Env = Env(
    lookupHost: string -> HostLookup,
    lookupAddr: string -> AddrLookup,
    dial: (string, string) -> DialAttempt,             // (network, address)
    handshake: (string, Options.TlsConfig) -> Handshake, // (address, client configuration)
    cipherSuiteName: int -> string,                    // tls.CipherSuiteName
    durationText: int -> string)                       // time.Duration.String
}
