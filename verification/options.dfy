/**
 * The option decisions of root.go: which network to dial (`getNetwork`) and
 * which TLS client configuration to use (`getTlsConfig`), read from the
 * command's flag set.
 */
module Options {
  import opened Returns
  import Text

  /** A defined flag and its current value. */
  datatype FlagValue = BoolFlag(b: bool) | StringFlag(s: string)

  /** The command's flags by name: only defined flags are keys. */
  type FlagSet = map<string, FlagValue>

  /** Why a flag or option could not be read. */
  datatype OptionError =
    | FlagNotDefined(name: string)
    | FlagWrongType(name: string)
    | ReadFailed(path: string, reason: string)

  const UnixSocketFlag := "unix-socket"
  const TlsFlag := "tls"
  const RootCaFlag := "rootca"
  const InsecureFlag := "insecure"

  /** The value of a boolean flag; an undefined or non-boolean flag is an error. */
  function GetBool(flags: FlagSet, name: string): (r: Result<bool, OptionError>)
    ensures r.Ok? <==> name in flags && flags[name].BoolFlag?
    ensures r.Ok? ==> r.value == flags[name].b
  {
    if name !in flags then Err(FlagNotDefined(name))
    else match flags[name]
      case BoolFlag(b) => Ok(b)
      case StringFlag(_) => Err(FlagWrongType(name))
  }

  /** The value of a string flag; an undefined or non-string flag is an error. */
  function GetString(flags: FlagSet, name: string): (r: Result<string, OptionError>)
    ensures r.Ok? <==> name in flags && flags[name].StringFlag?
    ensures r.Ok? ==> r.value == flags[name].s
  {
    if name !in flags then Err(FlagNotDefined(name))
    else match flags[name]
      case StringFlag(s) => Ok(s)
      case BoolFlag(_) => Err(FlagWrongType(name))
  }

  /** The network to dial: "unix" exactly when the unix-socket flag is set, otherwise "tcp". */
  function GetNetwork(flags: FlagSet): (r: Result<string, OptionError>)
    ensures r == Ok("unix") <==> UnixSocketFlag in flags && flags[UnixSocketFlag] == BoolFlag(true)
    ensures r == Ok("tcp") <==> UnixSocketFlag in flags && flags[UnixSocketFlag] == BoolFlag(false)
    ensures r.Err? <==> GetBool(flags, UnixSocketFlag).Err?
    ensures r.Err? ==> r.error == GetBool(flags, UnixSocketFlag).error
  {
    match GetBool(flags, UnixSocketFlag)
    case Err(e) => Err(e)
    case Ok(unix) => if unix then Ok("unix") else Ok("tcp")
  }

  /** How the TLS client checks the server's certificate. */
  datatype Verification =
    | SystemRoots                 // the zero tls.Config: system roots
    | SkipVerify                  // InsecureSkipVerify
    | RootPool(pem: seq<Text.byte>) // RootCAs built from the PEM file's contents

  /** The parts of a Go `tls.Config` the core sets. */
  datatype TlsConfig = TlsConfig(verification: Verification, serverName: string)

  /** The rootca value that turns certificate verification off. */
  const SkipSentinel := "skip"

  /**
   * The TLS configuration: none when TLS is off; verification skipped for
   * rootca "skip"; the default configuration for an empty rootca; otherwise
   * a root pool from the named file, whose read error is returned.
   * `readFile` stands for `os.ReadFile`.
   */
  function GetTlsConfig(flags: FlagSet, readFile: string -> Result<seq<Text.byte>, string>)
    : (r: Result<Option<TlsConfig>, OptionError>)
    ensures GetBool(flags, TlsFlag).Err? ==> r == Err(GetBool(flags, TlsFlag).error)
    ensures GetBool(flags, TlsFlag) == Ok(false) ==> r == Ok(None)
    ensures GetBool(flags, TlsFlag) == Ok(true) ==>
      match GetString(flags, RootCaFlag)
      case Err(e) => r == Err(e)
      case Ok(path) =>
        if path == SkipSentinel then r == Ok(Some(TlsConfig(SkipVerify, "")))
        else if path == "" then r == Ok(Some(TlsConfig(SystemRoots, "")))
        else match readFile(path)
          case Err(why) => r == Err(ReadFailed(path, why))
          case Ok(pem) => r == Ok(Some(TlsConfig(RootPool(pem), "")))
    ensures r.Ok? && r.value.Some? ==>
      && flags[TlsFlag] == BoolFlag(true)
      && r.value.value.serverName == ""
      && (r.value.value.verification == SkipVerify <==> flags[RootCaFlag] == StringFlag(SkipSentinel))
  {
    match GetBool(flags, TlsFlag)
    case Err(e) => Err(e)
    case Ok(isTls) =>
      if !isTls then Ok(None)
      else match GetString(flags, RootCaFlag)
        case Err(e) => Err(e)
        case Ok(rootCa) =>
          if rootCa == SkipSentinel then Ok(Some(TlsConfig(SkipVerify, "")))
          else if rootCa != "" then
            match readFile(rootCa)
            case Err(why) => Err(ReadFailed(rootCa, why))
            case Ok(pem) => Ok(Some(TlsConfig(RootPool(pem), "")))
          else Ok(Some(TlsConfig(SystemRoots, "")))
  }

  /**
   * The dial command's `insecure` flag is declared but never consulted: its
   * value has no effect on the TLS configuration.
   */
  lemma InsecureFlagIgnored(flags: FlagSet, v: FlagValue, readFile: string -> Result<seq<Text.byte>, string>)
    ensures GetTlsConfig(flags[InsecureFlag := v], readFile) == GetTlsConfig(flags, readFile)
  {
    var flags' := flags[InsecureFlag := v];
    assert GetBool(flags', TlsFlag) == GetBool(flags, TlsFlag);
    assert GetString(flags', RootCaFlag) == GetString(flags, RootCaFlag);
  }

  /**
   * The rootca file is read only when TLS is on and rootca names a path:
   * in every other case the result does not depend on the file system.
   */
  lemma ReadsOnlyNamedFile(flags: FlagSet, readFile: string -> Result<seq<Text.byte>, string>,
                           readFile': string -> Result<seq<Text.byte>, string>)
    requires GetBool(flags, TlsFlag) == Ok(true) && GetString(flags, RootCaFlag).Ok? ==>
      GetString(flags, RootCaFlag).value in {"", SkipSentinel}
    ensures GetTlsConfig(flags, readFile) == GetTlsConfig(flags, readFile')
  {
  }
}
