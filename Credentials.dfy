/** `_get_auth` (asfsmd/core.py): the credentials used for the remote archive
    server, given on the command line or looked up in the user's netrc file.
    Reading and parsing the netrc file is not modelled: the file is an input,
    either missing, unreadable or already parsed into its entries. */
module Credentials {
  import opened Wrappers

  /** `Auth(user, pwd)` (asfsmd/common.py). */
  datatype Auth = Auth(user: string, pwd: string)

  /** One netrc entry: `(login, account, password)`. */
  datatype NetrcEntry = NetrcEntry(login: string, account: string, password: string)

  /** The netrc file as `netrc.netrc()` finds it: missing, rejected by the
      parser, or parsed into its entries by host name; the `default` entry is
      kept under the name "default". */
  datatype NetrcFile = Missing | Malformed(reason: string) | Parsed(hosts: map<string, NetrcEntry>)

  datatype AuthError =
    | ValueError(message: string)        // only one of user and password given
    | FileNotFoundError                  // no netrc file
    | NetrcParseError(reason: string)    // the netrc file is malformed
    | TypeError                          // no entry for the host and no default: `None` cannot be unpacked

  const EarthdataHost := "urs.earthdata.nasa.gov"
  const IncompleteCredentials := "Both username and password must be provided to authenticate."

  /** `netrc.authenticators(host)`: the entry for the host, else the default
      entry, else none. */
  function Authenticators(hosts: map<string, NetrcEntry>, host: string): (r: Option<NetrcEntry>)
    ensures r.None? <==> host !in hosts && "default" !in hosts
    ensures host in hosts ==> r == Some(hosts[host])
    ensures host !in hosts && "default" in hosts ==> r == Some(hosts["default"])
  {
    if host in hosts then Some(hosts[host])
    else if "default" in hosts then Some(hosts["default"])
    else None
  }

  /** `_get_auth(user, pwd, hostname)`. */
  function GetAuth(user: Option<string>, pwd: Option<string>, netrc: NetrcFile, hostname: string): (r: Result<Auth, AuthError>)
    ensures user.Some? && pwd.Some? ==> r == Success(Auth(user.value, pwd.value))
    ensures user.Some? != pwd.Some? ==> r == Failure(ValueError(IncompleteCredentials))
    ensures user.None? && pwd.None? ==>
      (r.Success? <==> netrc.Parsed? && (hostname in netrc.hosts || "default" in netrc.hosts))
  {
    if user.Some? && pwd.Some? then Success(Auth(user.value, pwd.value))
    else if user.None? && pwd.None? then
      match netrc
      case Missing => Failure(FileNotFoundError)
      case Malformed(reason) => Failure(NetrcParseError(reason))
      case Parsed(hosts) =>
        match Authenticators(hosts, hostname)
        case None => Failure(TypeError)
        case Some(entry) => Success(Auth(entry.login, entry.password))
    else Failure(ValueError(IncompleteCredentials))
  }

  /** Credentials given on the command line are used as they are, whatever the
      netrc file holds (it is not even read). */
  lemma ExplicitCredentialsWin(user: string, pwd: string, n1: NetrcFile, n2: NetrcFile, host: string)
    ensures GetAuth(Some(user), Some(pwd), n1, host) == GetAuth(Some(user), Some(pwd), n2, host)
    ensures GetAuth(Some(user), Some(pwd), n1, host).Success?
    ensures GetAuth(Some(user), Some(pwd), n1, host).value.user == user
    ensures GetAuth(Some(user), Some(pwd), n1, host).value.pwd == pwd
  {
  }

  /** Without credentials the login and password of the host's netrc entry are
      used, or those of the default entry when the host has none; the account
      field is ignored. */
  lemma NetrcCredentials(hosts: map<string, NetrcEntry>, host: string)
    requires host in hosts || "default" in hosts
    ensures var e := if host in hosts then hosts[host] else hosts["default"];
      GetAuth(None, None, Parsed(hosts), host) == Success(Auth(e.login, e.password))
  {
  }

  /** The host's own entry takes precedence over the default one. */
  lemma HostEntryBeforeDefault(hosts: map<string, NetrcEntry>, host: string, e: NetrcEntry)
    ensures GetAuth(None, None, Parsed(hosts[host := e]), host) == Success(Auth(e.login, e.password))
  {
  }

  /** Whenever the result is a success, both fields come from one source: the
      command line when both are given, one netrc entry otherwise. */
  lemma AuthSource(user: Option<string>, pwd: Option<string>, netrc: NetrcFile, host: string)
    requires GetAuth(user, pwd, netrc, host).Success?
    ensures var a := GetAuth(user, pwd, netrc, host).value;
      (user.Some? && pwd.Some? && a == Auth(user.value, pwd.value))
      || (user.None? && pwd.None? && netrc.Parsed?
          && exists h :: h in netrc.hosts && (h == host || h == "default")
                         && a == Auth(netrc.hosts[h].login, netrc.hosts[h].password))
  {
    if user.None? {
      var hosts := netrc.hosts;
      var h := if host in hosts then host else "default";
      assert h in hosts;
    }
  }

  /** A netrc file with an entry for the Earthdata host supplies its login and
      password; without a netrc file the lookup raises `FileNotFoundError`; a
      netrc file with neither a host nor a default entry gives `None`, whose
      unpacking raises `TypeError`. */
  lemma NetrcScenarios(account: string)
    ensures var hosts := map[EarthdataHost := NetrcEntry("user", account, "password")];
      GetAuth(None, None, Parsed(hosts), EarthdataHost) == Success(Auth("user", "password"))
    ensures GetAuth(None, None, Missing, EarthdataHost) == Failure(FileNotFoundError)
    ensures GetAuth(None, None, Parsed(map[]), EarthdataHost) == Failure(TypeError)
  {
  }
}
