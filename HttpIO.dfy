/** The httpio based client (asfsmd/httpio_client.py): opening a remote file
    probes it with one GET request and checks that the server reports a length
    and accepts range requests. The network is an input: the reply the server
    gives to the probe. */
module HttpIO {
  import opened Wrappers
  import opened PyText
  import opened Credentials

  /** What the server answers to a GET: no answer at all, or a status code and
      the headers. Header names are stored lower-cased, as the case-insensitive
      header dictionary of `requests` looks them up. */
  datatype Reply = Refused(reason: string) | Response(status: int, headers: map<string, string>)

  datatype OpenError =
    | ClosedFile                        // the file object is already closed
    | ConnectionFailed(reason: string)  // the request itself failed
    | HttpError(status: int)            // `raise_for_status()`
    | NoContentLength                   // "Server does not report content length"
    | BadContentLength(value: string)   // `int()` of the header raised `ValueError`
    | NoRangeSupport                    // "Server does not accept 'Range' headers"
    | InvalidMode(message: string)      // `ValueError` for a mode other than "rb"

  /** `raise_for_status()` raises for client and server errors. */
  predicate IsErrorStatus(status: int) {
    400 <= status < 600
  }

  /** `headers.get("Accept-Ranges", "")`. */
  function AcceptRanges(headers: map<string, string>): string {
    if "accept-ranges" in headers then headers["accept-ranges"] else ""
  }

  /** The server answers with a usable length and accepts byte ranges. */
  predicate Usable(reply: Reply) {
    reply.Response?
    && !IsErrorStatus(reply.status)
    && "content-length" in reply.headers
    && ParseInt(reply.headers["content-length"]).Some?
    && Lower(AcceptRanges(reply.headers)) == "bytes"
  }

  /** The outcome of the probe: the length it recorded, if it got that far, and
      the exception it raised. */
  datatype Probed = Probed(length: Option<int>, error: Option<OpenError>)

  /** The checks of `HttpIOFile.open` on the reply, in their order: the status,
      then the Content-Length, which is stored as soon as it parses, then
      Accept-Ranges. */
  function Probe(reply: Reply): (r: Probed)
    ensures r.error.None? <==> Usable(reply)
    ensures r.length.Some? <==> reply.Response? && !IsErrorStatus(reply.status)
                                && "content-length" in reply.headers
                                && ParseInt(reply.headers["content-length"]).Some?
    ensures r.length.Some? ==> r.length == ParseInt(reply.headers["content-length"])
    ensures reply.Response? && IsErrorStatus(reply.status) ==> r.error == Some(HttpError(reply.status))
    ensures reply.Response? && !IsErrorStatus(reply.status) && "content-length" !in reply.headers ==>
      r.error == Some(NoContentLength)
  {
    match reply
    case Refused(reason) => Probed(None, Some(ConnectionFailed(reason)))
    case Response(status, headers) =>
      if IsErrorStatus(status) then Probed(None, Some(HttpError(status)))
      else if "content-length" !in headers then Probed(None, Some(NoContentLength))
      else match ParseInt(headers["content-length"])
        case None => Probed(None, Some(BadContentLength(headers["content-length"])))
        case Some(n) =>
          if Lower(AcceptRanges(headers)) != "bytes" then Probed(Some(n), Some(NoRangeSupport))
          else Probed(Some(n), None)
  }

  /** A successful reply that states its length in decimal and accepts byte
      ranges, in any letter case, opens with that length. */
  lemma ProbeWellFormedReply(status: int, n: nat, others: map<string, string>, ranges: string)
    requires !IsErrorStatus(status)
    requires |ranges| == 5 && forall i :: 0 <= i < 5 ==> ranges[i] == "bytes"[i] || ranges[i] == Upper("bytes"[i])
    ensures Probe(Response(status, others["content-length" := NatToString(n)]["accept-ranges" := ranges]))
         == Probed(Some(n), None)
  {
    var h := others["content-length" := NatToString(n)]["accept-ranges" := ranges];
    assert h["content-length"] == NatToString(n);
    ParseIntOfNat(n);
    LowerMatches(ranges, "bytes");
  }

  /** A server that does not mention byte ranges is refused, after its length
      has been recorded. */
  lemma ProbeWithoutRanges(status: int, n: nat, others: map<string, string>)
    requires !IsErrorStatus(status) && "accept-ranges" !in others
    ensures Probe(Response(status, others["content-length" := NatToString(n)]))
         == Probed(Some(n), Some(NoRangeSupport))
  {
    ParseIntOfNat(n);
    assert Lower("") == "";
  }

  /** A `requests.Session`: its credentials, the URLs it has fetched, in order,
      and whether it was closed. */
  class Session {
    var auth: Option<Auth>
    var requested: seq<string>
    var closed: bool

    constructor ()
      ensures auth.None? && requested == [] && !closed
    {
      auth := None;
      requested := [];
      closed := false;
    }

    /** `session.get(url, stream=True)`: the request goes out. */
    method Get(url: string)
      modifies this
      ensures requested == old(requested) + [url]
      ensures auth == old(auth) && closed == old(closed)
    {
      requested := requested + [url];
    }

    /** `session.close()`. */
    method Close()
      modifies this
      ensures closed
      ensures auth == old(auth) && requested == old(requested)
    {
      closed := true;
    }

    /** `session.auth = auth`. */
    method SetAuth(a: Option<Auth>)
      modifies this
      ensures auth == a
      ensures requested == old(requested) && closed == old(closed)
    {
      auth := a;
    }
  }

  /** `HttpIOFile`: a remote file read through a session. */
  class HttpIOFile {
    const url: string
    const blockSize: Option<int>
    var session: Session?
    var length: Option<int>
    var closing: bool
    var closed: bool

    /** A new, unopened file object. */
    constructor (url: string, blockSize: Option<int>)
      ensures this.url == url && this.blockSize == blockSize
      ensures session == null && length.None? && !closing && !closed
    {
      this.url := url;
      this.blockSize := blockSize;
      session := null;
      length := None;
      closing := false;
      closed := false;
    }

    /** `HttpIOFile.open(session)`. A closed file raises. A file that already
        has a session, or is closing, is returned as it is. Otherwise the file
        takes the given session, or a new one, before the request, so that it
        keeps that session even when one of the checks then raises. */
    method Open(supplied: Session?, reply: Reply) returns (err: Option<OpenError>)
      modifies this, supplied
      ensures old(closed) ==> err == Some(ClosedFile) && unchanged(this)
      ensures !old(closed) && (old(closing) || old(session) != null) ==> err.None? && unchanged(this)
      ensures !old(closed) && (old(closing) || old(session) != null) && supplied != null ==> unchanged(supplied)
      ensures !old(closed) && !old(closing) && old(session) == null ==>
        session != null
        && (supplied != null ==> session == supplied && session.requested == old(supplied.requested) + [url]
                                 && session.auth == old(supplied.auth) && session.closed == old(supplied.closed))
        && (supplied == null ==> fresh(session) && session.requested == [url] && session.auth.None?)
        && err == Probe(reply).error
        && length == (if Probe(reply).length.Some? then Probe(reply).length else old(length))
        && closing == old(closing) && closed == old(closed)
      ensures !old(closed) ==> session != null || closing
    {
      if closed {
        return Some(ClosedFile);
      }
      if !closing && session == null {
        var s: Session;
        if supplied == null {
          s := new Session();
        } else {
          s := supplied;
        }
        session := s;
        s.Get(url);
        var probed := Probe(reply);
        if probed.length.Some? {
          length := probed.length;
        }
        return probed.error;
      }
      return None;
    }
  }

  /** After an open that did not find the file closed, a second open makes no
      request and succeeds, whatever the first one raised. */
  method OpenTwice(f: HttpIOFile, supplied: Session?, first: Reply, second: Reply)
    returns (err1: Option<OpenError>, err2: Option<OpenError>)
    requires !f.closed
    modifies f, supplied
    ensures err2.None?
    ensures f.session != null || f.closing
  {
    err1 := f.Open(supplied, first);
    err2 := f.Open(supplied, second);
  }

  /** The message of the `ValueError` for a wrong mode, as written: the
      placeholder is not interpolated, so the message never names the mode. */
  function InvalidModeMessageAsWritten(mode: string): string {
    "invalid mode: {mode!r}"
  }

  /** Two different modes get the same message. */
  lemma InvalidModeMessageAsWrittenHidesMode()
    ensures InvalidModeMessageAsWritten("r") == InvalidModeMessageAsWritten("w")
  {
  }

  /** The intended message: the mode's `repr` after the prefix. */
  function InvalidModeMessage(mode: string): (r: string)
    ensures |r| > |"invalid mode: "| && r[..|"invalid mode: "|] == "invalid mode: "
  {
    "invalid mode: " + Repr(mode)
  }

  /** The intended message names the mode: different modes give different
      messages. */
  lemma InvalidModeMessageNamesMode(a: string, b: string)
    requires InvalidModeMessage(a) == InvalidModeMessage(b)
    ensures a == b
  {
    var prefix := "invalid mode: ";
    assert InvalidModeMessage(a)[|prefix|..] == Repr(a);
    assert InvalidModeMessage(b)[|prefix|..] == Repr(b);
    ReprInjective(a, b);
  }

  /** `HttpIOClient`: one session, with the credentials, shared by all the
      files it opens. */
  class HttpIOClient {
    const session: Session
    const blockSize: Option<int>

    /** `HttpIOClient(auth, block_size)`. */
    constructor (auth: Option<Auth>, blockSize: Option<int>)
      ensures fresh(session) && session.auth == auth && session.requested == [] && !session.closed
      ensures this.blockSize == blockSize
    {
      var s := new Session();
      s.SetAuth(auth);
      session := s;
      this.blockSize := blockSize;
    }

    /** `__exit__`: closes the session. */
    method Exit()
      modifies session
      ensures session.closed
      ensures session.auth == old(session.auth) && session.requested == old(session.requested)
    {
      session.Close();
    }

    /** `HttpIOClient.open(url, mode)`: only "rb" is accepted; the new file is
        opened with the client's session and block size. */
    method Open(url: string, mode: string, reply: Reply) returns (r: Result<HttpIOFile, OpenError>)
      modifies session
      ensures mode != "rb" ==> r == Failure(InvalidMode(InvalidModeMessage(mode))) && unchanged(session)
      ensures mode == "rb" ==>
        session.requested == old(session.requested) + [url]
        && session.auth == old(session.auth) && session.closed == old(session.closed)
        && (r.Success? <==> Usable(reply))
        && (r.Failure? ==> r.error == Probe(reply).error.value)
        && (r.Success? ==>
              fresh(r.value) && r.value.url == url && r.value.blockSize == blockSize
              && r.value.session == session && r.value.length == Probe(reply).length
              && !r.value.closed)
    {
      if mode != "rb" {
        return Failure(InvalidMode(InvalidModeMessage(mode)));
      }
      var remote := new HttpIOFile(url, blockSize);
      var err := remote.Open(session, reply);
      if err.Some? {
        return Failure(err.value);
      }
      return Success(remote);
    }
  }
}
