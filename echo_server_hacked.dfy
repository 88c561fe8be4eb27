/** The reduced server (`6/EchoServer_hacked.py`): `processreq` cuts the whole request
    text at spaces, echoes the last word as the version, and answers through the
    cascade 405, 301, 404, 403, 200. It never sends 400 or 406, treats HEAD like GET,
    and loads every page with a bare `open`, so a page that cannot be read makes the
    call raise instead of answering. */
module HackedServer {
  import opened Wrappers
  import opened PyStr
  import opened FileSys
  import opened Http

  /** The three parts, read from the whole request text rather than its first line. */
  function RequestOf(req: string): RequestLine
  {
    ParseWords(req)
  }

  /** `add_content_after_head`: the file's text; `Failure(filename)` stands for the
      exception `open` or `read` raises. */
  function AddContentAfterHead(fs: Snapshot, filename: string): (r: Result<string, string>)
    ensures r.Success? <==> Open(fs, filename).Some?
    ensures r.Success? ==> r.value == Open(fs, filename).value
    ensures r.Failure? ==> r.error == filename
  {
    match Open(fs, filename)
    case Some(text) => Success(text)
    case None => Failure(filename)
  }

  /** `head + add_content_after_head(...)`: the exception, if any, passes through. */
  function Append(head: string, body: Result<string, string>): (r: Result<string, string>)
    ensures r.Success? <==> body.Success?
    ensures r.Success? ==> r.value == head + body.value
    ensures r.Failure? ==> r.error == body.error
  {
    match body
    case Success(text) => Success(head + text)
    case Failure(e) => Failure(e)
  }

  /** `processreq`: parse the whole text, then answer it. */
  function ProcessReq(fs: Snapshot, req: string): Result<string, string>
  {
    Respond(fs, RequestOf(req))
  }

  /** The decision part of `processreq`; the version is written back unchanged. */
  function Respond(fs: Snapshot, line: RequestLine): Result<string, string>
  {
    var ver := line.version;
    if line.command !in ["GET", "HEAD"] then Success(Framed(ver, MethodNotAllowed))
    else
      var path := LStrip(line.path, '/');
      if path == RedirectPath then Success(Framed(ver, MovedPermanently) + RedirectUrl)
      else if '%' in path then Append(Framed(ver, NotFound), AddContentAfterHead(fs, "404.html"))
      else if !IsFile(fs, path) then
        Append(Framed(ver, NotFound), AddContentAfterHead(fs, "404.html"))
      else
        RegularModeIsLarge(Stat(fs, path).value.mode);
        if PermDigit(Stat(fs, path).value.mode) == '1' then
          Append(Framed(ver, Ok), AddContentAfterHead(fs, path))
        else
          Append(Framed(ver, Forbidden), AddContentAfterHead(fs, "403.html"))
  }

  // ----- The decision, stated on its own -----

  /** The status owed a request line: the first check, in order, that applies. */
  function Decide(fs: Snapshot, line: RequestLine): Status
  {
    var p := Target(line);
    if !Allowed(line.command) then MethodNotAllowed
    else if p == RedirectPath then MovedPermanently
    else if '%' in p || !IsFile(fs, p) then NotFound
    else if !OthersMayRead(Stat(fs, p).value.mode) then Forbidden
    else Ok
  }

  /** The file loaded after the status constant, if any: the served file for 200, the
      error page for 403 and 404. */
  function PageOf(s: Status, path: string): Option<string>
  {
    match s
    case Ok => Some(path)
    case Forbidden => Some("403.html")
    case NotFound => Some("404.html")
    case _ => None
  }

  /** What follows the status constant when no file is loaded. */
  function Trailer(s: Status): string
  {
    if s == MovedPermanently then RedirectUrl else ""
  }

  /** Every answer is the constant of the status `Decide` owes, followed by the redirect
      target or by the page that status loads; loading fails exactly as `open` does. */
  lemma {:induction false} ResponseParts(fs: Snapshot, line: RequestLine)
    ensures var s := Decide(fs, line);
      var head := Framed(line.version, s);
      Respond(fs, line) ==
        match PageOf(s, Target(line))
        case None => Success(head + Trailer(s))
        case Some(page) => Append(head, AddContentAfterHead(fs, page))
  {
    var path := Target(line);
    if !Allowed(line.command) {
      RefusedResponse(fs, line);
      assert Framed(line.version, MethodNotAllowed) + "" == Framed(line.version, MethodNotAllowed);
    } else if path == RedirectPath {
      RedirectResponse(fs, line);
    } else if '%' in path || !IsFile(fs, path) {
      MissingResponse(fs, line);
    } else {
      RegularPermDigit(fs, path);
      FileResponse(fs, line);
    }
  }

  /** `ResponseParts` for a refused command. */
  lemma RefusedResponse(fs: Snapshot, line: RequestLine)
    requires !Allowed(line.command)
    ensures Decide(fs, line) == MethodNotAllowed
    ensures Respond(fs, line) == Success(Framed(line.version, MethodNotAllowed))
  {
  }

  /** `ResponseParts` for the redirect path. */
  lemma RedirectResponse(fs: Snapshot, line: RequestLine)
    requires Allowed(line.command) && Target(line) == RedirectPath
    ensures Decide(fs, line) == MovedPermanently
    ensures Respond(fs, line) == Success(Framed(line.version, MovedPermanently) + RedirectUrl)
  {
  }

  /** `ResponseParts` for a path with a `%` or one that names no regular file. */
  lemma MissingResponse(fs: Snapshot, line: RequestLine)
    requires Allowed(line.command) && Target(line) != RedirectPath
    requires '%' in Target(line) || !IsFile(fs, Target(line))
    ensures Decide(fs, line) == NotFound
    ensures Respond(fs, line) ==
      Append(Framed(line.version, NotFound), AddContentAfterHead(fs, "404.html"))
  {
  }

  /** `ResponseParts` for a path that names a regular file. */
  lemma FileResponse(fs: Snapshot, line: RequestLine)
    requires Allowed(line.command)
    requires Target(line) != RedirectPath && '%' !in Target(line) && IsFile(fs, Target(line))
    requires Stat(fs, Target(line)).value.mode >= 16
    requires (PermDigit(Stat(fs, Target(line)).value.mode) == '1') ==
             OthersMayRead(Stat(fs, Target(line)).value.mode)
    ensures var s := Decide(fs, line);
      PageOf(s, Target(line)).Some? &&
      Respond(fs, line) ==
        Append(Framed(line.version, s), AddContentAfterHead(fs, PageOf(s, Target(line)).value))
  {
    if OthersMayRead(Stat(fs, Target(line)).value.mode) {
      assert Decide(fs, line) == Ok;
    } else {
      assert Decide(fs, line) == Forbidden;
    }
  }

  // ----- What an answer says -----

  /** Whenever `processreq` returns, its text starts with the version word exactly as
      it was received and the code of the status `Decide` owes. */
  lemma ResponseStatus(fs: Snapshot, req: string)
    ensures ProcessReq(fs, req).Success? ==>
      VersionOf(ProcessReq(fs, req).value) == RequestOf(req).version &&
      StatusOf(ProcessReq(fs, req).value) == Some(Decide(fs, RequestOf(req)))
  {
    var line := RequestOf(req);
    var s := Decide(fs, line);
    ParsedWordsHaveNoSpace(req);
    ResponseParts(fs, line);
    match PageOf(s, Target(line))
    case None =>
      ReadFramed(line.version, s, Trailer(s));
    case Some(page) =>
      if Open(fs, page).Some? {
        ReadFramed(line.version, s, Open(fs, page).value);
      }
  }

  /** `processreq` raises exactly when the status owed loads a page and that page
      cannot be opened; the failure names that page. */
  lemma FailsExactlyWhen(fs: Snapshot, req: string)
    ensures var s := Decide(fs, RequestOf(req));
      var page := PageOf(s, Target(RequestOf(req)));
      (ProcessReq(fs, req).Failure? <==> page.Some? && Open(fs, page.value).None?) &&
      (ProcessReq(fs, req).Failure? ==> ProcessReq(fs, req).error == page.value)
  {
    ResponseParts(fs, RequestOf(req));
  }

  /** When it answers, the first check that applies decides the status, in the order
      405, 301, 404, 403, 200; a `%` gives 404, and 400 and 406 are never sent. */
  lemma FirstMatch(fs: Snapshot, req: string)
    requires ProcessReq(fs, req).Success?
    ensures Owed(fs, RequestOf(req), StatusOf(ProcessReq(fs, req).value))
  {
    ResponseStatus(fs, req);
    DecideOwed(fs, RequestOf(req));
  }

  /** Status `st` is the one owed `line`: each code exactly when its check is the
      first to apply, and never 400 or 406. */
  predicate Owed(fs: Snapshot, line: RequestLine, st: Option<Status>)
  {
    var p := Target(line);
    var served := Allowed(line.command) && p != RedirectPath;
    (st == Some(MethodNotAllowed) <==> !Allowed(line.command)) &&
    (st == Some(MovedPermanently) <==> Allowed(line.command) && p == RedirectPath) &&
    (st == Some(NotFound) <==> served && ('%' in p || !IsFile(fs, p))) &&
    (st == Some(Forbidden) <==>
      served && '%' !in p && IsFile(fs, p) && !OthersMayRead(Stat(fs, p).value.mode)) &&
    (st == Some(Ok) <==>
      served && '%' !in p && IsFile(fs, p) && OthersMayRead(Stat(fs, p).value.mode)) &&
    st != Some(BadRequest) && st != Some(NotAcceptable)
  }

  /** `Decide` gives the owed status. */
  lemma DecideOwed(fs: Snapshot, line: RequestLine)
    ensures Owed(fs, line, Some(Decide(fs, line)))
  {
    var p := Target(line);
    if !Allowed(line.command) {
      assert Decide(fs, line) == MethodNotAllowed;
    } else if p == RedirectPath {
      assert Decide(fs, line) == MovedPermanently;
    } else if '%' in p || !IsFile(fs, p) {
      assert Decide(fs, line) == NotFound;
    } else if !OthersMayRead(Stat(fs, p).value.mode) {
      assert Decide(fs, line) == Forbidden;
    } else {
      assert Decide(fs, line) == Ok;
    }
  }

  /** A command other than GET or HEAD gets exactly the 405 constant. */
  lemma MethodNotAllowedText(fs: Snapshot, req: string)
    requires !Allowed(RequestOf(req).command)
    ensures ProcessReq(fs, req) ==
      Success(RequestOf(req).version + " 405 Method Not Allowed\r\n\r\n\r\n")
  {
    RefusedResponse(fs, RequestOf(req));
    Framed405(RequestOf(req).version);
  }

  /** The redirect sends the 301 constant, three line endings and the bare address,
      with no `Location` header, to GET and HEAD alike. */
  lemma RedirectText(fs: Snapshot, req: string)
    requires Allowed(RequestOf(req).command) && Target(RequestOf(req)) == RedirectPath
    ensures ProcessReq(fs, req) ==
      Success(RequestOf(req).version + " 301 Move Permanently\r\n\r\n\r\n" + RedirectUrl)
  {
    RedirectResponse(fs, RequestOf(req));
    Framed301(RequestOf(req).version);
  }

  /** A served file is sent as it is, whatever its extension; if it cannot be opened
      the call raises. */
  lemma ServedBody(fs: Snapshot, req: string)
    requires Decide(fs, RequestOf(req)) == Ok
    ensures var p := Target(RequestOf(req));
      ProcessReq(fs, req) ==
        match Open(fs, p)
        case Some(text) => Success(Framed(RequestOf(req).version, Ok) + text)
        case None => Failure(p)
  {
    ResponseParts(fs, RequestOf(req));
  }

  // ----- How the request text is read -----

  /** HEAD is answered exactly like GET, body included. */
  lemma HeadSameAsGet(fs: Snapshot, t: string)
    ensures ProcessReq(fs, "HEAD " + t) == ProcessReq(fs, "GET " + t)
  {
    assert "HEAD " + t == "HEAD" + " " + t;
    assert "GET " + t == "GET" + " " + t;
    ReplaceCommand("HEAD", "GET", t);
    ParseWordsCommand("GET", t);
    SameTarget(fs, RequestOf("HEAD " + t), RequestOf("GET " + t));
  }

  /** Only whether the command is allowed, the stripped path and the version matter. */
  lemma SameTarget(fs: Snapshot, a: RequestLine, b: RequestLine)
    requires Allowed(a.command) && Allowed(b.command)
    requires a.version == b.version && Target(a) == Target(b)
    ensures Respond(fs, a) == Respond(fs, b)
  {
  }

  /** The whole text is cut at spaces: in `m p v CRLF h w` (a request line and one
      header line) the version read is the header's last word, and the request
      version, the line ending and the header name end up in the path. */
  lemma HeadersInPath(m: string, p: string, v: string, h: string, w: string)
    requires ' ' !in m && ' ' !in w
    ensures RequestOf(m + " " + p + " " + v + CRLF + h + " " + w) ==
      RequestLine(m, p + " " + v + CRLF + h, w)
  {
    var mid := p + " " + v + CRLF + h;
    assert m + " " + p + " " + v + CRLF + h + " " + w == m + " " + mid + " " + w;
    ParseWordsRoundTrip(m, mid, w);
  }
}
