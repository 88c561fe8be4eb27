/** The full server (`6/zhou0745_server.py`): `processreq` reads only the first line
    of the request, normalises the version, and answers through the cascade
    405, 301, 400, 404, 403, 406, 200, sending a body for GET and none for HEAD. */
module ZhouServer {
  import opened Wrappers
  import opened PyStr
  import opened FileSys
  import opened Http

  /** `acc_file_ext`: the extensions a 200 may be served for. */
  const AccFileExt: seq<string> := ["html", "jpeg", "gif", "pdf", "doc", "pptx"]

  /** The two versions echoed back as they are; any other is replaced by the second. */
  const KnownVersions: seq<string> := ["HTTP/1.0", "HTTP/1.1"]
  const DefaultVersion: string := "HTTP/1.1"

  /** `name.split('.')[-1]`: the text after the last dot, or the whole name. */
  function Ext(name: string): string
  {
    Last(Split(name, '.'))
  }

  /** The request line: the text before the first CRLF, cut into words. */
  function RequestOf(req: string): RequestLine
  {
    ParseWords(FirstPiece(req, CRLF))
  }

  /** The version written into the response. */
  function EchoVersion(version: string): (r: string)
    ensures r in KnownVersions && ' ' !in r
    ensures version in KnownVersions ==> r == version
    ensures version !in KnownVersions ==> r == DefaultVersion
  {
    if version in KnownVersions then version else DefaultVersion
  }

  /** The constants `OK`, `ERROR_400` ... `ERROR_406` (status line and three line
      endings) and `REDIR_301` (status line and one line ending). */
  function StatusConst(ver: string, s: Status): string
  {
    if s == MovedPermanently then StatusLine(ver, s) + CRLF else Framed(ver, s)
  }

  /** `add_content_after_head`: an `html` file's text (empty when it cannot be opened);
      for any other extension a placeholder naming the file, not its contents. */
  function AddContentAfterHead(fs: Snapshot, filename: string): string
  {
    var ext := Ext(filename);
    if ext == "html" then
      match Open(fs, filename)
      case Some(text) => text
      case None => ""
    else
      "a '" + ext + "' file called '" + filename + "'"
  }

  /** `processreq`: parse the first line, then answer it. */
  function ProcessReq(fs: Snapshot, req: string): string
  {
    Respond(fs, RequestOf(req))
  }

  /** The decision part of `processreq`: the method check, then `Route`. Total: once
      the command is GET or HEAD every branch answers. */
  function Respond(fs: Snapshot, line: RequestLine): string
  {
    var ver := EchoVersion(line.version);
    if line.command !in ["GET", "HEAD"] then StatusConst(ver, MethodNotAllowed)
    else Route(fs, line.command == "GET", ver, LStrip(line.path, '/'))
  }

  /** The checks on the stripped path of a GET (`get`) or HEAD request: redirect,
      `%`, existence, then `ServeFile`. */
  function Route(fs: Snapshot, get: bool, ver: string, path: string): string
  {
    if path == RedirectPath then
      if get then StatusConst(ver, MovedPermanently) + "Location: " + RedirectUrl
      else StatusConst(ver, MovedPermanently)
    else if '%' in path then
      if get then StatusConst(ver, BadRequest) + AddContentAfterHead(fs, "400.html")
      else StatusConst(ver, BadRequest)
    else if !IsFile(fs, path) then
      if get then StatusConst(ver, NotFound) + AddContentAfterHead(fs, "404.html")
      else StatusConst(ver, NotFound)
    else ServeFile(fs, get, ver, path)
  }

  /** The checks on an existing regular file: the permission digit, then the
      extension. */
  function ServeFile(fs: Snapshot, get: bool, ver: string, path: string): string
    requires IsFile(fs, path)
  {
    RegularModeIsLarge(Stat(fs, path).value.mode);
    if PermDigit(Stat(fs, path).value.mode) == '1' then
      if Ext(path) !in AccFileExt then
        if get then StatusConst(ver, NotAcceptable) + AddContentAfterHead(fs, "406.html")
        else StatusConst(ver, NotAcceptable)
      else if get then StatusConst(ver, Ok) + AddContentAfterHead(fs, path)
      else StatusConst(ver, Ok)
    else
      if get then StatusConst(ver, Forbidden) + AddContentAfterHead(fs, "403.html")
      else StatusConst(ver, Forbidden)
  }

  // ----- The decision, stated on its own -----

  /** The status the server owes a request line: the first of the checks, in order,
      that applies. Stated with the others-read bit itself rather than the digit
      test `processreq` performs. */
  function Decide(fs: Snapshot, line: RequestLine): Status
  {
    if !Allowed(line.command) then MethodNotAllowed else PathStatus(fs, Target(line))
  }

  /** The status owed a stripped path once the command is allowed. */
  function PathStatus(fs: Snapshot, p: string): Status
  {
    if p == RedirectPath then MovedPermanently
    else if '%' in p then BadRequest
    else if !IsFile(fs, p) then NotFound
    else FileStatus(fs, p)
  }

  /** The status owed an existing regular file. */
  function FileStatus(fs: Snapshot, p: string): Status
    requires IsFile(fs, p)
  {
    if !OthersMayRead(Stat(fs, p).value.mode) then Forbidden
    else if Ext(p) !in AccFileExt then NotAcceptable
    else Ok
  }

  /** The error page sent with a status: the code followed by `.html`. */
  function ErrorPage(s: Status): string
  {
    match s
    case BadRequest => "400.html"
    case Forbidden => "403.html"
    case NotFound => "404.html"
    case NotAcceptable => "406.html"
    case _ => ""
  }

  /** The body a GET receives with a given status. */
  function GetBody(fs: Snapshot, s: Status, path: string): string
  {
    if s == MovedPermanently then "Location: " + RedirectUrl
    else if s == Ok then AddContentAfterHead(fs, path)
    else AddContentAfterHead(fs, ErrorPage(s))
  }

  // ----- Extensions and page loading -----

  /** A name without a dot is its own extension. */
  lemma ExtNoDot(name: string)
    requires '.' !in name
    ensures Ext(name) == name
  {
    SplitNoSep(name, '.');
  }

  /** With a dot, the extension is what follows the last one. */
  lemma ExtAfterLastDot(stem: string, e: string)
    requires '.' !in e
    ensures Ext(stem + "." + e) == e
  {
    SplitAppend(stem, e, '.');
    SplitNoSep(e, '.');
  }

  /** A `.html` name has extension `html`. */
  lemma HtmlExt(stem: string)
    ensures Ext(stem + ".html") == "html"
  {
    assert stem + ".html" == stem + "." + "html";
    ExtAfterLastDot(stem, "html");
  }

  /** Loading a `.html` name yields the file's text, or nothing when it cannot be opened. */
  lemma HtmlPageContents(fs: Snapshot, stem: string)
    ensures AddContentAfterHead(fs, stem + ".html") ==
      match Open(fs, stem + ".html")
      case Some(text) => text
      case None => ""
  {
    HtmlExt(stem);
  }

  /** Loading any other name yields a placeholder that does not depend on the file. */
  lemma PlaceholderContents(fs: Snapshot, stem: string, e: string)
    requires '.' !in e && e != "html"
    ensures AddContentAfterHead(fs, stem + "." + e) ==
      "a '" + e + "' file called '" + stem + "." + e + "'"
  {
    ExtAfterLastDot(stem, e);
  }

  /** A name without a dot is its own extension, so any name other than `html` loads
      as a placeholder naming it twice. */
  lemma DotlessPlaceholder(fs: Snapshot, name: string)
    requires '.' !in name && name != "html"
    ensures AddContentAfterHead(fs, name) == "a '" + name + "' file called '" + name + "'"
  {
    ExtNoDot(name);
  }

  /** The bare name `html` is its own extension and is loaded as a page. */
  lemma BareHtmlContents(fs: Snapshot)
    ensures AddContentAfterHead(fs, "html") ==
      match Open(fs, "html")
      case Some(text) => text
      case None => ""
  {
    ExtNoDot("html");
  }

  // ----- The cascade -----

  /** A status constant followed by any body reads back as its version and its status. */
  lemma ReadConst(ver: string, s: Status, body: string)
    requires ' ' !in ver
    ensures VersionOf(StatusConst(ver, s) + body) == ver
    ensures StatusOf(StatusConst(ver, s) + body) == Some(s)
  {
    var a := ver + " " + Code(s) + " ";
    var sl := StatusLine(ver, s);
    if s == MovedPermanently {
      Assoc(a, Reason(s), CRLF);
      Assoc(a, Reason(s) + CRLF, body);
      ReadStatus(ver, s, Reason(s) + CRLF + body);
    } else {
      ReadFramed(ver, s, body);
    }
  }

  /** Every response is the constant of the status `Decide` owes, followed by the GET
      body for that status, or by nothing for HEAD. */
  lemma ResponseParts(fs: Snapshot, line: RequestLine)
    ensures var s := Decide(fs, line);
      Respond(fs, line) ==
        StatusConst(EchoVersion(line.version), s)
        + (if line.command == "GET" then GetBody(fs, s, Target(line)) else "")
  {
    if Allowed(line.command) {
      RouteParts(fs, line.command == "GET", EchoVersion(line.version), Target(line));
    }
  }

  /** `ResponseParts` after the method check. */
  lemma RouteParts(fs: Snapshot, get: bool, ver: string, path: string)
    ensures var s := PathStatus(fs, path);
      Route(fs, get, ver, path) ==
        StatusConst(ver, s) + (if get then GetBody(fs, s, path) else "")
  {
    if path == RedirectPath {
      assert PathStatus(fs, path) == MovedPermanently;
    } else if '%' in path {
      assert PathStatus(fs, path) == BadRequest;
    } else if !IsFile(fs, path) {
      assert PathStatus(fs, path) == NotFound;
    } else {
      FileParts(fs, get, ver, path);
    }
  }

  /** `ResponseParts` for an existing regular file. */
  lemma FileParts(fs: Snapshot, get: bool, ver: string, path: string)
    requires IsFile(fs, path)
    ensures var s := FileStatus(fs, path);
      ServeFile(fs, get, ver, path) ==
        StatusConst(ver, s) + (if get then GetBody(fs, s, path) else "")
  {
    RegularPermDigit(fs, path);
    if !OthersMayRead(Stat(fs, path).value.mode) {
      assert FileStatus(fs, path) == Forbidden;
    } else if Ext(path) !in AccFileExt {
      assert FileStatus(fs, path) == NotAcceptable;
    } else {
      assert FileStatus(fs, path) == Ok;
    }
  }

  // ----- What a response says -----

  /** Every response starts with the echoed version and the code of the status
      `Decide` owes the first line. */
  lemma ResponseStatus(fs: Snapshot, req: string)
    ensures VersionOf(ProcessReq(fs, req)) == EchoVersion(RequestOf(req).version)
    ensures StatusOf(ProcessReq(fs, req)) == Some(Decide(fs, RequestOf(req)))
  {
    var line := RequestOf(req);
    var s := Decide(fs, line);
    ResponseParts(fs, line);
    ReadConst(EchoVersion(line.version), s,
      if line.command == "GET" then GetBody(fs, s, Target(line)) else "");
  }

  /** The first check that applies decides the status, in the order 405, 301, 400,
      404, 403, 406, 200; each status is owed exactly when its check is the first
      to apply. */
  lemma FirstMatch(fs: Snapshot, req: string)
    ensures var line := RequestOf(req);
      var p := Target(line);
      var st := StatusOf(ProcessReq(fs, req));
      var served := Allowed(line.command) && p != RedirectPath && '%' !in p;
      (st == Some(MethodNotAllowed) <==> !Allowed(line.command)) &&
      (st == Some(MovedPermanently) <==> Allowed(line.command) && p == RedirectPath) &&
      (st == Some(BadRequest) <==> Allowed(line.command) && p != RedirectPath && '%' in p) &&
      (st == Some(NotFound) <==> served && !IsFile(fs, p)) &&
      (st == Some(Forbidden) <==>
        served && IsFile(fs, p) && !OthersMayRead(Stat(fs, p).value.mode)) &&
      (st == Some(NotAcceptable) <==>
        served && IsFile(fs, p) && OthersMayRead(Stat(fs, p).value.mode)
        && Ext(p) !in AccFileExt) &&
      (st == Some(Ok) <==>
        served && IsFile(fs, p) && OthersMayRead(Stat(fs, p).value.mode)
        && Ext(p) in AccFileExt)
  {
    ResponseStatus(fs, req);
  }

  /** A request whose version is neither `HTTP/1.0` nor `HTTP/1.1` (a missing one
      included) is answered as `HTTP/1.1`; a recognised one is answered in kind. */
  lemma VersionEchoed(fs: Snapshot, req: string)
    ensures var v := RequestOf(req).version;
      VersionOf(ProcessReq(fs, req)) == if v in KnownVersions then v else "HTTP/1.1"
  {
    ResponseStatus(fs, req);
  }

  /** A command other than GET or HEAD gets exactly the 405 constant, whatever the
      path and whatever the files. */
  lemma MethodNotAllowedText(fs: Snapshot, req: string)
    requires !Allowed(RequestOf(req).command)
    ensures ProcessReq(fs, req) ==
      EchoVersion(RequestOf(req).version) + " 405 Method Not Allowed\r\n\r\n\r\n"
  {
    var ver := EchoVersion(RequestOf(req).version);
    ResponseParts(fs, RequestOf(req));
    Framed405(ver);
  }

  /** The redirect: GET gets the 301 line and a `Location` header naming the
      department's site, HEAD only the 301 line. */
  lemma RedirectText(fs: Snapshot, req: string)
    requires Allowed(RequestOf(req).command) && Target(RequestOf(req)) == RedirectPath
    ensures var ver := EchoVersion(RequestOf(req).version);
      ProcessReq(fs, req) ==
        if RequestOf(req).command == "GET"
        then ver + " 301 Move Permanently\r\n" + "Location: " + RedirectUrl
        else ver + " 301 Move Permanently\r\n"
  {
    var ver := EchoVersion(RequestOf(req).version);
    ResponseParts(fs, RequestOf(req));
    Line301(ver);
  }

  /** A HEAD request gets the bare status constant and no body, on every branch. */
  lemma HeadIsBare(fs: Snapshot, req: string)
    requires RequestOf(req).command == "HEAD"
    ensures ProcessReq(fs, req) ==
      StatusConst(VersionOf(ProcessReq(fs, req)), Decide(fs, RequestOf(req)))
  {
    ResponseParts(fs, RequestOf(req));
    ResponseStatus(fs, req);
  }

  /** A GET request gets the same status constant followed by the body for its status. */
  lemma GetResponse(fs: Snapshot, req: string)
    requires RequestOf(req).command == "GET"
    ensures var s := Decide(fs, RequestOf(req));
      ProcessReq(fs, req) ==
        StatusConst(VersionOf(ProcessReq(fs, req)), s)
        + GetBody(fs, s, Target(RequestOf(req)))
  {
    ResponseParts(fs, RequestOf(req));
    ResponseStatus(fs, req);
  }

  /** A served `.html` file is sent as it is; when it cannot be read the body is empty. */
  lemma ServedHtmlBody(fs: Snapshot, req: string, stem: string)
    requires RequestOf(req).command == "GET" && Decide(fs, RequestOf(req)) == Ok
    requires Target(RequestOf(req)) == stem + ".html"
    ensures ProcessReq(fs, req) ==
      Framed(VersionOf(ProcessReq(fs, req)), Ok) +
        match Open(fs, stem + ".html")
        case Some(text) => text
        case None => ""
  {
    GetResponse(fs, req);
    HtmlPageContents(fs, stem);
  }

  /** A served file of any other accepted extension is answered with a placeholder
      sentence naming it, never with its contents. */
  lemma ServedOtherBody(fs: Snapshot, req: string, stem: string, e: string)
    requires RequestOf(req).command == "GET" && Decide(fs, RequestOf(req)) == Ok
    requires '.' !in e && e != "html" && Target(RequestOf(req)) == stem + "." + e
    ensures ProcessReq(fs, req) ==
      Framed(VersionOf(ProcessReq(fs, req)), Ok) +
        ("a '" + e + "' file called '" + stem + "." + e + "'")
  {
    var ver := VersionOf(ProcessReq(fs, req));
    GetResponse(fs, req);
    assert ProcessReq(fs, req) == Framed(ver, Ok) + AddContentAfterHead(fs, stem + "." + e);
    PlaceholderContents(fs, stem, e);
  }

  /** A served file whose name has no dot (`pdf`, say) is answered with the
      placeholder naming it as both extension and file. */
  lemma ServedDotlessBody(fs: Snapshot, req: string)
    requires RequestOf(req).command == "GET" && Decide(fs, RequestOf(req)) == Ok
    requires '.' !in Target(RequestOf(req)) && Target(RequestOf(req)) != "html"
    ensures var p := Target(RequestOf(req));
      ProcessReq(fs, req) ==
        Framed(VersionOf(ProcessReq(fs, req)), Ok) + ("a '" + p + "' file called '" + p + "'")
  {
    var p := Target(RequestOf(req));
    var ver := VersionOf(ProcessReq(fs, req));
    GetResponse(fs, req);
    assert ProcessReq(fs, req) == Framed(ver, Ok) + AddContentAfterHead(fs, p);
    DotlessPlaceholder(fs, p);
  }

  /** A served file called just `html` is sent as it is, like any `.html` page. */
  lemma ServedBareHtmlBody(fs: Snapshot, req: string)
    requires RequestOf(req).command == "GET" && Decide(fs, RequestOf(req)) == Ok
    requires Target(RequestOf(req)) == "html"
    ensures ProcessReq(fs, req) ==
      Framed(VersionOf(ProcessReq(fs, req)), Ok) +
        match Open(fs, "html")
        case Some(text) => text
        case None => ""
  {
    var ver := VersionOf(ProcessReq(fs, req));
    GetResponse(fs, req);
    assert ProcessReq(fs, req) == Framed(ver, Ok) + AddContentAfterHead(fs, "html");
    BareHtmlContents(fs);
  }

  // ----- How the request text is read -----

  /** HEAD and GET of the same target get the same status, and the HEAD response is
      the GET response with its body cut off. */
  lemma HeadIsPrefixOfGet(fs: Snapshot, t: string)
    ensures StatusOf(ProcessReq(fs, "HEAD " + t)) == StatusOf(ProcessReq(fs, "GET " + t))
    ensures ProcessReq(fs, "HEAD " + t) <= ProcessReq(fs, "GET " + t)
  {
    HeadLineOf(t);
    HeadOfGet(fs, RequestOf("GET " + t));
    ResponseStatus(fs, "HEAD " + t);
    ResponseStatus(fs, "GET " + t);
  }

  /** `HEAD t` parses as `GET t` with the other command. */
  lemma HeadLineOf(t: string)
    ensures RequestOf("GET " + t).command == "GET"
    ensures RequestOf("HEAD " + t) == RequestOf("GET " + t).(command := "HEAD")
  {
    var x := FirstPiece(t, CRLF);
    assert "HEAD " + t == "HEAD" + " " + t;
    assert "GET " + t == "GET" + " " + t;
    CommandFirst("HEAD", t);
    CommandFirst("GET", t);
    ReplaceCommand("HEAD", "GET", x);
    ParseWordsCommand("GET", x);
  }

  /** A first word without a CR stays whole on the first line. */
  lemma CommandFirst(w: string, t: string)
    requires ' ' !in w && '\r' !in w
    ensures RequestOf(w + " " + t) == ParseWords(w + " " + FirstPiece(t, CRLF))
  {
    FirstPiecePrefix(w + " ", t, CRLF);
    Assoc(w, " ", t);
    Assoc(w, " ", FirstPiece(t, CRLF));
  }

  /** On the same line, the HEAD response is the GET response without its body. */
  lemma HeadOfGet(fs: Snapshot, line: RequestLine)
    requires line.command == "GET"
    ensures Decide(fs, line.(command := "HEAD")) == Decide(fs, line)
    ensures Respond(fs, line.(command := "HEAD")) <= Respond(fs, line)
    ensures Respond(fs, line) ==
      Respond(fs, line.(command := "HEAD")) + GetBody(fs, Decide(fs, line), Target(line))
  {
    var head := line.(command := "HEAD");
    var s := Decide(fs, line);
    assert Target(head) == Target(line);
    assert Decide(fs, head) == s;
    var a := StatusConst(EchoVersion(line.version), s);
    ResponseParts(fs, line);
    ResponseParts(fs, head);
    assert Respond(fs, head) == a + "";
    assert a + "" == a;
    assert Respond(fs, line) == a + GetBody(fs, s, Target(line));
    IsPrefix(a, GetBody(fs, s, Target(line)));
  }

  /** Only the first line is read: whatever follows the first CRLF (headers, body)
      does not change the response. */
  lemma FirstLineOnly(fs: Snapshot, line: string, rest: string)
    requires NoCrlf(line)
    ensures ProcessReq(fs, line + CRLF + rest) == ProcessReq(fs, line)
  {
    FirstLineOf(line, rest);
  }

  /** Leading slashes are stripped however many there are: `/x`, `//x` and `x` name
      the same file. */
  lemma LeadingSlashes(fs: Snapshot, line: RequestLine, k: nat)
    ensures Respond(fs, line.(path := seq(k, _ => '/') + line.path)) == Respond(fs, line)
  {
    LStripMore(k, line.path, '/');
    SameTarget(fs, line, line.(path := seq(k, _ => '/') + line.path));
  }

  /** The path is used only after its slashes are stripped. */
  lemma SameTarget(fs: Snapshot, a: RequestLine, b: RequestLine)
    requires a.command == b.command && a.version == b.version && Target(a) == Target(b)
    ensures Respond(fs, a) == Respond(fs, b)
  {
  }

  /** A first line of fewer than three words has an empty path, which names no file:
      a GET or HEAD of it is answered 404, not 400. */
  lemma ShortRequestNotFound(fs: Snapshot, req: string)
    requires |Split(FirstPiece(req, CRLF), ' ')| <= 2
    requires Allowed(RequestOf(req).command)
    ensures StatusOf(ProcessReq(fs, req)) == Some(NotFound)
  {
    assert Target(RequestOf(req)) == "";
    ResponseStatus(fs, req);
  }

  // ----- Two exchanges -----

  /** A one-line request `m p v` is read as command `m`, path `p` and version `v`. */
  lemma OneLine(m: string, p: string, v: string)
    requires ' ' !in m && ' ' !in v && '\r' !in m + p + v
    ensures RequestOf(m + " " + p + " " + v) == RequestLine(m, p, v)
  {
    var line := m + " " + p + " " + v;
    assert forall ch :: ch in line ==> ch in m + p + v || ch == ' ';
    NoCrlfWithoutCr(line);
    FirstLineOf(line, "");
    ParseWordsRoundTrip(m, p, v);
  }

  /** `GET /index.html HTTP/1.1`, with `index.html` a world-readable regular file
      (mode 0o100644) holding `<p>hi</p>`, gets the 200 constant and that text. */
  lemma GetIndex(fs: Snapshot)
    requires "index.html" in fs && fs["index.html"] == FileInfo(0x81A4, Some("<p>hi</p>"))
    ensures ProcessReq(fs, "GET" + " " + "/index.html" + " " + "HTTP/1.1") ==
      "HTTP/1.1" + " 200 OK\r\n\r\n\r\n" + "<p>hi</p>"
  {
    var req := "GET" + " " + "/index.html" + " " + "HTTP/1.1";
    ScenarioLine("GET", "index.html", req);
    IndexFile(fs);
    HtmlServed(fs, RequestOf(req), "index");
    ServedHtmlBody(fs, req, "index");
    ResponseStatus(fs, req);
    FramedOk("HTTP/1.1");
  }

  /** How the scenarios' requests are read: `<command> /<name> HTTP/1.1` on one line
      names the file `name`. */
  lemma ScenarioLine(command: string, name: string, req: string)
    requires ' ' !in command && '\r' !in command + name
    requires |name| > 0 && name[0] != '/'
    requires req == command + " " + "/" + name + " " + "HTTP/1.1"
    ensures RequestOf(req) == RequestLine(command, "/" + name, "HTTP/1.1")
    ensures Target(RequestOf(req)) == name
  {
    assert '\r' !in "/" && '\r' !in "HTTP/1.1";
    assert req == command + " " + ("/" + name) + " " + "HTTP/1.1";
    OneLine(command, "/" + name, "HTTP/1.1");
    SlashedName(name);
  }

  /** The file of `GetIndex` is a world-readable regular file. */
  lemma IndexFile(fs: Snapshot)
    requires "index.html" in fs && fs["index.html"] == FileInfo(0x81A4, Some("<p>hi</p>"))
    ensures "index.html" == "index" + ".html" && '%' !in "index.html"
    ensures "index.html" != RedirectPath
    ensures IsFile(fs, "index.html") && OthersMayRead(Stat(fs, "index.html").value.mode)
  {
    assert Stat(fs, "index.html") == Some(FileInfo(0x81A4, Some("<p>hi</p>")));
  }

  /** A readable regular `.html` file with no `%` in its name is served. */
  lemma HtmlServed(fs: Snapshot, line: RequestLine, stem: string)
    requires Allowed(line.command) && Target(line) == stem + ".html"
    requires stem + ".html" != RedirectPath && '%' !in stem + ".html"
    requires IsFile(fs, stem + ".html") && OthersMayRead(Stat(fs, stem + ".html").value.mode)
    ensures Decide(fs, line) == Ok
  {
    HtmlExt(stem);
    assert FileStatus(fs, stem + ".html") == Ok;
    assert PathStatus(fs, stem + ".html") == Ok;
  }

  /** `HEAD /missing.html HTTP/1.1`, with no such file, gets the bare 404 constant. */
  lemma HeadMissing(fs: Snapshot)
    requires "missing.html" !in fs
    ensures ProcessReq(fs, "HEAD" + " " + "/missing.html" + " " + "HTTP/1.1") ==
      "HTTP/1.1" + " 404 Not Found\r\n\r\n\r\n"
  {
    var req := "HEAD" + " " + "/missing.html" + " " + "HTTP/1.1";
    ScenarioLine("HEAD", "missing.html", req);
    MissingName();
    NameNotFound(fs, RequestOf(req), "missing.html");
    ResponseParts(fs, RequestOf(req));
    Framed404("HTTP/1.1");
  }

  /** The name and version of `HeadMissing`: an ordinary name, a recognised version. */
  lemma MissingName()
    ensures "missing.html" != RedirectPath && '%' !in "missing.html"
    ensures EchoVersion("HTTP/1.1") == "HTTP/1.1"
  {
    assert "HTTP/1.1" == KnownVersions[1];
  }

  /** A name with no `%` that is absent from the snapshot is a 404. */
  lemma NameNotFound(fs: Snapshot, line: RequestLine, name: string)
    requires Allowed(line.command) && Target(line) == name
    requires name != RedirectPath && '%' !in name && name !in fs
    ensures Decide(fs, line) == NotFound
  {
  }

  /** One leading slash before a name that does not start with one. */
  lemma SlashedName(name: string)
    requires |name| > 0 && name[0] != '/'
    ensures LStrip("/" + name, '/') == name
  {
    assert "/" + name == seq(1, _ => '/') + name;
    LStripPrefix(1, name, '/');
  }
}
