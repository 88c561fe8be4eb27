/** How the two versions of `processreq` relate on a request of one line (no CRLF),
    the only kind on which both read the same command, path and version. */
module Versions {
  import opened Wrappers
  import opened FileSys
  import opened Http
  import ZhouServer
  import HackedServer

  /** On a single line both servers read the same three parts. */
  lemma SameLine(req: string)
    requires NoCrlf(req)
    ensures ZhouServer.RequestOf(req) == HackedServer.RequestOf(req)
  {
    FirstLineOf(req, "");
  }

  /** A refused command with a recognised version gets the same 405 from both. */
  lemma Agree405(fs: Snapshot, req: string)
    requires NoCrlf(req)
    requires HackedServer.RequestOf(req).version in ZhouServer.KnownVersions
    requires !Allowed(HackedServer.RequestOf(req).command)
    ensures HackedServer.ProcessReq(fs, req) == Success(ZhouServer.ProcessReq(fs, req))
  {
    SameLine(req);
    ZhouServer.MethodNotAllowedText(fs, req);
    HackedServer.MethodNotAllowedText(fs, req);
  }

  /** The reduced server never checks the extension: a file the full server refuses
      with 406 is owed 200 by it, and it sends the file's text, or raises when the
      file cannot be read. */
  lemma ExtensionIgnored(fs: Snapshot, req: string)
    requires NoCrlf(req)
    requires ZhouServer.Decide(fs, ZhouServer.RequestOf(req)) == NotAcceptable
    ensures HackedServer.Decide(fs, HackedServer.RequestOf(req)) == Ok
    ensures var p := Target(HackedServer.RequestOf(req));
      HackedServer.ProcessReq(fs, req) ==
        match Open(fs, p)
        case Some(text) => Success(Framed(HackedServer.RequestOf(req).version, Ok) + text)
        case None => Failure(p)
  {
    SameLine(req);
    HackedServer.ServedBody(fs, req);
  }

  /** A `%` in the path is a 400 for the full server and a 404 for the reduced one. */
  lemma PercentDiffers(fs: Snapshot, req: string)
    requires NoCrlf(req)
    requires Allowed(HackedServer.RequestOf(req).command)
    requires Target(HackedServer.RequestOf(req)) != RedirectPath
    requires '%' in Target(HackedServer.RequestOf(req))
    ensures StatusOf(ZhouServer.ProcessReq(fs, req)) == Some(BadRequest)
    ensures HackedServer.ProcessReq(fs, req).Success? ==>
      StatusOf(HackedServer.ProcessReq(fs, req).value) == Some(NotFound)
  {
    SameLine(req);
    ZhouServer.ResponseStatus(fs, req);
    HackedServer.ResponseStatus(fs, req);
  }

  /** Both statuses agree once the full server's 400 and 406 are set aside. */
  lemma SameDecision(fs: Snapshot, line: RequestLine)
    requires ZhouServer.Decide(fs, line) != BadRequest
    requires ZhouServer.Decide(fs, line) != NotAcceptable
    ensures HackedServer.Decide(fs, line) == ZhouServer.Decide(fs, line)
  {
  }

  /** On a one-line GET with a recognised version that is not redirected, where the
      full server sends neither 400 nor 406 and serves only `.html` files, and the
      reduced server does not raise, both send the same text. */
  lemma AgreeOnGet(fs: Snapshot, req: string)
    requires NoCrlf(req)
    requires HackedServer.RequestOf(req).command == "GET"
    requires HackedServer.RequestOf(req).version in ZhouServer.KnownVersions
    requires Target(HackedServer.RequestOf(req)) != RedirectPath
    requires ZhouServer.Decide(fs, HackedServer.RequestOf(req)) != BadRequest
    requires ZhouServer.Decide(fs, HackedServer.RequestOf(req)) != NotAcceptable
    requires ZhouServer.Decide(fs, HackedServer.RequestOf(req)) == Ok ==>
      ZhouServer.Ext(Target(HackedServer.RequestOf(req))) == "html"
    requires HackedServer.ProcessReq(fs, req).Success?
    ensures HackedServer.ProcessReq(fs, req).value == ZhouServer.ProcessReq(fs, req)
  {
    var line := HackedServer.RequestOf(req);
    var s := ZhouServer.Decide(fs, line);
    SameLine(req);
    SameDecision(fs, line);
    ZhouServer.GetResponse(fs, req);
    ZhouServer.ResponseStatus(fs, req);
    HackedServer.ResponseParts(fs, line);
    var page := HackedServer.PageOf(s, Target(line)).value;
    AgreeOnPage(fs, s, Target(line));
    assert ZhouServer.GetBody(fs, s, Target(line)) ==
      ZhouServer.AddContentAfterHead(fs, page);
  }

  /** A page both servers load is read the same way when it can be opened. */
  lemma AgreeOnPage(fs: Snapshot, s: Status, path: string)
    requires s == Ok || s == Forbidden || s == NotFound
    requires s == Ok ==> ZhouServer.Ext(path) == "html"
    ensures var page := HackedServer.PageOf(s, path).value;
      ZhouServer.GetBody(fs, s, path) == ZhouServer.AddContentAfterHead(fs, page) &&
      (Open(fs, page).Some? ==>
        ZhouServer.AddContentAfterHead(fs, page) == Open(fs, page).value)
  {
    if s == Forbidden {
      assert "403.html" == "403" + ".html";
      ZhouServer.HtmlPageContents(fs, "403");
    } else if s == NotFound {
      assert "404.html" == "404" + ".html";
      ZhouServer.HtmlPageContents(fs, "404");
    }
  }
}
