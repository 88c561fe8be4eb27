/** What both versions of the server share: the line ending, the status codes and
    their reason phrases, the way a request line is cut into command, path and
    version, and two readers that recover the version and the status from a
    response text. */
module Http {
  import opened Wrappers
  import opened PyStr

  const CRLF: string := "\r\n"

  /** The one path that is redirected, after leading slashes are stripped, and where to. */
  const RedirectPath: string := "csumn"
  const RedirectUrl: string := "https://www.cs.umn.edu/"

  /** The only commands served; every other gets 405. */
  predicate Allowed(command: string)
  {
    command == "GET" || command == "HEAD"
  }

  /** The text holds no CRLF. */
  predicate NoCrlf(s: string)
  {
    NoneBefore(s, |s|, CRLF)
  }

  /** The three parts of a request line (`METHOD SP target SP version`, section 3.1.1 of
      RFC 7230); the method is called the command here, as in the source comments. */
  datatype RequestLine = RequestLine(command: string, path: string, version: string)

  /** `words = text.split(' ')`; command `words[0]`, version `words[-1]`, path
      `' '.join(words[1:-1])`. */
  function ParseWords(text: string): RequestLine
  {
    var words := Split(text, ' ');
    RequestLine(words[0], Join(Middle(words), ' '), Last(words))
  }

  /** The file a request line names: its path with every leading `/` removed. */
  function Target(line: RequestLine): string
  {
    LStrip(line.path, '/')
  }

  /** The outcomes the servers answer with. */
  datatype Status =
    | Ok | MovedPermanently | BadRequest | Forbidden | NotFound | MethodNotAllowed | NotAcceptable

  /** The three-digit code written on the status line. */
  function Code(s: Status): string
  {
    match s
    case Ok => "200"
    case MovedPermanently => "301"
    case BadRequest => "400"
    case Forbidden => "403"
    case NotFound => "404"
    case MethodNotAllowed => "405"
    case NotAcceptable => "406"
  }

  /** The reason phrases as the source spells them; "Move Permanently" and "Not
      Acceptable Response" differ from sections 6.4.2 and 6.5.6 of RFC 7231. */
  function Reason(s: Status): string
  {
    match s
    case Ok => "OK"
    case MovedPermanently => "Move Permanently"
    case BadRequest => "Bad Request"
    case Forbidden => "Forbidden"
    case NotFound => "Not Found"
    case MethodNotAllowed => "Method Not Allowed"
    case NotAcceptable => "Not Acceptable Response"
  }

  /** Reads a status code back; `None` for text that is not one of the seven codes. */
  function ParseCode(code: string): Option<Status>
  {
    if code == "200" then Some(Ok)
    else if code == "301" then Some(MovedPermanently)
    else if code == "400" then Some(BadRequest)
    else if code == "403" then Some(Forbidden)
    else if code == "404" then Some(NotFound)
    else if code == "405" then Some(MethodNotAllowed)
    else if code == "406" then Some(NotAcceptable)
    else None
  }

  /** `'{} <code> <reason>'.format(version)`. */
  function StatusLine(version: string, s: Status): string
  {
    version + " " + Code(s) + " " + Reason(s)
  }

  /** The status constants built as `'{} <code> <reason>{}{}{}'`: the status line and
      three line endings. */
  function Framed(version: string, s: Status): string
  {
    StatusLine(version, s) + CRLF + CRLF + CRLF
  }

  /** The first space-separated word of a response: its version. */
  function VersionOf(response: string): string
  {
    Split(response, ' ')[0]
  }

  /** The second space-separated word of a response, read as a status code. */
  function StatusOf(response: string): Option<Status>
  {
    var words := Split(response, ' ');
    if |words| >= 2 then ParseCode(words[1]) else None
  }

  /** Codes are single words, and reading one back gives the status it was written for. */
  lemma CodeRoundTrip(s: Status)
    ensures ' ' !in Code(s)
    ensures ParseCode(Code(s)) == Some(s)
  {
  }

  /** Command and version are single words and the path is everything between them,
      spaces included: parsing recovers the three parts of any request line. */
  lemma ParseWordsRoundTrip(m: string, p: string, v: string)
    requires ' ' !in m && ' ' !in v
    ensures ParseWords(m + " " + p + " " + v) == RequestLine(m, p, v)
  {
    var text := m + " " + p + " " + v;
    assert text == m + [' '] + (p + [' '] + v);
    SplitAppend(m, p + [' '] + v, ' ');
    SplitAppend(p, v, ' ');
    SplitNoSep(m, ' ');
    SplitNoSep(v, ' ');
    var ws := Split(text, ' ');
    var ps := Split(p, ' ');
    assert ws == [m] + ps + [v];
    assert Middle(ws) == ps;
    JoinSplit(p, ' ');
  }

  /** The command and the version are whole words: they hold no space. */
  lemma ParsedWordsHaveNoSpace(text: string)
    ensures ' ' !in ParseWords(text).command && ' ' !in ParseWords(text).version
  {
    var words := Split(text, ' ');
    assert ' ' !in words[|words| - 1];
  }

  /** A response that starts with a version word and a code reads back as those. */
  lemma ReadStatus(version: string, s: Status, tail: string)
    requires ' ' !in version
    ensures VersionOf(version + " " + Code(s) + " " + tail) == version
    ensures StatusOf(version + " " + Code(s) + " " + tail) == Some(s)
  {
    var code := Code(s);
    CodeRoundTrip(s);
    var r := version + " " + code + " " + tail;
    assert r == version + [' '] + (code + [' '] + tail);
    SplitAppend(version, code + [' '] + tail, ' ');
    SplitAppend(code, tail, ' ');
    SplitNoSep(version, ' ');
    SplitNoSep(code, ' ');
    assert Split(r, ' ') == [version] + ([code] + Split(tail, ' '));
  }

  /** A framed constant followed by any body reads back as its version and status. */
  lemma ReadFramed(version: string, s: Status, body: string)
    requires ' ' !in version
    ensures VersionOf(Framed(version, s) + body) == version
    ensures StatusOf(Framed(version, s) + body) == Some(s)
  {
    var a := version + " " + Code(s) + " ";
    var sl := StatusLine(version, s);
    Assoc(sl, CRLF, CRLF);
    Assoc(sl, CRLF + CRLF, CRLF);
    Assoc(a, Reason(s), CRLF + CRLF + CRLF);
    Assoc(a, Reason(s) + (CRLF + CRLF + CRLF), body);
    ReadStatus(version, s, Reason(s) + (CRLF + CRLF + CRLF) + body);
  }

  /** The 301 constant with three line endings spelled out. */
  lemma Framed301(version: string)
    ensures Framed(version, MovedPermanently) ==
      version + " 301 Move Permanently\r\n\r\n\r\n"
  {
    FramedText(version, MovedPermanently);
  }

  /** A framed status constant spelled out. */
  lemma FramedText(version: string, s: Status)
    ensures Framed(version, s) == version + " " + Code(s) + " " + Reason(s) + "\r\n\r\n\r\n"
  {
  }

  /** The 405 constant spelled out. */
  lemma Framed405(version: string)
    ensures Framed(version, MethodNotAllowed) == version + " 405 Method Not Allowed\r\n\r\n\r\n"
  {
    FramedText(version, MethodNotAllowed);
  }

  /** The 301 status line and its line ending spelled out. */
  lemma Line301(version: string)
    ensures StatusLine(version, MovedPermanently) + CRLF ==
      version + " 301 Move Permanently\r\n"
  {
  }

  /** The 200 constant spelled out. */
  lemma FramedOk(version: string)
    ensures Framed(version, Ok) == version + " 200 OK\r\n\r\n\r\n"
  {
    FramedText(version, Ok);
  }

  /** The 404 constant spelled out. */
  lemma Framed404(version: string)
    ensures Framed(version, NotFound) == version + " 404 Not Found\r\n\r\n\r\n"
  {
    FramedText(version, NotFound);
  }

  /** Text without a carriage return holds no CRLF. */
  lemma NoCrlfWithoutCr(s: string)
    requires '\r' !in s
    ensures NoCrlf(s)
  {
    forall j | 0 <= j < |s|
      ensures !StartsWith(s[j..], CRLF)
    {
      assert s[j..][0] == s[j];
    }
  }

  /** The first line of a request is everything before its first CRLF: what follows it
      is never read. */
  lemma {:induction false} FirstLineOf(line: string, rest: string)
    requires NoCrlf(line)
    ensures FirstPiece(line, CRLF) == line
    ensures FirstPiece(line + CRLF + rest, CRLF) == line
    decreases |line|
  {
    FirstPieceWhole(line, CRLF);
    if |line| > 0 {
      var t := line + CRLF + rest;
      NoCrlfHead(line, rest);
      NoCrlfTail(line);
      FirstLineOf(line[1..], rest);
      FirstPieceStep(t, CRLF);
      DropFirst(line, CRLF, rest);
      assert FirstPiece(t, CRLF) == [line[0]] + line[1..];
    }
  }

  lemma NoCrlfHead(line: string, rest: string)
    requires NoCrlf(line) && |line| > 0
    ensures !StartsWith(line + CRLF + rest, CRLF)
    ensures !StartsWith(line, CRLF)
  {
    assert line[0..] == line;
    var t := line + CRLF + rest;
    if |line| == 1 {
      assert t[1] == '\r';
    } else {
      assert t[..2] == line[..2];
    }
  }

  lemma NoCrlfTail(line: string)
    requires NoCrlf(line) && |line| > 0
    ensures NoCrlf(line[1..])
  {
    forall j | 0 <= j < |line| - 1
      ensures !StartsWith(line[1..][j..], CRLF)
    {
      assert line[1..][j..] == line[j + 1..];
    }
  }

  /** The command is the first word. */
  lemma ParseWordsCommand(w: string, t: string)
    requires ' ' !in w
    ensures ParseWords(w + " " + t).command == w
  {
    assert w + " " + t == w + [' '] + t;
    SplitAppend(w, t, ' ');
    SplitNoSep(w, ' ');
  }

  /** The path and the version do not depend on the command word. */
  lemma ReplaceCommand(w: string, w': string, t: string)
    requires ' ' !in w && ' ' !in w'
    ensures ParseWords(w + " " + t) == ParseWords(w' + " " + t).(command := w)
  {
    SplitAppend(w, t, ' ');
    SplitAppend(w', t, ' ');
    SplitNoSep(w, ' ');
    SplitNoSep(w', ' ');
    var ws := Split(w + " " + t, ' ');
    var ws' := Split(w' + " " + t, ' ');
    assert w + " " + t == w + [' '] + t;
    assert w' + " " + t == w' + [' '] + t;
    assert ws == [w] + Split(t, ' ') && ws' == [w'] + Split(t, ' ');
    assert Middle(ws) == Middle(ws');
  }
}
