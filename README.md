# A model of `processreq` in two small HTTP file servers

The repository holds two versions of a teaching HTTP server. Each answers one request
per connection through a function `processreq(req)`. It turns the request text into a
response text: a status line, line endings, and sometimes a body taken from a file in
the working directory. The helper `add_content_after_head(filename)` loads that body.

- `6/zhou0745_server.py` is the full server. It reads only the first line of the
  request. It replaces an unknown protocol version by `HTTP/1.1` and answers through
  the cascade 405, 301, 400, 404, 403, 406, 200. GET gets a body and HEAD gets none.
  Its `add_content_after_head` returns the text of `.html` files, or `""` when the file
  cannot be opened. For any other extension it returns the placeholder
  `a '<ext>' file called '<name>'`.
- `6/EchoServer_hacked.py` is a reduced version. It cuts the whole request text at
  spaces and echoes the last word verbatim as the version. It answers 405, 301, 404
  (also for a `%` in the path), 403 or 200, never 400 or 406, and treats HEAD like GET.
  Its `add_content_after_head` is a bare `open`, so a page that cannot be read makes
  `processreq` raise.

Both are modelled as pure functions over a read-only snapshot of the file system. The
snapshot is a map from path to the file's `st_mode` and its text; `None` text means
`open` or `read` raises.

Modules:

- `Wrappers` holds `Option` and `Result`.
- `PyStr` holds the Python string operations with their Python semantics:
  - `split` on one character is never empty;
  - the first piece of `split(CRLF)`;
  - `' '.join`, `[1:-1]`, `[-1]`, `[-k:]`;
  - `lstrip`;
  - `bin`.
- `FileSys` holds the snapshot, `os.path.isfile` as `S_ISREG`, `open`, and the
  permission test `bin(mode)[-9:][6] == '1'`. The test is proved equal to the
  others-read bit `S_IROTH`.
- `Http` holds what both servers share:
  - CRLF and the redirect target;
  - the `RequestLine` parser;
  - status codes and reason phrases;
  - the status constants;
  - two readers that recover the version and the status from a response text.
- `ZhouServer` and `HackedServer` each hold:
  - `ProcessReq` and `Respond`, which keep the source's branches;
  - `AddContentAfterHead`;
  - an independent reference `Decide`, which says which status the request is owed;
  - lemmas tying `Respond` to `Decide` and stating the promised properties.
- `Versions` relates the two servers on one-line requests.

Behaviour worth noting. The outline comments above `processreq`
(`6/zhou0745_server.py:21-39`) describe sending the file's contents on success. The
code differs from that outline in places, and the model follows the code:

- A GET of a whitelisted non-`.html` file (`pdf`, `jpeg`, …) answers 200 with the
  placeholder sentence, not the file's bytes (`ZhouServer.ServedOtherBody`).
- A first line of fewer than three words (`GET`, `GET /x`) has an empty path. Its
  last word is taken as the version. The empty path names no file, so the answer is
  404, not 400 (`ZhouServer.ShortRequestNotFound`).
- The reason phrases are `Move Permanently` and `Not Acceptable Response`.
- The full server's `REDIR_301` ends in a single CRLF. Its GET form is followed
  directly by `Location: https://www.cs.umn.edu/`.
- The response constants end in three CRLFs, not two.

Identical requests against an unchanged snapshot get identical answers, because every
operation is a function.

## Model

| member | source | states |
|---|---|---|
| `PyStr.Join` | 6/zhou0745_server.py:45 | `' '.join(xs)`; specified by `PyStr.JoinSplit` and `PyStr.SplitJoin` |
| `PyStr.TakeLast` | 6/zhou0745_server.py:81 | `s[-k:]` is the last `k` characters, or all of a shorter `s` |
| `PyStr.Bin` | 6/zhou0745_server.py:81 | `bin(n)`; its length and third-last digit are given by `PyStr.BinDigitsLength` and `PyStr.ThirdLastDigit` |
| `PyStr.Last` | 6/zhou0745_server.py:44 | `xs[-1]` of a non-empty list, as at `6/zhou0745_server.py:83`; used through `ZhouServer.ExtNoDot`, `ZhouServer.ExtAfterLastDot` and `Http.ParseWordsRoundTrip` |
| `PyStr.Split` | 6/zhou0745_server.py:42 | `split` on one character always gives at least one piece, and no piece holds the separator |
| `PyStr.SplitAppend` | 6/zhou0745_server.py:42 | splitting `a + c + b` gives the pieces of `a` followed by the pieces of `b` |
| `PyStr.SplitNoSep` | 6/zhou0745_server.py:100 | text without the separator splits into itself alone |
| `PyStr.JoinSplit` | 6/zhou0745_server.py:45 | joining the pieces of a split with the separator gives the text back |
| `PyStr.SplitJoin` | 6/zhou0745_server.py:45 | splitting a join of separator-free pieces gives the pieces back |
| `PyStr.Middle` | 6/zhou0745_server.py:45 | `xs[1:-1]` has `len(xs) - 2` elements (none below three) and they are `xs[1]`… in order |
| `PyStr.FirstPiece` | 6/zhou0745_server.py:41 | `req.split(CRLF)[0]` is a prefix of the text, holds no CRLF, and ends at the end of the text or at a CRLF |
| `PyStr.FirstPiecePrefix` | 6/zhou0745_server.py:41 | a prefix without a CR stays whole in front of the first line |
| `PyStr.FirstPieceWhole` | 6/zhou0745_server.py:41 | text with no CRLF is its own first line |
| `PyStr.LStrip` | 6/zhou0745_server.py:61 | `lstrip('/')` removes a run of slashes from the front and leaves text that does not start with one |
| `PyStr.LStripPrefix` | 6/zhou0745_server.py:61 | any number of leading slashes in front of a slash-free start are all removed |
| `PyStr.LStripMore` | 6/zhou0745_server.py:61 | adding more leading slashes does not change the stripped path |
| `PyStr.BinDigitsLength` | 6/zhou0745_server.py:81 | `bin(n)` has more than `k` digits once `n >= 2**k` |
| `PyStr.ThirdLastDigit` | 6/zhou0745_server.py:81 | the third binary digit from the right is the bit of weight 4 |
| `FileSys.Stat` | 6/zhou0745_server.py:80 | `os.stat` on the snapshot; the empty path names nothing |
| `FileSys.IsFile` | 6/zhou0745_server.py:74 | `os.path.isfile` as `S_ISREG` of the mode; `FileSys.RegularModeIsLarge` bounds such modes |
| `FileSys.Open` | 6/zhou0745_server.py:103-104 | `open(...).read()` on the snapshot, `None` when it raises |
| `FileSys.PermDigit` | 6/zhou0745_server.py:81-82 | `bin(mode)[-9:][6]`, defined from mode 16 up; `FileSys.PermDigitIsOthersRead` proves it is the others-read bit |
| `FileSys.IsRegularMode` | 6/zhou0745_server.py:74 | `S_ISREG(mode)`, the file-type bits equal to `0o100000`; bounded by `FileSys.RegularModeIsLarge` |
| `FileSys.OthersMayRead` | 6/zhou0745_server.py:80-82 | the others-read bit `S_IROTH` that the digit test reads, per `FileSys.PermDigitIsOthersRead` |
| `FileSys.PermDigitIsOthersRead` | 6/zhou0745_server.py:80-82 | for `mode >= 64`, `bin(mode)[-9:][6] == '1'` exactly when the others-read bit is set |
| `FileSys.RegularModeIsLarge` | 6/zhou0745_server.py:74 | every regular file's mode carries `S_IFREG` and so is at least `0o100000` |
| `FileSys.RegularPermDigit` | 6/zhou0745_server.py:74-82 | for every path `isfile` accepts, the digit test is defined and equals the others-read bit |
| `Http.Target` | 6/zhou0745_server.py:61 | `req_path.lstrip('/')`, as at `6/EchoServer_hacked.py:65`; specified by `PyStr.LStrip`, `ZhouServer.LeadingSlashes` and `ZhouServer.SlashedName` |
| `Http.Allowed` | 6/zhou0745_server.py:58 | the commands served, `GET` and `HEAD`, as at `6/EchoServer_hacked.py:63`; its negation is the 405 case of `ZhouServer.FirstMatch` and `HackedServer.FirstMatch` |
| `Http.Code` | 6/zhou0745_server.py:49-56 | the code written for each status; `Http.CodeRoundTrip` reads it back |
| `Http.Reason` | 6/zhou0745_server.py:49-56 | the source's reason phrases, `Move Permanently` and `Not Acceptable Response` included; spelled out by `Http.FramedText` and `Http.Line301` |
| `Http.StatusLine` | 6/zhou0745_server.py:49-56 | `'{} <code> <reason>'` with the version; `Http.ReadStatus` reads version and status back |
| `Http.Framed` | 6/EchoServer_hacked.py:56-61 | a status line and three CRLFs, as at `6/zhou0745_server.py:49-54`; specified by `Http.FramedText` and `Http.ReadFramed` |
| `Http.CodeRoundTrip` | 6/zhou0745_server.py:49-56 | each status code is one word and reads back as the status it was written for |
| `Http.ParseWords` | 6/zhou0745_server.py:42-45 | cuts a line into command, path and version as both servers do (`6/EchoServer_hacked.py:51-54`); specified by `Http.ParseWordsRoundTrip`, `Http.ParsedWordsHaveNoSpace` and `Http.ParseWordsCommand` |
| `Http.ParseWordsRoundTrip` | 6/zhou0745_server.py:42-45 | a line `m p v` with one-word `m`, `v` parses back to command `m`, path `p` (spaces kept), version `v` |
| `Http.ParsedWordsHaveNoSpace` | 6/zhou0745_server.py:42-44 | the parsed command and version hold no space |
| `Http.ParseWordsCommand` | 6/zhou0745_server.py:43 | the command is the first word |
| `Http.ReplaceCommand` | 6/zhou0745_server.py:42-45 | path and version do not depend on the command word |
| `Http.ReadStatus` | 6/zhou0745_server.py:49-56 | text starting `version code ` reads back as that version and that status |
| `Http.ReadFramed` | 6/EchoServer_hacked.py:56-61 | a status constant followed by any body reads back as its version and status |
| `Http.FramedText` | 6/zhou0745_server.py:49-55 | the constants are `'{} <code> <reason>\r\n\r\n\r\n'` |
| `Http.FramedOk` | 6/zhou0745_server.py:49 | the 200 constant spelled out |
| `Http.Framed404` | 6/zhou0745_server.py:52 | the 404 constant spelled out |
| `Http.Framed405` | 6/zhou0745_server.py:53 | the 405 constant spelled out |
| `Http.Framed301` | 6/EchoServer_hacked.py:61 | the reduced server's 301 constant, with three line endings, spelled out |
| `Http.Line301` | 6/zhou0745_server.py:56 | the full server's `REDIR_301`, with one line ending, spelled out |
| `Http.NoCrlfWithoutCr` | 6/zhou0745_server.py:41 | text without a CR holds no CRLF |
| `Http.FirstLineOf` | 6/zhou0745_server.py:41-42 | the first line of `line + CRLF + rest` is `line` when `line` holds no CRLF |
| `ZhouServer.EchoVersion` | 6/zhou0745_server.py:47-48 | the version written back is `HTTP/1.0` or `HTTP/1.1`; a recognised version is kept and any other token becomes `HTTP/1.1` |
| `ZhouServer.VersionEchoed` | 6/zhou0745_server.py:47-56 | every response is written in the request's version when that is `HTTP/1.0` or `HTTP/1.1`, and in `HTTP/1.1` otherwise |
| `ZhouServer.RequestOf` | 6/zhou0745_server.py:41-45 | `req.split(CRLF)[0]` cut into words; specified by `ZhouServer.OneLine`, `ZhouServer.FirstLineOnly` and `ZhouServer.HeadLineOf` |
| `ZhouServer.StatusConst` | 6/zhou0745_server.py:49-56 | `OK` … `ERROR_406` with three CRLFs and `REDIR_301` with one; specified by `Http.FramedText`, `Http.Line301` and `ZhouServer.ReadConst` |
| `ZhouServer.Decide` | 6/zhou0745_server.py:58-97 | the reference first-match decision, stated with the others-read bit; `ZhouServer.ResponseParts` and `ZhouServer.FirstMatch` tie `processreq` to it |
| `ZhouServer.GetBody` | 6/zhou0745_server.py:62-95 | what a GET receives after the constant for each status: the `Location` line, the served file, or the status's error page; used by `ZhouServer.GetResponse` |
| `ZhouServer.ErrorPage` | 6/zhou0745_server.py:70-95 | the page loaded with 400, 403, 404 and 406: `400.html`, `403.html`, `404.html`, `406.html` |
| `ZhouServer.Ext` | 6/zhou0745_server.py:83 | `split('.')[-1]`; specified by `ZhouServer.ExtNoDot` and `ZhouServer.ExtAfterLastDot` |
| `ZhouServer.AddContentAfterHead` | 6/zhou0745_server.py:99-110 | the page loader; specified by `ZhouServer.HtmlPageContents`, `ZhouServer.BareHtmlContents`, `ZhouServer.PlaceholderContents` and `ZhouServer.DotlessPlaceholder` |
| `ZhouServer.ProcessReq` | 6/zhou0745_server.py:40-97 | `processreq`: the first line is parsed and answered by `Respond`; specified by `ZhouServer.ResponseStatus`, `ZhouServer.FirstMatch`, `ZhouServer.FirstLineOnly` and `ZhouServer.VersionEchoed` |
| `ZhouServer.Respond` | 6/zhou0745_server.py:47-97 | the method check, then `Route`; specified against the reference `Decide` by `ZhouServer.ResponseParts` |
| `ZhouServer.Route` | 6/zhou0745_server.py:61-78 | the redirect, `%` and existence checks, then `ServeFile`; specified by `ZhouServer.RouteParts` |
| `ZhouServer.ServeFile` | 6/zhou0745_server.py:80-97 | the permission digit, then the extension check; specified by `ZhouServer.FileParts` |
| `ZhouServer.ExtNoDot` | 6/zhou0745_server.py:83 | a path without a dot is its own extension |
| `ZhouServer.ExtAfterLastDot` | 6/zhou0745_server.py:83 | with a dot, the extension is the text after the last one |
| `ZhouServer.HtmlExt` | 6/zhou0745_server.py:100 | a `.html` name has extension `html` |
| `ZhouServer.HtmlPageContents` | 6/zhou0745_server.py:99-107 | loading a `.html` name gives the file's text, or `""` when it cannot be opened |
| `ZhouServer.PlaceholderContents` | 6/zhou0745_server.py:108-110 | loading any other extension gives `a '<ext>' file called '<name>'`, whatever the file holds |
| `ZhouServer.DotlessPlaceholder` | 6/zhou0745_server.py:100-109 | a name without a dot, other than `html`, loads as `a '<name>' file called '<name>'` |
| `ZhouServer.BareHtmlContents` | 6/zhou0745_server.py:100-107 | the bare name `html` is its own extension and loads the file's text, or `""` |
| `ZhouServer.ReadConst` | 6/zhou0745_server.py:49-56 | every constant, 301 included, followed by any body reads back as its version and status |
| `ZhouServer.ResponseParts` | 6/zhou0745_server.py:58-97 | every response is the constant of the status `Decide` owes, plus the GET body for that status, or nothing for HEAD |
| `ZhouServer.RouteParts` | 6/zhou0745_server.py:61-97 | the same after the method check, for the stripped path |
| `ZhouServer.FileParts` | 6/zhou0745_server.py:80-97 | the same for an existing regular file: 403, 406 or 200 as the reference says |
| `ZhouServer.ResponseStatus` | 6/zhou0745_server.py:40-97 | every response starts with the echoed version and the code of the owed status |
| `ZhouServer.FirstMatch` | 6/zhou0745_server.py:58-97 | each of 405, 301, 400, 404, 403, 406, 200 is sent exactly when its check is the first in that order to apply |
| `ZhouServer.MethodNotAllowedText` | 6/zhou0745_server.py:53-59 | any command other than GET or HEAD gets exactly `<ver> 405 Method Not Allowed\r\n\r\n\r\n`, whatever the path and files |
| `ZhouServer.RedirectText` | 6/zhou0745_server.py:56-66 | a stripped path `csumn` gets `<ver> 301 Move Permanently\r\n` followed by `Location: https://www.cs.umn.edu/` for GET and by nothing for HEAD |
| `ZhouServer.HeadIsBare` | 6/zhou0745_server.py:58-97 | a HEAD response is the bare status constant on every branch |
| `ZhouServer.GetResponse` | 6/zhou0745_server.py:58-97 | a GET response is the status constant followed by the body of its status |
| `ZhouServer.ServedHtmlBody` | 6/zhou0745_server.py:89-90 | a 200 GET of a `.html` file carries the file's text (empty if unreadable) |
| `ZhouServer.ServedOtherBody` | 6/zhou0745_server.py:89-90 | a 200 GET of any other accepted extension carries the placeholder sentence, not the file |
| `ZhouServer.ServedDotlessBody` | 6/zhou0745_server.py:83-90 | a 200 GET of a dotless target such as `pdf` carries `a 'pdf' file called 'pdf'` |
| `ZhouServer.ServedBareHtmlBody` | 6/zhou0745_server.py:83-90 | a 200 GET of the target `html` carries that file's text, or `""` |
| `ZhouServer.HeadIsPrefixOfGet` | 6/zhou0745_server.py:40-97 | `HEAD t` and `GET t` get the same status, and the HEAD response is a prefix of the GET response |
| `ZhouServer.HeadLineOf` | 6/zhou0745_server.py:41-45 | `HEAD t` parses as `GET t` with the command changed |
| `ZhouServer.CommandFirst` | 6/zhou0745_server.py:41-42 | a first word without a CR stays on the first line |
| `ZhouServer.HeadOfGet` | 6/zhou0745_server.py:58-97 | on the same line, HEAD's status equals GET's, and GET's response is exactly HEAD's followed by the GET body of that status |
| `ZhouServer.FirstLineOnly` | 6/zhou0745_server.py:41-42 | what follows the first CRLF never changes the response |
| `ZhouServer.LeadingSlashes` | 6/zhou0745_server.py:61 | adding any number of leading slashes to the path does not change the response |
| `ZhouServer.SameTarget` | 6/zhou0745_server.py:61-97 | requests with the same command, version and stripped path get the same response |
| `ZhouServer.ShortRequestNotFound` | 6/zhou0745_server.py:42-45 | a GET or HEAD first line of fewer than three words is answered 404 |
| `ZhouServer.OneLine` | 6/zhou0745_server.py:41-45 | a one-line request `m p v` is read as command `m`, path `p`, version `v` |
| `ZhouServer.SlashedName` | 6/zhou0745_server.py:61 | `/name` strips to `name` |
| `ZhouServer.NameNotFound` | 6/zhou0745_server.py:74-78 | an ordinary name absent from the file system is owed 404 |
| `ZhouServer.HtmlServed` | 6/zhou0745_server.py:68-90 | a world-readable regular `.html` file whose name is not the redirect and has no `%` is owed 200 |
| `ZhouServer.ScenarioLine` | 6/zhou0745_server.py:41-61 | a one-line `<command> /<name> HTTP/1.1` is read as that command, path `/<name>` and version, and names the file `name`; a helper of `ZhouServer.GetIndex` and `ZhouServer.HeadMissing` |
| `ZhouServer.IndexFile` | 6/zhou0745_server.py:74-82 | helper of `ZhouServer.GetIndex`: a file of mode `0o100644` is regular and world-readable |
| `ZhouServer.GetIndex` | 6/zhou0745_server.py:89-90 | `GET /index.html HTTP/1.1` for such a file holding `<p>hi</p>` gets `HTTP/1.1 200 OK\r\n\r\n\r\n<p>hi</p>` |
| `ZhouServer.MissingName` | 6/zhou0745_server.py:47 | helper of `ZhouServer.HeadMissing`: `HTTP/1.1` is echoed unchanged; `missing.html` is neither the redirect nor holds `%` |
| `ZhouServer.HeadMissing` | 6/zhou0745_server.py:74-78 | `HEAD /missing.html HTTP/1.1` with no such file gets exactly `HTTP/1.1 404 Not Found\r\n\r\n\r\n` |
| `HackedServer.ProcessReq` | 6/EchoServer_hacked.py:50-77 | `processreq` on the whole request text; specified by `HackedServer.ResponseStatus`, `HackedServer.FirstMatch` and `HackedServer.FailsExactlyWhen` |
| `HackedServer.Respond` | 6/EchoServer_hacked.py:56-77 | the checks in source order; specified against the reference `Decide` by `HackedServer.ResponseParts` |
| `HackedServer.RequestOf` | 6/EchoServer_hacked.py:51-54 | the whole request text cut into words; specified by `HackedServer.HeadersInPath` and `Versions.SameLine` |
| `HackedServer.Decide` | 6/EchoServer_hacked.py:63-77 | the reference first-match decision; `HackedServer.DecideOwed` and `HackedServer.ResponseParts` tie it to the source's order |
| `HackedServer.PageOf` | 6/EchoServer_hacked.py:69-77 | the file loaded after each constant: the served file for 200, `403.html`, `404.html`, none for 301 and 405; used by `HackedServer.ResponseParts` |
| `HackedServer.Trailer` | 6/EchoServer_hacked.py:66-67 | the bare redirect address after the 301 constant, nothing after 405; used by `HackedServer.ResponseParts` |
| `HackedServer.AddContentAfterHead` | 6/EchoServer_hacked.py:79-83 | loading succeeds exactly when the file can be opened, with its text; otherwise it fails naming the file |
| `HackedServer.Append` | 6/EchoServer_hacked.py:69-77 | a constant plus a loaded page succeeds exactly when loading does, and a failure passes through |
| `HackedServer.ResponseParts` | 6/EchoServer_hacked.py:63-77 | every answer is the constant of the owed status, then the redirect address or the page that status loads |
| `HackedServer.RefusedResponse` | 6/EchoServer_hacked.py:63-64 | a refused command gets the 405 constant |
| `HackedServer.RedirectResponse` | 6/EchoServer_hacked.py:66-67 | the redirect path gets the 301 constant followed by the address |
| `HackedServer.MissingResponse` | 6/EchoServer_hacked.py:66-71 | a path other than the redirect that holds `%` or names no regular file gets the 404 constant, then loading `404.html`, which fails when that page cannot be opened |
| `HackedServer.FileResponse` | 6/EchoServer_hacked.py:68-77 | an existing regular file whose name is not the redirect and has no `%` gets the 200 or 403 constant followed by loading its own text or `403.html`, which fails when that page cannot be opened |
| `HackedServer.ResponseStatus` | 6/EchoServer_hacked.py:50-77 | every answer starts with the received version word, unchanged, and the owed status |
| `HackedServer.FailsExactlyWhen` | 6/EchoServer_hacked.py:69-83 | `processreq` raises exactly when the owed status loads a page that cannot be opened, and the failure names that page |
| `HackedServer.FirstMatch` | 6/EchoServer_hacked.py:63-77 | each of 405, 301, 404, 403, 200 is sent exactly when its check is the first to apply; 400 and 406 never are |
| `HackedServer.DecideOwed` | 6/EchoServer_hacked.py:63-77 | the reference status satisfies that first-match description |
| `HackedServer.MethodNotAllowedText` | 6/EchoServer_hacked.py:59-64 | any other command gets exactly `<ver> 405 Method Not Allowed\r\n\r\n\r\n`, with the received version |
| `HackedServer.RedirectText` | 6/EchoServer_hacked.py:61-67 | `csumn` gets `<ver> 301 Move Permanently\r\n\r\n\r\n` and the bare address, for GET and HEAD alike |
| `HackedServer.ServedBody` | 6/EchoServer_hacked.py:74-75 | a 200 carries the file's own text whatever its extension, or raises if it cannot be opened |
| `HackedServer.HeadSameAsGet` | 6/EchoServer_hacked.py:63-77 | `HEAD t` gets exactly what `GET t` gets, body included |
| `HackedServer.SameTarget` | 6/EchoServer_hacked.py:65-77 | allowed requests with the same version and stripped path get the same answer |
| `HackedServer.HeadersInPath` | 6/EchoServer_hacked.py:51-54 | for a request line plus a header line, the version read is the header's last word and the path absorbs the rest |
| `Versions.SameLine` | 6/EchoServer_hacked.py:51-54 | on a request of one line both servers read the same command, path and version |
| `Versions.Agree405` | 6/EchoServer_hacked.py:63-64 | a refused one-line request with a recognised version gets the same text from both |
| `Versions.ExtensionIgnored` | 6/EchoServer_hacked.py:72-83 | a file the full server refuses with 406 is owed 200 by the reduced one, which sends the file's text or raises, naming the file, when it cannot be read |
| `Versions.PercentDiffers` | 6/EchoServer_hacked.py:68-69 | a `%` in the path is 400 for the full server and 404 for the reduced one |
| `Versions.SameDecision` | 6/EchoServer_hacked.py:63-77 | apart from 400 and 406, both servers owe the same status |
| `Versions.AgreeOnGet` | 6/EchoServer_hacked.py:63-83 | a one-line GET with a recognised version, no redirect, neither 400 nor 406 and a `.html` target when served, gets the same text from both when the reduced server does not raise |
| `Versions.AgreeOnPage` | 6/EchoServer_hacked.py:79-83 | an openable page is loaded the same way by both servers |

## Left out

- Sockets, `client_talk` (receive, UTF-8 decode and encode, send, shutdown, close), the `EchoServer` class with its accept loop and one thread per connection, `argparse`, `__main__` and `print` logging. These are I/O and concurrency around `processreq`, not part of its decision.
- `os.path.isfile`, `os.stat` and `open` are answered from an immutable snapshot. OS error kinds are not distinguished: a file either opens and reads as text, or does not. Symbolic links, directories as targets, path normalisation (`..`, `./`) and races between `isfile` and `open` are not modelled.
- Characters are Dafny `char`s. The UTF-8 decoding of the request and of files is not modelled.
- `BUFSIZE` and `cur_pwd` are unused by `processreq` and are not modelled.
- The reduced server defines `ERROR_406` but never uses it. Its absence from the model's answers is what `HackedServer.FirstMatch` states.
- An exception in the reduced server is modelled as a `Failure` naming the page that could not be opened. What happens to the connection afterwards is part of the left-out socket code.
