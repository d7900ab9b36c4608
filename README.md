# MyOwnWebServer: the request parser, the response pipeline and the argument parser

MyOwnWebServer is a small static-file HTTP server written in C#. It accepts a TCP
connection and reads at most 1024 bytes of the request. It parses the request line,
looks the requested file up under a web root, and answers with a `200 OK` header
followed by the file's bytes. A missing file gets a `404 File Not Found` page, and a
failed read or send gets `500 Internal Server Error`. The web root, listen address
and port come from three `-name=value` command-line arguments.

This project models three parts of the server in Dafny and proves properties of them:

* `Requests`: how a request's text becomes its method, version, requested file and
  directory. This is the `Request` class with its constructor and `Parse`.
* `Responses`: the response pipeline. It covers path resolution with the one-time
  `.html`/`.htm` and `.jpg`/`.jpeg` fallback, the MIME table, the header and error
  texts, the send sequence, the 500 path and closing the socket. This is the
  `Response` class.
* `ServerArguments`: `Arguments.parseArguments` and `SetDefaultValues`.

Two supporting modules give the meaning of the .NET library calls the code relies on:

* `Text`: `String.Split`, `ToUpper`/`ToLower`, `TrimStart`, `Trim`, `int.TryParse`
  and ASCII encoding and decoding.
* `Paths`: `Path.Combine`, `GetExtension`, `ChangeExtension` and `GetDirectoryName`.

The classes are imperative, like the source. `Request.Parse`, `Arguments.ParseArguments`
and `Response.ProcessAsync` assign fields or drive a `Socket` object. Each method's
`ensures` ties the new state to a pure function of the old state: `Parsed`,
`Configure` and `Respond`. The lemmas state what the source promises about those
functions.

The socket is modelled by what can be observed of it:

* the bytes sent so far;
* how many sends have been attempted, and which attempts (by their number in
  order) throw;
* whether `Shutdown` throws;
* how many shutdowns and closes have happened.

The file system is a map from path to contents, plus a set of paths whose read
throws. The value of `DateTime.UtcNow` is a `date` parameter.

Where the code and its design notes disagree, the model follows the code:

* A request line with fewer than two tokens leaves `RequestedFile` at `""`. It does
  not become `index.html`, because the substitution sits inside the two-token
  branch.
* The 404 path returns before the `try`/`finally`. It sends the error page and does
  not shut down or close the socket. Only a request that reaches the `try` block
  closes the socket.
* `parseArguments` always returns `true`, even for malformed arguments.

## Model

| member | source | states |
|---|---|---|
| Text.Split | Request.cs:47-50 | `String.Split` on one character: at least one piece; exactly one piece when the separator is absent; no piece holds the separator; joining the pieces with it gives the input back |
| Text.SplitAfterPiece | Request.cs:47-50 | a separator-free prefix followed by the separator is split off as the first piece and the rest is split independently |
| Text.SplitFirstPiecePrefix | Request.cs:47-50 | the first piece of `a + b` is `a` followed by the first piece of `b`, for separator-free `a` |
| Text.SplitFirstPiece | Arguments.cs:31-41 | the first piece of `a + b` is `a` when `b` is empty or starts with the separator |
| Text.FirstPiece | Request.cs:47-50 | `Split(sep)[0]`: a separator-free prefix that reaches the end or stops right before the first separator |
| Text.SplitFirstPieceStable | Request.cs:47 | once the text holds a separator, appending text never changes the first piece |
| Text.SplitJoin | Request.cs:50 | splitting a join of separator-free pieces gives exactly those pieces back |
| Text.LeadingPieces | Request.cs:50 | three separator-free pieces each followed by the separator are the first three pieces, whatever follows |
| Text.ToUpper | Request.cs:53 | same length; every ASCII lower-case letter becomes upper-case and every other character is kept |
| Text.ToLower | Response.cs:56 | same length; every ASCII upper-case letter becomes lower-case and every other character is kept |
| Text.LowerForgetsCase | Response.cs:153 | lower-casing after upper-casing equals lower-casing, and lower-casing is idempotent |
| Text.TrimStart | Request.cs:57 | the result is a suffix of the input, everything dropped is the trimmed character, and the result does not start with it |
| Text.TrimStartAppend | Request.cs:57 | text that does not start with the trimmed character survives `TrimStart` of anything in front of it |
| Text.TrimLeadingWhiteSpace | Request.cs:70 | a suffix of the input that does not start with white space, with only white space dropped |
| Text.TrimTrailingWhiteSpace | Request.cs:70 | a prefix of the input that does not end with white space, with only white space dropped |
| Text.Trim | Request.cs:70 | no longer than the input; neither end is white space; every character comes from the input; a text with non-white ends is kept as it is |
| Text.LeadingWhiteSpace | Request.cs:70 | what `Trim` cuts from the start is all white space |
| Text.TrailingWhiteSpace | Request.cs:70 | what `Trim` cuts from the end is all white space |
| Text.TrimCutsOnlyWhiteSpace | Request.cs:70 | the input is exactly the white space cut from the start, then the trimmed text, then the white space cut from the end, in that order |
| Text.TrimDropsCarriageReturn | Request.cs:70 | trimming a non-white-ended token followed by the carriage return of a CRLF line end gives the token back |
| Text.DigitChar | Response.cs:107 | a digit value becomes a decimal digit character |
| Text.NatToString | Response.cs:107 | the decimal text of a number is non-empty, all digits, and has no leading zero unless it is `0` |
| Text.DigitsValueOfNatToString | Response.cs:107 | reading the decimal text of a number digit by digit gives the number back |
| Text.SkipNumberWhiteSpace | Arguments.cs:41 | a suffix of the input; every character dropped before it is white space `int.TryParse` allows, and it does not start with such white space |
| Text.DropNumberWhiteSpaceAtEnd | Arguments.cs:41 | a prefix of the input; every character dropped after it is white space `int.TryParse` allows, and it does not end with such white space |
| Text.TryParseInt32 | Arguments.cs:41 | `int.TryParse` succeeds only with a value within the 32-bit range |
| Text.DigitsNotNumberWhiteSpace | Arguments.cs:41 | a text that starts and ends with a digit loses nothing to the white space skipping |
| Text.TryParseInt32OfDigits | Arguments.cs:41 | a string of decimal digits whose value fits 32 bits parses to that value |
| Text.ParseSignedDigits | Arguments.cs:41 | an optional sign followed by the digits; success only within the 32-bit range |
| Text.DigitsNumber | Arguments.cs:41 | success only for one or more digits whose signed value fits 32 bits |
| Text.TryParseInt32Fails | Arguments.cs:41 | `int.TryParse` fails on the empty string, on a sign followed by a character that is neither a digit nor white space, and on digits whose value exceeds `Int32.MaxValue` |
| Text.SignThenNonDigit | Arguments.cs:41 | a sign followed by a character that is neither a digit nor white space does not parse |
| Text.SignedNonDigit | Arguments.cs:41 | a sign followed by a non-digit does not parse once the white space is gone |
| Text.TrimKeepsFirstTwo | Arguments.cs:41 | trimming trailing white space keeps a second character that is not white space |
| Text.DigitsOverflow | Arguments.cs:41 | digits whose value exceeds `Int32.MaxValue` do not parse |
| Text.TryParseInt32OfNatToString | Arguments.cs:41 | the decimal text of any number up to `Int32.MaxValue` parses back to that number |
| Text.AsciiBytes | Response.cs:110 | `Encoding.ASCII.GetBytes`: one byte per character, the code where it is ASCII and `?` otherwise |
| Text.AsciiString | Request.cs:35 | `Encoding.ASCII.GetString`: one character per byte, the byte where it is below 128 and `?` otherwise |
| Text.AsciiRoundTrip | Request.cs:35 | decoding then encoding bytes that are all ASCII gives them back |
| Paths.LastIndexOf | Request.cs:56 | the last position of a character: it holds that character, none follows it, and it is absent exactly when the character does not occur |
| Paths.LastIndexOfAppendWithout | Request.cs:56 | appending text without the character keeps its last position |
| Paths.LastIndexOfAppendLeading | Response.cs:60 | appending text whose only occurrence is its first character puts the last position there |
| Paths.FileNameStart | Response.cs:56 | the file name holds no separator and starts right after one, or at the beginning |
| Paths.ExtensionDot | Response.cs:56 | the extension dot is the last dot of the file name |
| Paths.GetExtension | Response.cs:56 | `Path.GetExtension`: empty, or a dot followed by at least one character with no further dot or separator, which is a suffix of the path |
| Paths.GetExtensionAtDot | Response.cs:56 | there is an extension exactly when the file name has a dot that is not the last character, and then it runs from that dot to the end |
| Paths.GetExtensionOfAppended | Response.cs:56-82 | appending a well-formed extension to any path makes it the path's extension |
| Paths.ChangeExtension | Response.cs:60-69 | `Path.ChangeExtension`: the empty path stays empty; any other path ends with the new extension |
| Paths.ExtensionDotOfAppended | Response.cs:60 | an appended extension's dot becomes the path's extension dot |
| Paths.Stem | Response.cs:60-69 | the part `ChangeExtension` keeps: the prefix of the path up to its extension dot, or the whole path when it has none |
| Paths.StemAndExtension | Response.cs:56-60 | a path with an extension is its stem followed by that extension |
| Paths.ChangeExtensionProperties | Response.cs:56-70 | a non-empty path is its stem followed by the new extension, and asking for the extension afterwards gives the new one; the stem is kept; a second change overrides the first |
| Paths.Combine | Response.cs:52 | `Path.Combine`: the file is a suffix of the result; an empty file gives the root; a relative file goes after the root with exactly one separator between them |
| Paths.CombineJoins | Response.cs:52 | exactly the file when the root is empty or the file is rooted; root and file joined directly when the root ends with `/`; otherwise with one `/` between them |
| Paths.DropTrailingSeparators | Request.cs:56 | the end moves down past separators and never below the root: every position it skips is a separator, and it stops on a non-separator or at the root |
| Paths.GetDirectoryName | Request.cs:56 | `Path.GetDirectoryName`: a proper prefix of the path, or null exactly for the empty path and the root |
| Requests.Request.constructor | Request.cs:31-38 | the properties are those `Parse` produces from the defaults for the ASCII decoding of at most 1024 received bytes |
| Requests.Request.Parse | Request.cs:43-83 | the properties after parsing are `Parsed` of the old properties and the request text |
| Requests.FirstLine | Request.cs:47-50 | the request line is `FirstPiece` at the line feed: a prefix without a line feed that reaches the end of the request or stops at its first line feed |
| Requests.ParseRequestLine | Request.cs:50-71 | a line without a space assigns nothing; a line with one always yields a non-empty file name without a leading `/` |
| Requests.Parsed | Request.cs:43-83 | a request without a line feed is parsed as its own request line |
| Requests.FileEmptyExactlyWithoutSpace | Request.cs:47-51 | without a space on the first line nothing is assigned; from the defaults, the requested file stays empty exactly then |
| Requests.OnlyFirstLineCounts | Request.cs:47-50 | everything after the first line feed is ignored |
| Requests.AppendingAfterLineFeed | Request.cs:47-50 | appending to a request that already holds a line feed does not change the result |
| Requests.TwoTokensFields | Request.cs:51-66 | the method is the first token upper-cased; the file is the target with its leading `/` removed, or `index.html` when nothing is left, so it is never empty and never starts with `/`; the directory is the target's directory name, or `/` when it has none |
| Requests.VersionFields | Request.cs:68-71 | the version is the trimmed third token, or unchanged with only two tokens |
| Requests.ThreeTokens | Request.cs:50 | three space-free fields joined by single spaces split into exactly those three tokens |
| Requests.WellFormedRequest | Request.cs:43-83 | for `M T V\n...`, the method is `M` upper-cased, the version is `V` trimmed, the file is `T` without leading `/` (or `index.html`), and the directory follows `T` |
| Requests.ExtraTokensIgnored | Request.cs:50-71 | tokens after the third change nothing |
| Requests.MethodOnlyAffectsMethod | Request.cs:53-66 | two lines that differ only in the method token agree on every other property |
| Requests.CarriageReturnStaysInFile | Request.cs:57-71 | on a two-token line ending in CRLF, the file is the target without leading `/` followed by the carriage return, and the version keeps its old value |
| Requests.RootWithoutVersionKeepsCarriageReturn | Request.cs:57-71 | `GET /` with a carriage return and no version asks for the file named by the carriage return, not `index.html` |
| Requests.RootRequestServesIndex | Request.cs:43-83 | `GET / HTTP/1.1` with CRLF asks for `index.html` in directory `/` with version `HTTP/1.1` |
| Requests.RootRequestFields | Request.cs:53-70 | `GET` is unchanged by upper-casing, `/` trims to empty and has no directory name, and `HTTP/1.1` plus a carriage return trims to `HTTP/1.1` |
| Responses.GetMimeType | Response.cs:25-33 | the table `MimeTypes` looked up by lower-cased extension: each content type exactly for its lower-cased extensions in the table, `application/octet-stream` exactly for the rest |
| Responses.MimeTypeIgnoresCase | Response.cs:151-156 | upper- or lower-casing an extension never changes its content type |
| Responses.AlternateExtension | Response.cs:56-71 | an alternate exists exactly for `.html`, `.htm`, `.jpg` and `.jpeg`, and it is a well-formed extension |
| Responses.AlternateIsInvolution | Response.cs:56-71 | the alternate differs from the extension, is lower-case, maps back to it, and has the same content type |
| Responses.FallbackPath | Response.cs:56-71 | other extensions leave the path unchanged; the four swap the extension and keep the stem |
| Responses.FallbackCases | Response.cs:56-71 | the fallback path is the path with the extension the switch picks for each of the four lower-cased extensions, and the path itself for any other |
| Responses.FallbackIsInvolution | Response.cs:56-71 | on a lower-case swappable extension the fallback changes the path and a second fallback restores it |
| Responses.LowerCaseExtensions | Response.cs:59-68 | the four switch labels are lower-case |
| Responses.SwapTwice | Response.cs:56-71 | swapping a lower-case extension for its lower-case partner changes the path, and swapping back restores it |
| Responses.FallbackKeepsMimeType | Response.cs:56-82 | the fallback path is served with the content type of the original path |
| Responses.ResolvePath | Response.cs:52-77 | the path when it exists, otherwise its fallback when that exists; 404 exactly when neither exists |
| Responses.ReadAllBytes | Response.cs:81 | `File.ReadAllBytes` gives the stored contents exactly when the file is readable and no longer than the largest byte array, 0x7FFFFFC7 bytes |
| Responses.CrlfLines | Response.cs:105-109 | a client reading lines at CRLF sees at least one line |
| Responses.CrlfLinesAfterLine | Response.cs:105-109 | a line without a carriage return followed by CRLF is read as one line |
| Responses.HeaderText | Response.cs:105-109 | the header block; `HeaderLines` states its line structure |
| Responses.SuccessHeader | Response.cs:103-111 | the 200 header with server `MyOwnWebServer/1.0`; `HeaderLines` and `ContentLengthReadsBack` state what a client reads from it |
| Responses.ErrorStatus | Response.cs:131 | the code's decimal text, a space and the message; `NotFoundPage` states it for 404 |
| Responses.ErrorBody | Response.cs:132 | the status inside `<h1>`; `NotFoundPage` states it for 404 |
| Responses.ErrorHeader | Response.cs:134-138 | the error header with server `MyOwnWebServer`; `ErrorHeaderLines` states what a client reads from it |
| Responses.HeaderLines | Response.cs:105-109 | the header reads back as status line, Content-Type, Content-Length, Server and Date lines, then the empty line that ends it |
| Responses.ContentLengthReadsBack | Response.cs:107 | the Content-Length line parses back to the length written |
| Responses.ErrorHeaderLines | Response.cs:129-138 | the error header announces `text/html` and exactly the length of the `<h1>` page |
| Responses.FiveLines | Response.cs:105-109 | five CRLF-ended lines without carriage returns, then an empty line, read back as those five lines and two empty ones |
| Responses.SendStep | Response.cs:118-121 | one send attempt fails exactly when its number is marked failing; it puts all of its data on the wire or, failing, none; either way it counts as one attempt and nothing else changes, so a later attempt can still succeed |
| Responses.TwoSends | Response.cs:83-84 | both sends succeed exactly when neither attempt fails; a failed first send skips the second; the output gains exactly what went out; the last attempt decides success; close state is unchanged |
| Responses.SendErrorStep | Response.cs:129-144 | the error header then the error page, succeeding exactly when neither attempt fails and then appending both; a failed header send skips the page; the last attempt decides success; close state is unchanged |
| Responses.CloseWire | Response.cs:162-179 | one close always; one shutdown unless it throws; the output and the send attempts are unchanged |
| Responses.Socket.constructor | Listener.cs:33 | a freshly accepted connection has sent nothing, attempted no send, and was neither shut down nor closed |
| Responses.Socket.Send | Response.cs:118-121 | the connection changes as `SendStep` says |
| Responses.Socket.Shutdown | Response.cs:168-173 | a shutdown that does not throw is counted, and nothing else changes |
| Responses.Socket.Close | Response.cs:176 | one more close, and nothing else changes |
| Responses.ServeFile | Response.cs:79-85 | success exactly when `ReadAllBytes` succeeds and the next two send attempts go out, with the 200 header (content type of the extension, the file's length) followed by the file's bytes; a failed read attempts no send; after a read the last attempt decides success |
| Responses.TryCatch | Response.cs:79-89 | the `try` block and, after it failed, the 500 page on the connection it left: at least one send is attempted, the last attempt decides success, and nothing is shut down or closed yet |
| Responses.Deliver | Response.cs:72-93 | the specification `SendNotFound` and `TryServe` are proved against; `NotFound`, `ServedFile`, `ReadFails` and `CloseExactlyOnceAfterTry` state its cases |
| Responses.Respond | Response.cs:50-94 | the specification `ProcessAsync` is proved against; `NotFoundLastSend`, `FoundLastSend` and `OutputOnlyAppended` state its properties |
| Responses.Response.constructor | Response.cs:40-44 | keeps the client and the request |
| Responses.Response.SendToClient | Response.cs:118-121 | one send on the client |
| Responses.Response.SendHeader | Response.cs:103-111 | one send of the ASCII header text |
| Responses.Response.SendError | Response.cs:129-144 | the error header then the error page, as `SendErrorStep` says |
| Responses.Response.CloseSocket | Response.cs:162-179 | shutdown then close, as `CloseWire` says |
| Responses.Response.ProcessAsync | Response.cs:50-94 | the connection and the outcome are those `Respond` gives for the requested file under the web root |
| Responses.Response.TryServe | Response.cs:79-93 | the try block, the 500 page on failure and the closing `finally` |
| Responses.Response.SendNotFound | Response.cs:72-76 | the 404 page, sent before the `try` block, so the socket is not closed |
| Responses.ServedFile | Response.cs:79-93 | a readable file of at most 0x7FFFFFC7 bytes whose two sends go out: exactly the 200 header and the file's bytes are sent, then the socket is closed once |
| Responses.NotFound | Response.cs:72-76 | neither path exists: exactly the 404 header and `<h1>404 File Not Found</h1>` are sent, and the socket is neither shut down nor closed |
| Responses.NotFoundPage | Response.cs:131-132 | the 404 page text |
| Responses.NotFoundDigits | Response.cs:74 | the status code 404 is written as `404` |
| Responses.ReadFails | Response.cs:81-92 | a file that is unreadable or longer than 0x7FFFFFC7 bytes: exactly the 500 header and page are sent, then the socket is closed once |
| Responses.CloseExactlyOnceAfterTry | Response.cs:79-93 | the socket is closed exactly once when a file was found, and not at all otherwise |
| Responses.HeaderSendFails | Response.cs:83-92 | a failed send of the 200 header is followed by the 500 page: the client receives exactly the 500 header and page, ProcessAsync completes, and the socket is closed once |
| Responses.BodySendFails | Response.cs:84-92 | a failed send of the file's bytes after the 200 header went out is followed by the 500 page: the client receives the 200 header, then the 500 header and page, ProcessAsync completes, and the socket is closed once |
| Responses.ErrorPageAfterFailedTry | Response.cs:86-93 | once the `try` block failed, the 500 page is sent on the connection it left behind, whatever failed in it, and then the socket is closed |
| Responses.NotFoundLastSend | Response.cs:72-76 | without a file, ProcessAsync attempts at least one send and completes without an exception exactly when the last attempted send goes out |
| Responses.FoundLastSend | Response.cs:79-93 | with a file, ProcessAsync attempts at least one send and completes without an exception exactly when the last attempted send goes out (the file's bytes, or the 500 page after a failure) |
| Responses.StepDecidesOutcome | Response.cs:72-93 | an exchange reports success exactly when the last send attempt of the step it ends with went out |
| Responses.OutputOnlyAppended | Response.cs:50-94 | output is only appended, and what is appended does not depend on what was sent before |
| Responses.DeliverAppends | Response.cs:72-93 | the same, for each lookup result |
| Responses.ServedAppends | Response.cs:79-93 | the same, for a found file |
| Responses.SendErrorAppends | Response.cs:129-144 | the same, for an error page |
| Responses.ServeFileAppends | Response.cs:79-85 | the same, for the try block |
| Responses.TwoSendsAppend | Response.cs:83-84 | the same, for two sends |
| Responses.SendStepAppends | Response.cs:118-121 | the same, for one send |
| Responses.CloseWireAppends | Response.cs:162-179 | closing leaves the bytes already sent in front of the rest |
| ServerArguments.OptionValue | Arguments.cs:39-41 | the value exists exactly when the argument holds `=`, and it holds no `=` |
| ServerArguments.PortValue | Arguments.cs:41-42 | the port is within the 32-bit range and is 0 when the text does not parse |
| ServerArguments.Arguments.constructor | Arguments.cs:17-19 | before parsing, the strings are unset and the port is 0 |
| ServerArguments.Arguments.SetDefaultValues | Arguments.cs:54-59 | the root, address and port are the defaults |
| ServerArguments.Arguments.ParseArguments | Arguments.cs:26-53 | always reports success, and the settings are `Configure` of the arguments |
| ServerArguments.OptionName | Arguments.cs:31-33 | the name is `FirstPiece` at `=`: a prefix without `=` that is all of the argument or stops at its first `=` |
| ServerArguments.WellNamed | Arguments.cs:30-33 | exactly three arguments named `-webRoot`, `-webIP`, `-webPort` in this order; `DefaultsUnlessWellNamed` states what follows otherwise |
| ServerArguments.Configure | Arguments.cs:26-59 | the defaults, or values from well-named arguments, none of which holds `=`; the port is always within the 32-bit range |
| ServerArguments.DefaultsUnlessWellNamed | Arguments.cs:30-37 | the wrong count or a wrong name before the first `=` gives the defaults |
| ServerArguments.ValueBetweenEquals | Arguments.cs:31-41 | the name is the text before the first `=`, and the value is the text between it and the next `=` |
| ServerArguments.WellFormedArguments | Arguments.cs:39-42 | three well-formed options: the root and address are stored as written (the address is not validated), and the port is the parsed text |
| ServerArguments.NamedOption | Arguments.cs:31-41 | `name=value` has that name and that value |
| ServerArguments.ConfigureOfValues | Arguments.cs:39-42 | well-named arguments that all hold a value configure exactly those values |
| ServerArguments.NonNumericPortIsZero | Arguments.cs:41-42 | a port that does not parse gives 0, not the default 8080 |
| ServerArguments.DecimalPortReadsBack | Arguments.cs:41-42 | a decimal port up to `Int32.MaxValue` is stored as that number |
| ServerArguments.MissingEqualsRestoresDefaults | Arguments.cs:39-51 | a well-named option without `=` restores every default, even where earlier options had already been assigned |

## Left out

- `Listener.cs`, `Logger.cs` and `Program.cs` are not part of this model, apart from the accepted socket a response starts from (`Socket.constructor`). They hold the accept loop, the log file and the start-up.
- Every `Logger.Log` call is left out: the method warning, the request line, the response status, and the shutdown and parse errors. Logging does not change what is parsed or sent.
- Asynchrony (`async`/`await`, `Task.Run`) is left out. The sends, the shutdown and the close happen in program order.
- `DateTime.UtcNow` formatted with `R` is a `date` parameter.
- The real socket and file system are left out. A send either delivers all its bytes or throws, and the set `failing` says which send attempts throw; an attempt after a failed one may still succeed, as the 500 page after a failed send does. A read either returns the stored bytes or throws; it throws for the paths marked unreadable and for files longer than 0x7FFFFFC7 bytes, the largest byte array of current .NET runtimes (older runtimes stop at 0x7FFFFFFF).
- Responses.Response.ProcessAsync: the `try`/`catch`/`finally` is in the helper method `TryServe`, and the 404 reply is in `SendNotFound`. Together they do what the source's one method does.
- Responses.CloseWire: the `_client != null` test is left out, because the client is always the accepted socket and never null.
- Requests.Request.Parse: the `catch` that logs and rethrows is left out. Nothing in the modelled code throws there: `Split` always gives at least one piece and the indices are guarded.
- Paths.GetDirectoryName: only Unix paths with `/` are modelled. Windows drive letters and `\` are left out, and so is the collapsing of repeated separators inside the result.
- Paths.ChangeExtensionProperties: the stem-plus-new-extension and read-back clauses are promised only for a non-empty path, because `Path.ChangeExtension("", e)` returns `""`.
- Paths.Combine and Paths.GetExtension: only `/` is a separator, and invalid path characters are not checked.
- Text.ToUpper and Text.ToLower: the invariant, non-Turkic culture is assumed, and only ASCII letters change case. Under a Turkic culture `".GIF".ToLower()` gives `".gıf"`, which the model does not produce; it would fall through to `application/octet-stream`.
- Text.TryParseInt32: the optional trailing NUL characters .NET accepts are left out, and so are culture-specific signs.
- Text.AsciiString: the buffer is decoded in one piece, so a request longer than 1024 bytes is seen only up to its first 1024 bytes, as in the source.
- ServerArguments.Arguments.constructor: unset static strings are `null` in C#; the model uses the empty string.
