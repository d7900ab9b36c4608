/** The response side of a connection: the requested file is looked up (with a
    one-shot extension fallback), and either its bytes with a 200 header or an HTML
    error page is written to the client, which is then shut down and closed. */
module Responses {
  import opened Text
  import opened Paths
  import Requests

  // ---------------------------------------------------------------------------
  // MIME types

  /** Content types by lower-case extension. */
  const MimeTypes: map<string, string> := map[
    ".html" := "text/html",
    ".htm" := "text/html",
    ".jpg" := "image/jpeg",
    ".jpeg" := "image/jpeg",
    ".txt" := "text/plain",
    ".gif" := "image/gif"]

  const DefaultMimeType: string := "application/octet-stream"

  /** The content type for an extension, compared without regard to case. */
  function GetMimeType(extension: string): (r: string)
    ensures r == "text/html" <==> ToLower(extension) in {".html", ".htm"}
    ensures r == "image/jpeg" <==> ToLower(extension) in {".jpg", ".jpeg"}
    ensures r == "text/plain" <==> ToLower(extension) == ".txt"
    ensures r == "image/gif" <==> ToLower(extension) == ".gif"
    ensures r == DefaultMimeType <==> ToLower(extension) !in MimeTypes
  {
    var key := ToLower(extension);
    if key in MimeTypes then MimeTypes[key] else DefaultMimeType
  }

  /** Upper- or lower-casing an extension never changes its content type. */
  lemma MimeTypeIgnoresCase(extension: string)
    ensures GetMimeType(ToUpper(extension)) == GetMimeType(extension)
    ensures GetMimeType(ToLower(extension)) == GetMimeType(extension)
  {
    LowerForgetsCase(extension);
  }

  // ---------------------------------------------------------------------------
  // Extension fallback

  /** The extension tried instead when a file with `extension` is missing. */
  function AlternateExtension(extension: string): (r: Option<string>)
    ensures r.Some? <==> extension in {".html", ".htm", ".jpg", ".jpeg"}
    ensures r.Some? ==> |r.value| >= 2 && r.value[0] == '.' && '.' !in r.value[1..] && Separator !in r.value
  {
    if extension == ".html" then Some(".htm")
    else if extension == ".htm" then Some(".html")
    else if extension == ".jpg" then Some(".jpeg")
    else if extension == ".jpeg" then Some(".jpg")
    else None
  }

  /** The substitution pairs each extension with a different one that maps back to
      it, and both have the same content type. */
  lemma AlternateIsInvolution(extension: string)
    requires AlternateExtension(extension).Some?
    ensures var other := AlternateExtension(extension).value;
      && other != extension
      && AlternateExtension(other) == Some(extension)
      && GetMimeType(other) == GetMimeType(extension)
      && ToLower(other) == other
  {
    assert ToLower(".html") == ".html";
    assert ToLower(".htm") == ".htm";
    assert ToLower(".jpg") == ".jpg";
    assert ToLower(".jpeg") == ".jpeg";
  }

  /** The path tried when `path` is missing: its extension, lower-cased, swapped once
      by the table above; any other extension leaves the path as it is. */
  function FallbackPath(path: string): (r: string)
    ensures AlternateExtension(ToLower(GetExtension(path))).None? ==> r == path
    ensures AlternateExtension(ToLower(GetExtension(path))).Some? ==>
              && Stem(r) == Stem(path)
              && GetExtension(r) == AlternateExtension(ToLower(GetExtension(path))).value
  {
    match AlternateExtension(ToLower(GetExtension(path)))
    case Some(e) =>
      ChangeExtensionProperties(path, e, e);
      ChangeExtension(path, e)
    case None => path
  }

  /** The fallback path, case by case as the switch on the lower-cased extension
      chooses it. */
  lemma FallbackCases(path: string)
    ensures var ext := ToLower(GetExtension(path));
      && (ext == ".html" ==> FallbackPath(path) == ChangeExtension(path, ".htm"))
      && (ext == ".htm" ==> FallbackPath(path) == ChangeExtension(path, ".html"))
      && (ext == ".jpg" ==> FallbackPath(path) == ChangeExtension(path, ".jpeg"))
      && (ext == ".jpeg" ==> FallbackPath(path) == ChangeExtension(path, ".jpg"))
      && (ext !in {".html", ".htm", ".jpg", ".jpeg"} ==> FallbackPath(path) == path)
  {
  }

  /** On a lower-case extension the fallback undoes itself. */
  lemma {:induction false} FallbackIsInvolution(path: string)
    requires GetExtension(path) in {".html", ".htm", ".jpg", ".jpeg"}
    ensures FallbackPath(path) != path
    ensures FallbackPath(FallbackPath(path)) == path
  {
    var ext := GetExtension(path);
    LowerCaseExtensions(ext);
    AlternateIsInvolution(ext);
    SwapTwice(path, ext, AlternateExtension(ext).value);
  }

  /** The four extensions with an alternate are already lower-case. */
  lemma LowerCaseExtensions(ext: string)
    requires ext in {".html", ".htm", ".jpg", ".jpeg"}
    ensures ToLower(ext) == ext
  {
    assert ToLower(".html") == ".html";
    assert ToLower(".htm") == ".htm";
    assert ToLower(".jpg") == ".jpg";
    assert ToLower(".jpeg") == ".jpeg";
  }

  /** Swapping a lower-case extension for its lower-case partner and back restores
      the path. */
  lemma {:induction false} SwapTwice(path: string, ext: string, e: string)
    requires GetExtension(path) == ext && ToLower(ext) == ext
    requires AlternateExtension(ext) == Some(e) && e != ext
    requires AlternateExtension(e) == Some(ext) && ToLower(e) == e
    ensures FallbackPath(path) != path
    ensures FallbackPath(FallbackPath(path)) == path
  {
    var q := FallbackPath(path);
    assert q == ChangeExtension(path, e);
    ChangeExtensionProperties(path, e, ext);
    assert GetExtension(q) == e;
    assert FallbackPath(q) == ChangeExtension(q, ext);
    StemAndExtension(path);
  }

  /** The fallback never changes the content type the path would be served with. */
  lemma FallbackKeepsMimeType(path: string)
    ensures GetMimeType(GetExtension(FallbackPath(path))) == GetMimeType(GetExtension(path))
  {
    var ext := ToLower(GetExtension(path));
    if AlternateExtension(ext).Some? {
      AlternateIsInvolution(ext);
      LowerForgetsCase(GetExtension(path));
    }
  }

  // ---------------------------------------------------------------------------
  // The file system

  /** Existing files with their contents; `unreadable` names the files whose read
      fails (permissions, a file removed after the existence check, an I/O error). */
  datatype FileSystem = FileSystem(files: map<string, seq<byte>>, unreadable: set<string>)

  /** The longest array the runtime allocates; reading a longer file throws. */
  const MaxArrayLength: nat := 0x7FFF_FFC7

  /** `File.ReadAllBytes(path)` for an existing file: its contents, or `None` where the
      read throws, because the file is unreadable or longer than any byte array. */
  function ReadAllBytes(fs: FileSystem, path: string): (r: Option<seq<byte>>)
    requires path in fs.files
    ensures r.Some? <==> path !in fs.unreadable && |fs.files[path]| <= MaxArrayLength
    ensures r.Some? ==> r.value == fs.files[path]
  {
    if path in fs.unreadable || |fs.files[path]| > MaxArrayLength then None
    else Some(fs.files[path])
  }

  /** The path that is served, or `None` for a 404: the path itself when it exists,
      else its fallback when that exists. */
  function ResolvePath(fs: FileSystem, path: string): (r: Option<string>)
    ensures r.Some? ==> r.value in fs.files
    ensures path in fs.files ==> r == Some(path)
    ensures path !in fs.files && r.Some? ==> r.value == FallbackPath(path)
    ensures r.None? <==> path !in fs.files && FallbackPath(path) !in fs.files
  {
    if path in fs.files then Some(path)
    else if FallbackPath(path) in fs.files then Some(FallbackPath(path))
    else None
  }

  // ---------------------------------------------------------------------------
  // Header and error page text

  const CRLF: string := "\r\n"
  const SuccessServer: string := "MyOwnWebServer/1.0"
  const ErrorServer: string := "MyOwnWebServer"

  /** A header block: status line, Content-Type, Content-Length, Server and Date, each
      ended by CRLF, then the empty line. */
  function HeaderText(status: string, contentType: string, contentLength: nat, server: string, date: string): string
  {
    "HTTP/1.1 " + status + CRLF + (
    "Content-Type: " + contentType + CRLF + (
    "Content-Length: " + NatToString(contentLength) + CRLF + (
    "Server: " + server + CRLF + (
    "Date: " + date + CRLF +
    CRLF))))
  }

  /** The header sent before a file's bytes. */
  function SuccessHeader(status: string, contentType: string, contentLength: nat, date: string): string
  {
    HeaderText(status, contentType, contentLength, SuccessServer, date)
  }

  /** `{code} {message}` */
  function ErrorStatus(code: nat, message: string): string
  {
    NatToString(code) + " " + message
  }

  /** The HTML page sent as the body of an error response. */
  function ErrorBody(code: nat, message: string): string
  {
    "<h1>" + ErrorStatus(code, message) + "</h1>"
  }

  /** The header sent before an error page. */
  function ErrorHeader(code: nat, message: string, date: string): string
  {
    HeaderText(ErrorStatus(code, message), "text/html", |ErrorBody(code, message)|, ErrorServer, date)
  }

  /** The lines of a text whose lines end in CRLF, as a client reads a header. */
  function CrlfLines(s: string): (r: seq<string>)
    ensures |r| >= 1
    decreases |s|
  {
    if |s| == 0 then [""]
    else if |s| >= 2 && s[0] == '\r' && s[1] == '\n' then [""] + CrlfLines(s[2..])
    else
      var rest := CrlfLines(s[1..]);
      [[s[0]] + rest[0]] + rest[1..]
  }

  lemma {:induction false} CrlfLinesAfterLine(a: string, b: string)
    requires '\r' !in a
    ensures CrlfLines(a + CRLF + b) == [a] + CrlfLines(b)
    decreases |a|
  {
    var s := a + CRLF + b;
    if |a| == 0 {
      assert s == CRLF + b;
      assert s[2..] == b;
    } else {
      assert s[0] == a[0];
      assert s[1..] == a[1..] + CRLF + b;
      CrlfLinesAfterLine(a[1..], b);
      assert [a[0]] + a[1..] == a;
    }
  }

  /** A client splitting a header block at CRLF finds exactly the five header lines
      in their fixed order, then the empty line that ends the block. */
  lemma {:induction false} HeaderLines(status: string, contentType: string, contentLength: nat, server: string, date: string)
    requires '\r' !in status && '\r' !in contentType && '\r' !in server && '\r' !in date
    ensures CrlfLines(HeaderText(status, contentType, contentLength, server, date)) == [
      "HTTP/1.1 " + status,
      "Content-Type: " + contentType,
      "Content-Length: " + NatToString(contentLength),
      "Server: " + server,
      "Date: " + date,
      "", ""]
  {
    var l0, l1, l2 := "HTTP/1.1 " + status, "Content-Type: " + contentType, "Content-Length: " + NatToString(contentLength);
    var l3, l4 := "Server: " + server, "Date: " + date;
    assert '\r' !in l0 && '\r' !in l1 && '\r' !in l3 && '\r' !in l4;
    assert '\r' !in l2 by {
      var digits := NatToString(contentLength);
      assert forall i :: 0 <= i < |digits| ==> IsDigit(digits[i]);
    }
    assert HeaderText(status, contentType, contentLength, server, date)
        == l0 + CRLF + (l1 + CRLF + (l2 + CRLF + (l3 + CRLF + (l4 + CRLF + CRLF))));
    FiveLines(l0, l1, l2, l3, l4);
  }

  /** Three CRLF-ended lines followed by an empty line. */
  lemma ThreeLines(a: string, b: string, c: string)
    requires '\r' !in a && '\r' !in b && '\r' !in c
    ensures CrlfLines(a + CRLF + (b + CRLF + (c + CRLF + CRLF))) == [a, b, c, "", ""]
  {
    assert CrlfLines(CRLF) == ["", ""];
    CrlfLinesAfterLine(c, CRLF);
    CrlfLinesAfterLine(b, c + CRLF + CRLF);
    CrlfLinesAfterLine(a, b + CRLF + (c + CRLF + CRLF));
  }

  /** Five CRLF-ended lines followed by an empty line. */
  lemma FiveLines(a: string, b: string, c: string, d: string, e: string)
    requires '\r' !in a && '\r' !in b && '\r' !in c && '\r' !in d && '\r' !in e
    ensures CrlfLines(a + CRLF + (b + CRLF + (c + CRLF + (d + CRLF + (e + CRLF + CRLF))))) == [a, b, c, d, e, "", ""]
  {
    ThreeLines(c, d, e);
    CrlfLinesAfterLine(b, c + CRLF + (d + CRLF + (e + CRLF + CRLF)));
    CrlfLinesAfterLine(a, b + CRLF + (c + CRLF + (d + CRLF + (e + CRLF + CRLF))));
  }

  /** The Content-Length a client reads back from the header is the number written. */
  lemma ContentLengthReadsBack(status: string, contentType: string, contentLength: nat, server: string, date: string)
    requires '\r' !in status && '\r' !in contentType && '\r' !in server && '\r' !in date
    requires contentLength <= Int32Max
    ensures var lines := CrlfLines(HeaderText(status, contentType, contentLength, server, date));
      |lines| == 7 && var line := lines[2];
      |line| >= 16 && line[..16] == "Content-Length: " && TryParseInt32(line[16..]) == Some(contentLength)
  {
    HeaderLines(status, contentType, contentLength, server, date);
    var line := "Content-Length: " + NatToString(contentLength);
    assert line[16..] == NatToString(contentLength);
    TryParseInt32OfNatToString(contentLength);
  }

  /** An error header announces an HTML page whose length is exactly the number of
      body bytes sent, from the server named without a version. */
  lemma ErrorHeaderLines(code: nat, message: string, date: string)
    requires '\r' !in message && '\r' !in date
    ensures CrlfLines(ErrorHeader(code, message, date)) == [
      "HTTP/1.1 " + NatToString(code) + " " + message,
      "Content-Type: text/html",
      "Content-Length: " + NatToString(|AsciiBytes(ErrorBody(code, message))|),
      "Server: MyOwnWebServer",
      "Date: " + date,
      "", ""]
  {
    assert '\r' !in ErrorStatus(code, message) by {
      var digits := NatToString(code);
      assert forall i :: 0 <= i < |digits| ==> IsDigit(digits[i]);
    }
    HeaderLines(ErrorStatus(code, message), "text/html", |ErrorBody(code, message)|, ErrorServer, date);
    assert "HTTP/1.1 " + ErrorStatus(code, message) == "HTTP/1.1 " + NatToString(code) + " " + message;
    ErrorFixedLines();
  }

  /** Proof step for `ErrorHeaderLines`: the two header lines that are the same in
      every error response. */
  lemma ErrorFixedLines()
    ensures "Content-Type: " + "text/html" == "Content-Type: text/html"
    ensures "Server: " + ErrorServer == "Server: MyOwnWebServer"
  {
  }

  // ---------------------------------------------------------------------------
  // The client connection

  /** What is observable of the client socket: the bytes sent so far, how many sends
      were attempted, which attempts (counted from 0) fail in the transport, whether
      shutting down fails, and how often it was shut down and closed. */
  datatype Wire = Wire(output: seq<byte>, sends: nat, failing: set<nat>, shutdownFails: bool, shutdowns: nat, closes: nat)

  /** Whether the `k`-th send from now goes out. */
  predicate Delivers(w: Wire, k: nat)
  {
    w.sends + k !in w.failing
  }

  /** A state of the connection and whether the last step completed without an exception. */
  datatype Step = Step(wire: Wire, ok: bool)

  /** Step `r` from `w` attempted at least one send, and it completed exactly when
      its last attempt went out. */
  predicate LastSendDecides(w: Wire, r: Step)
  {
    && r.wire.sends > w.sends && r.wire.failing == w.failing
    && (r.ok <==> r.wire.sends - 1 !in w.failing)
  }

  /** One send attempt: all of `data` goes out, or the send fails and nothing does;
      either way the next attempt is the next one counted. */
  function SendStep(w: Wire, data: seq<byte>): (r: Step)
    ensures r.ok <==> Delivers(w, 0)
    ensures r.wire.output == if r.ok then w.output + data else w.output
    ensures r.wire == w.(output := r.wire.output, sends := w.sends + 1)
  {
    if w.sends !in w.failing then Step(w.(output := w.output + data, sends := w.sends + 1), true)
    else Step(w.(sends := w.sends + 1), false)
  }

  /** Two sends in a row, the second only if the first went out. */
  function TwoSends(w: Wire, first: seq<byte>, second: seq<byte>): (r: Step)
    ensures r.ok <==> Delivers(w, 0) && Delivers(w, 1)
    ensures r.wire.output ==
      if !Delivers(w, 0) then w.output
      else if Delivers(w, 1) then w.output + first + second
      else w.output + first
    ensures r.wire == w.(output := r.wire.output, sends := if Delivers(w, 0) then w.sends + 2 else w.sends + 1)
    ensures LastSendDecides(w, r)
  {
    var a := SendStep(w, first);
    if !a.ok then a else SendStep(a.wire, second)
  }

  /** Sending an error: the header, then (if that went out) the page. */
  function SendErrorStep(w: Wire, code: nat, message: string, date: string): (r: Step)
    ensures r.ok <==> Delivers(w, 0) && Delivers(w, 1)
    ensures r.ok ==> r.wire.output == w.output + AsciiBytes(ErrorHeader(code, message, date)) + AsciiBytes(ErrorBody(code, message))
    ensures r.wire == w.(output := r.wire.output, sends := if Delivers(w, 0) then w.sends + 2 else w.sends + 1)
    ensures LastSendDecides(w, r)
  {
    TwoSends(w, AsciiBytes(ErrorHeader(code, message, date)), AsciiBytes(ErrorBody(code, message)))
  }

  /** Shut down both directions (a failure there is only logged), then close. */
  function CloseWire(w: Wire): (r: Wire)
    ensures r.closes == w.closes + 1
    ensures r.shutdowns == if w.shutdownFails then w.shutdowns else w.shutdowns + 1
    ensures r.output == w.output && r.sends == w.sends && r.failing == w.failing && r.shutdownFails == w.shutdownFails
  {
    w.(shutdowns := if w.shutdownFails then w.shutdowns else w.shutdowns + 1, closes := w.closes + 1)
  }

  /** The socket of one accepted connection. */
  class Socket {
    var output: seq<byte>
    var sends: nat
    var failing: set<nat>
    var shutdownFails: bool
    var shutdowns: nat
    var closes: nat

    function State(): Wire
      reads this
    {
      Wire(output, sends, failing, shutdownFails, shutdowns, closes)
    }

    /** A freshly accepted connection whose send attempts in `failing` will fail. */
    constructor (failing: set<nat>, shutdownFails: bool)
      ensures State() == Wire([], 0, failing, shutdownFails, 0, 0)
    {
      this.output, this.sends, this.failing, this.shutdownFails := [], 0, failing, shutdownFails;
      this.shutdowns, this.closes := 0, 0;
    }

    /** `SendAsync`; `ok` is false where it throws. */
    method Send(data: seq<byte>) returns (ok: bool)
      modifies this
      ensures Step(State(), ok) == SendStep(old(State()), data)
    {
      ok := sends !in failing;
      if ok {
        output := output + data;
      }
      sends := sends + 1;
    }

    /** `Shutdown(Both)`; `ok` is false where it throws a socket error. */
    method Shutdown() returns (ok: bool)
      modifies this
      ensures ok == !old(shutdownFails)
      ensures State() == old(State()).(shutdowns := if ok then old(shutdowns) + 1 else old(shutdowns))
    {
      ok := !shutdownFails;
      if ok {
        shutdowns := shutdowns + 1;
      }
    }

    method Close()
      modifies this
      ensures State() == old(State()).(closes := old(closes) + 1)
    {
      closes := closes + 1;
    }
  }

  // ---------------------------------------------------------------------------
  // The pipeline

  /** `Completed` when ProcessAsync returns normally, `Faulted` when an exception
      (a failed send on the error path) escapes to the caller. */
  datatype Outcome = Completed | Faulted

  datatype Exchange = Exchange(wire: Wire, outcome: Outcome)

  /** The body of the `try`: read the file, send the 200 header, send the bytes.
      `ok` is false where an exception leaves the block. */
  function ServeFile(w: Wire, fs: FileSystem, path: string, date: string): (r: Step)
    requires path in fs.files
    ensures r.ok <==> ReadAllBytes(fs, path).Some? && Delivers(w, 0) && Delivers(w, 1)
    ensures ReadAllBytes(fs, path).None? ==> r.wire == w
    ensures ReadAllBytes(fs, path).Some? ==>
      r.wire == TwoSends(w, AsciiBytes(SuccessHeader("200 OK", GetMimeType(GetExtension(path)), |fs.files[path]|, date)), fs.files[path]).wire
    ensures ReadAllBytes(fs, path).Some? ==> LastSendDecides(w, r)
  {
    match ReadAllBytes(fs, path)
    case None => Step(w, false)
    case Some(bytes) =>
      TwoSends(w, AsciiBytes(SuccessHeader("200 OK", GetMimeType(GetExtension(path)), |bytes|, date)), bytes)
  }

  /** What ProcessAsync does once the lookup is over: the 404 page for no target,
      otherwise the `try` block, the 500 page if it failed, and the close. */
  function Deliver(w: Wire, fs: FileSystem, target: Option<string>, date: string): Exchange
    requires target.Some? ==> target.value in fs.files
  {
    match target
    case None =>
      var e := SendErrorStep(w, 404, "File Not Found", date);
      Exchange(e.wire, if e.ok then Completed else Faulted)
    case Some(p) =>
      var c := TryCatch(w, fs, p, date);
      Exchange(CloseWire(c.wire), if c.ok then Completed else Faulted)
  }

  /** The `try` block and, when it failed, the `catch` that sends the 500 page. */
  function TryCatch(w: Wire, fs: FileSystem, p: string, date: string): (r: Step)
    requires p in fs.files
    ensures LastSendDecides(w, r)
    ensures r.wire.closes == w.closes && r.wire.shutdowns == w.shutdowns && r.wire.shutdownFails == w.shutdownFails
  {
    var t := ServeFile(w, fs, p, date);
    if t.ok then t
    else
      var e := SendErrorStep(t.wire, 500, "Internal Server Error", date);
      assert LastSendDecides(t.wire, e);
      e
  }

  /** Everything ProcessAsync does to the connection for one requested file. */
  function Respond(w: Wire, fs: FileSystem, webRoot: string, requestedFile: string, date: string): Exchange
  {
    Deliver(w, fs, ResolvePath(fs, Combine(webRoot, requestedFile)), date)
  }

  /** The response to one request over one client connection. */
  class Response {
    const client: Socket
    const request: Requests.Request

    constructor (client: Socket, request: Requests.Request)
      ensures this.client == client && this.request == request
    {
      this.client := client;
      this.request := request;
    }

    method SendToClient(data: seq<byte>) returns (ok: bool)
      modifies client
      ensures Step(client.State(), ok) == SendStep(old(client.State()), data)
    {
      ok := client.Send(data);
    }

    method SendHeader(status: string, contentType: string, contentLength: nat, date: string) returns (ok: bool)
      modifies client
      ensures Step(client.State(), ok) == SendStep(old(client.State()), AsciiBytes(SuccessHeader(status, contentType, contentLength, date)))
    {
      var header := SuccessHeader(status, contentType, contentLength, date);
      ok := SendToClient(AsciiBytes(header));
    }

    /** Sends the error header and then the error page; stops at the first failed send. */
    method SendError(code: nat, message: string, date: string) returns (ok: bool)
      modifies client
      ensures Step(client.State(), ok) == SendErrorStep(old(client.State()), code, message, date)
    {
      var body := ErrorBody(code, message);
      var header := ErrorHeader(code, message, date);
      ok := SendToClient(AsciiBytes(header));
      if ok {
        ok := SendToClient(AsciiBytes(body));
      }
    }

    /** Shutdown, then Close even when the shutdown failed. */
    method CloseSocket()
      modifies client
      ensures client.State() == CloseWire(old(client.State()))
    {
      var shut := client.Shutdown();
      client.Close();
    }

    /** Looks the file up under `webRoot`, tries the alternate extension once, answers
        404 (and returns at once), or serves the file; a failure in the `try` block
        sends a 500; the `finally` block closes the socket. */
    method ProcessAsync(fs: FileSystem, webRoot: string, date: string) returns (outcome: Outcome)
      modifies client
      ensures Exchange(client.State(), outcome) == Respond(old(client.State()), fs, webRoot, request.requestedFile, date)
    {
      var filePath := Combine(webRoot, request.requestedFile);
      ghost var requested := filePath;
      if filePath !in fs.files {
        var originalExtension := ToLower(GetExtension(filePath));
        FallbackCases(filePath);
        if originalExtension == ".html" {
          filePath := ChangeExtension(filePath, ".htm");
        } else if originalExtension == ".htm" {
          filePath := ChangeExtension(filePath, ".html");
        } else if originalExtension == ".jpg" {
          filePath := ChangeExtension(filePath, ".jpeg");
        } else if originalExtension == ".jpeg" {
          filePath := ChangeExtension(filePath, ".jpg");
        }
        if filePath !in fs.files {
          assert ResolvePath(fs, requested).None?;
          outcome := SendNotFound(fs, date);
          return;
        }
      }
      assert ResolvePath(fs, requested) == Some(filePath);
      outcome := TryServe(fs, filePath, date);
    }

    /** The 404 page, sent before the `try` block and so without closing the socket. */
    method SendNotFound(fs: FileSystem, date: string) returns (outcome: Outcome)
      modifies client
      ensures Exchange(client.State(), outcome) == Deliver(old(client.State()), fs, None, date)
    {
      var sent := SendError(404, "File Not Found", date);
      outcome := if sent then Completed else Faulted;
    }

    /** The `try` block (read, header, bytes), its `catch` (the 500 page) and its
        `finally` (the close) for a file that exists. */
    method TryServe(fs: FileSystem, filePath: string, date: string) returns (outcome: Outcome)
      requires filePath in fs.files
      modifies client
      ensures Exchange(client.State(), outcome) == Deliver(old(client.State()), fs, Some(filePath), date)
    {
      var ok;
      var read := ReadAllBytes(fs, filePath);
      if read.None? {
        ok := false;
      } else {
        var fileBytes := read.value;
        var mimeType := GetMimeType(GetExtension(filePath));
        ok := SendHeader("200 OK", mimeType, |fileBytes|, date);
        if ok {
          ok := SendToClient(fileBytes);
        }
      }
      assert Step(client.State(), ok) == ServeFile(old(client.State()), fs, filePath, date);
      if !ok {
        ok := SendError(500, "Internal Server Error", date);
      }
      CloseSocket();
      outcome := if ok then Completed else Faulted;
    }
  }

  // ---------------------------------------------------------------------------
  // Properties of the pipeline

  /** A found file that can be read, over a connection that takes the two sends:
      the 200 header naming the content type of the served path's extension and the
      file's length, then exactly the file's bytes; the socket is closed once. */
  lemma ServedFile(w: Wire, fs: FileSystem, webRoot: string, requestedFile: string, date: string)
    requires ResolvePath(fs, Combine(webRoot, requestedFile)).Some?
    requires ResolvePath(fs, Combine(webRoot, requestedFile)).value !in fs.unreadable
    requires |fs.files[ResolvePath(fs, Combine(webRoot, requestedFile)).value]| <= MaxArrayLength
    requires Delivers(w, 0) && Delivers(w, 1)
    ensures var p := ResolvePath(fs, Combine(webRoot, requestedFile)).value;
      var x := Respond(w, fs, webRoot, requestedFile, date);
      && x.outcome == Completed
      && x.wire.output == w.output
           + AsciiBytes(SuccessHeader("200 OK", GetMimeType(GetExtension(p)), |fs.files[p]|, date))
           + fs.files[p]
      && x.wire.closes == w.closes + 1
  {
  }

  /** Neither the path nor its fallback exists: exactly the 404 page is sent, and the
      early return skips the close, so the socket is neither shut down nor closed. */
  lemma NotFound(w: Wire, fs: FileSystem, webRoot: string, requestedFile: string, date: string)
    requires ResolvePath(fs, Combine(webRoot, requestedFile)).None?
    ensures var x := Respond(w, fs, webRoot, requestedFile, date);
      && x.wire.closes == w.closes && x.wire.shutdowns == w.shutdowns
      && (Delivers(w, 0) && Delivers(w, 1) ==>
            x.outcome == Completed &&
            x.wire.output == w.output
              + AsciiBytes(ErrorHeader(404, "File Not Found", date))
              + AsciiBytes("<h1>404 File Not Found</h1>"))
  {
    var e := SendErrorStep(w, 404, "File Not Found", date);
    assert Respond(w, fs, webRoot, requestedFile, date) == Exchange(e.wire, if e.ok then Completed else Faulted);
    NotFoundPage();
  }

  /** The 404 page. */
  lemma NotFoundPage()
    ensures ErrorBody(404, "File Not Found") == "<h1>404 File Not Found</h1>"
  {
    NotFoundDigits();
    assert ErrorStatus(404, "File Not Found") == "404" + " " + "File Not Found";
    PageText("404", " ", "File Not Found");
    NotFoundPageText();
  }

  /** Proof step for `NotFoundPage`: the page text put together. */
  lemma NotFoundPageText()
    ensures "<h1>" + "404" + " " + "File Not Found" + "</h1>" == "<h1>404 File Not Found</h1>"
  {
  }

  /** The decimal text of 404. */
  lemma NotFoundDigits()
    ensures NatToString(404) == "404"
  {
    assert NatToString(4) == "4";
    assert NatToString(40) == [DigitChar(4)] + [DigitChar(0)];
  }

  /** Proof step for `NotFoundPage`: the error page text for a status of three parts. */
  lemma PageText(a: string, b: string, c: string)
    ensures "<h1>" + (a + b + c) + "</h1>" == "<h1>" + a + b + c + "</h1>"
  {
  }

  /** A found file whose read fails, because it is unreadable or too long for a byte
      array: the 500 page is sent, and the socket is closed once. */
  lemma ReadFails(w: Wire, fs: FileSystem, webRoot: string, requestedFile: string, date: string)
    requires ResolvePath(fs, Combine(webRoot, requestedFile)).Some?
    requires var p := ResolvePath(fs, Combine(webRoot, requestedFile)).value;
      p in fs.unreadable || |fs.files[p]| > MaxArrayLength
    requires Delivers(w, 0) && Delivers(w, 1)
    ensures var x := Respond(w, fs, webRoot, requestedFile, date);
      && x.outcome == Completed
      && x.wire.output == w.output
           + AsciiBytes(ErrorHeader(500, "Internal Server Error", date))
           + AsciiBytes(ErrorBody(500, "Internal Server Error"))
      && x.wire.closes == w.closes + 1
  {
  }

  /** Whenever the `try` block is reached the socket is closed exactly once, and shut
      down once unless the shutdown fails; on the 404 path neither happens. */
  lemma CloseExactlyOnceAfterTry(w: Wire, fs: FileSystem, webRoot: string, requestedFile: string, date: string)
    ensures var x := Respond(w, fs, webRoot, requestedFile, date);
      var tried := ResolvePath(fs, Combine(webRoot, requestedFile)).Some?;
      && x.wire.closes == (if tried then w.closes + 1 else w.closes)
      && x.wire.shutdowns == (if tried && !w.shutdownFails then w.shutdowns + 1 else w.shutdowns)
  {
  }

  /** A failed send of the 200 header is answered by the 500 page, sent with the
      next two attempts, and the socket is closed once. */
  lemma HeaderSendFails(w: Wire, fs: FileSystem, p: string, date: string)
    requires p in fs.files && ReadAllBytes(fs, p).Some?
    requires !Delivers(w, 0) && Delivers(w, 1) && Delivers(w, 2)
    ensures var x := Deliver(w, fs, Some(p), date);
      && x.outcome == Completed
      && x.wire.output == w.output
           + AsciiBytes(ErrorHeader(500, "Internal Server Error", date))
           + AsciiBytes(ErrorBody(500, "Internal Server Error"))
      && x.wire.closes == w.closes + 1
  {
    var t := ServeFile(w, fs, p, date);
    assert t.wire == w.(sends := w.sends + 1);
    ErrorPageAfterFailedTry(w, fs, p, date);
  }

  /** A failed send of the file's bytes after the 200 header went out is followed by
      the 500 page, so the client receives the 200 header and then the error
      response; the socket is closed once. */
  lemma BodySendFails(w: Wire, fs: FileSystem, p: string, date: string)
    requires p in fs.files && ReadAllBytes(fs, p).Some?
    requires Delivers(w, 0) && !Delivers(w, 1) && Delivers(w, 2) && Delivers(w, 3)
    ensures var x := Deliver(w, fs, Some(p), date);
      && x.outcome == Completed
      && x.wire.output == w.output
           + AsciiBytes(SuccessHeader("200 OK", GetMimeType(GetExtension(p)), |fs.files[p]|, date))
           + AsciiBytes(ErrorHeader(500, "Internal Server Error", date))
           + AsciiBytes(ErrorBody(500, "Internal Server Error"))
      && x.wire.closes == w.closes + 1
  {
    var header := AsciiBytes(SuccessHeader("200 OK", GetMimeType(GetExtension(p)), |fs.files[p]|, date));
    var t := ServeFile(w, fs, p, date);
    assert t.wire == TwoSends(w, header, fs.files[p]).wire;
    assert t.wire == w.(output := w.output + header, sends := w.sends + 2);
    ErrorPageAfterFailedTry(w, fs, p, date);
  }

  /** Once the `try` block failed, the `catch` sends the 500 page on the connection
      the `try` left behind, and `finally` closes it. */
  lemma ErrorPageAfterFailedTry(w: Wire, fs: FileSystem, p: string, date: string)
    requires p in fs.files && !ServeFile(w, fs, p, date).ok
    ensures var u := ServeFile(w, fs, p, date).wire;
      var e := SendErrorStep(u, 500, "Internal Server Error", date);
      Deliver(w, fs, Some(p), date) == Exchange(CloseWire(e.wire), if e.ok then Completed else Faulted)
  {
  }

  /** When the lookup finds nothing, ProcessAsync attempts at least one send and
      returns normally exactly when the last send it attempts (of the 404 page) goes out. */
  lemma NotFoundLastSend(w: Wire, fs: FileSystem, date: string)
    ensures var x := Deliver(w, fs, None, date);
      && x.wire.sends > w.sends && x.wire.failing == w.failing
      && (x.outcome == Completed <==> x.wire.sends - 1 !in w.failing)
  {
    var e := SendErrorStep(w, 404, "File Not Found", date);
    StepDecidesOutcome(w, e, Exchange(e.wire, if e.ok then Completed else Faulted));
  }

  /** For a file that exists, ProcessAsync attempts at least one send and returns
      normally exactly when the last send it attempts goes out: the file's bytes, or
      the 500 page's body after a failure; a failure in that last send escapes. */
  lemma FoundLastSend(w: Wire, fs: FileSystem, p: string, date: string)
    requires p in fs.files
    ensures var x := Deliver(w, fs, Some(p), date);
      && x.wire.sends > w.sends && x.wire.failing == w.failing
      && (x.outcome == Completed <==> x.wire.sends - 1 !in w.failing)
  {
    var c := TryCatch(w, fs, p, date);
    StepDecidesOutcome(w, c, Exchange(CloseWire(c.wire), if c.ok then Completed else Faulted));
  }

  /** An exchange that ends with step `c`'s send count reports success exactly when
      `c`'s last send went out. */
  lemma StepDecidesOutcome(w: Wire, c: Step, x: Exchange)
    requires LastSendDecides(w, c)
    requires x.wire.sends == c.wire.sends && x.wire.failing == c.wire.failing
    requires x.outcome == if c.ok then Completed else Faulted
    ensures x.wire.sends > w.sends && x.wire.failing == w.failing
    ensures x.outcome == Completed <==> x.wire.sends - 1 !in w.failing
  {
  }

  /** `x` is the connection `y` with `sent` already on the wire before `y`'s output. */
  predicate SentBefore(x: Wire, y: Wire, sent: seq<byte>)
  {
    x == y.(output := sent + y.output)
  }

  /** Output is only ever appended, and what is appended does not depend on what was
      sent before: the same request against the same files gives the same bytes. */
  lemma OutputOnlyAppended(w: Wire, fs: FileSystem, webRoot: string, requestedFile: string, date: string)
    ensures var x := Respond(w, fs, webRoot, requestedFile, date);
      var y := Respond(w.(output := []), fs, webRoot, requestedFile, date);
      x.wire == y.wire.(output := w.output + y.wire.output) && x.outcome == y.outcome
  {
    assert w.output + [] == w.output;
    DeliverAppends(w, w.(output := []), w.output, fs, ResolvePath(fs, Combine(webRoot, requestedFile)), date);
  }

  lemma DeliverAppends(x: Wire, y: Wire, sent: seq<byte>, fs: FileSystem, target: Option<string>, date: string)
    requires SentBefore(x, y, sent)
    requires target.Some? ==> target.value in fs.files
    ensures var a, b := Deliver(x, fs, target, date), Deliver(y, fs, target, date);
      SentBefore(a.wire, b.wire, sent) && a.outcome == b.outcome
  {
    match target
    case None => SendErrorAppends(x, y, sent, 404, "File Not Found", date);
    case Some(p) => ServedAppends(x, y, sent, fs, p, date);
  }

  lemma ServedAppends(x: Wire, y: Wire, sent: seq<byte>, fs: FileSystem, p: string, date: string)
    requires SentBefore(x, y, sent)
    requires p in fs.files
    ensures var a, b := Deliver(x, fs, Some(p), date), Deliver(y, fs, Some(p), date);
      SentBefore(a.wire, b.wire, sent) && a.outcome == b.outcome
  {
    var t, u := ServeFile(x, fs, p, date), ServeFile(y, fs, p, date);
    ServeFileAppends(x, y, sent, fs, p, date);
    var c := if t.ok then t else SendErrorStep(t.wire, 500, "Internal Server Error", date);
    var d := if u.ok then u else SendErrorStep(u.wire, 500, "Internal Server Error", date);
    if !t.ok {
      SendErrorAppends(t.wire, u.wire, sent, 500, "Internal Server Error", date);
    }
    CloseWireAppends(c.wire, d.wire, sent);
  }

  lemma CloseWireAppends(x: Wire, y: Wire, sent: seq<byte>)
    requires SentBefore(x, y, sent)
    ensures SentBefore(CloseWire(x), CloseWire(y), sent)
  {
  }

  lemma SendErrorAppends(x: Wire, y: Wire, sent: seq<byte>, code: nat, message: string, date: string)
    requires SentBefore(x, y, sent)
    ensures var a, b := SendErrorStep(x, code, message, date), SendErrorStep(y, code, message, date);
      SentBefore(a.wire, b.wire, sent) && a.ok == b.ok
  {
    TwoSendsAppend(x, y, sent, AsciiBytes(ErrorHeader(code, message, date)), AsciiBytes(ErrorBody(code, message)));
  }

  lemma ServeFileAppends(x: Wire, y: Wire, sent: seq<byte>, fs: FileSystem, path: string, date: string)
    requires SentBefore(x, y, sent)
    requires path in fs.files
    ensures var a, b := ServeFile(x, fs, path, date), ServeFile(y, fs, path, date);
      SentBefore(a.wire, b.wire, sent) && a.ok == b.ok
  {
    if ReadAllBytes(fs, path).Some? {
      var bytes := fs.files[path];
      var header := AsciiBytes(SuccessHeader("200 OK", GetMimeType(GetExtension(path)), |bytes|, date));
      TwoSendsAppend(x, y, sent, header, bytes);
    }
  }

  lemma TwoSendsAppend(x: Wire, y: Wire, sent: seq<byte>, first: seq<byte>, second: seq<byte>)
    requires SentBefore(x, y, sent)
    ensures var a, b := TwoSends(x, first, second), TwoSends(y, first, second);
      SentBefore(a.wire, b.wire, sent) && a.ok == b.ok
  {
    SendStepAppends(x, y, sent, first);
    var a, b := SendStep(x, first), SendStep(y, first);
    if a.ok {
      SendStepAppends(a.wire, b.wire, sent, second);
    }
  }

  lemma SendStepAppends(x: Wire, y: Wire, sent: seq<byte>, data: seq<byte>)
    requires SentBefore(x, y, sent)
    ensures var a, b := SendStep(x, data), SendStep(y, data);
      SentBefore(a.wire, b.wire, sent) && a.ok == b.ok
  {
    if Delivers(y, 0) {
      assert sent + y.output + data == sent + (y.output + data);
    }
  }
}
