/** The request side of a connection: the first line of the received text is split
    into method, target and protocol version. */
module Requests {
  import opened Text
  import Paths

  /** The four properties a request exposes, in one value. */
  datatype RequestLine = RequestLine(
    httpMethod: string,
    httpVersion: string,
    requestedFile: string,
    directory: string)

  /** The values the properties hold before anything is parsed. */
  const Defaults: RequestLine := RequestLine("GET", "HTTP/1.1", "", "/")

  /** The size of the receive buffer: at most this many bytes of a request are seen. */
  const ReceiveBufferSize: nat := 1024

  /** The file served for an empty or root-only target. */
  const IndexFile: string := "index.html"

  /** The text before the first line feed, or all of the request. */
  function FirstLine(request: string): string
  {
    FirstPiece(request, '\n')
  }

  /** The properties after parsing a request line, starting from `prev`: with fewer
      than two space-separated tokens nothing is assigned; otherwise the file name is
      never empty and never starts with a slash. */
  function ParseRequestLine(prev: RequestLine, line: string): (r: RequestLine)
    ensures ' ' !in line ==> r == prev
    ensures ' ' in line ==> r.requestedFile != "" && r.requestedFile[0] != '/'
  {
    var tokens := Split(line, ' ');
    if |tokens| < 2 then prev
    else
      var fullPath := tokens[1];
      var file := TrimStart(fullPath, '/');
      RequestLine(
        ToUpper(tokens[0]),
        if |tokens| >= 3 then Trim(tokens[2]) else prev.httpVersion,
        if file == "" then IndexFile else file,
        match Paths.GetDirectoryName(fullPath) case Some(d) => d case None => "/")
  }

  /** The properties after `Parse(request)`, starting from `prev`: a request without
      a line feed is its own request line. */
  function Parsed(prev: RequestLine, request: string): (r: RequestLine)
    ensures '\n' !in request ==> r == ParseRequestLine(prev, request)
  {
    ParseRequestLine(prev, FirstLine(request))
  }

  /** A request as it is built from one connection. */
  class Request {
    var httpMethod: string
    var httpVersion: string
    var requestedFile: string
    var directory: string

    function Line(): RequestLine
      reads this
    {
      RequestLine(httpMethod, httpVersion, requestedFile, directory)
    }

    /** Decodes what one receive call delivered as ASCII and parses it over the defaults. */
    constructor (received: seq<byte>)
      requires |received| <= ReceiveBufferSize
      ensures Line() == Parsed(Defaults, AsciiString(received))
    {
      httpMethod, httpVersion, requestedFile, directory := "GET", "HTTP/1.1", "", "/";
      new;
      Parse(AsciiString(received));
    }

    /** Overwrites the properties from the request line, one after another. A method
        other than GET is only reported to the log, which is not modelled. */
    method Parse(request: string)
      modifies this
      ensures Line() == Parsed(old(Line()), request)
    {
      var lines := Split(request, '\n');
      if |lines| > 0 {
        var requestLine := Split(lines[0], ' ');
        if |requestLine| >= 2 {
          httpMethod := ToUpper(requestLine[0]);
          var fullPath := requestLine[1];
          directory := match Paths.GetDirectoryName(fullPath) case Some(d) => d case None => "/";
          requestedFile := TrimStart(fullPath, '/');
          if requestedFile == "" {
            requestedFile := IndexFile;
          }
          if |requestLine| >= 3 {
            httpVersion := Trim(requestLine[2]);
          }
        }
      }
    }
  }

  // ---------------------------------------------------------------------------
  // Properties of parsing

  /** Without a space on the first line nothing is assigned: every property keeps
      its value, so a fresh request keeps the empty file name. A first line with a
      space always yields a non-empty file name. */
  lemma FileEmptyExactlyWithoutSpace(prev: RequestLine, request: string)
    ensures ' ' !in FirstLine(request) ==> Parsed(prev, request) == prev
    ensures Parsed(Defaults, request).requestedFile == "" <==> ' ' !in FirstLine(request)
  {
  }

  /** Only the first line counts: anything after a line feed can be changed freely. */
  lemma {:induction false} OnlyFirstLineCounts(prev: RequestLine, line: string, rest: string)
    requires '\n' !in line
    ensures Parsed(prev, line + "\n" + rest) == Parsed(prev, line)
  {
    SplitFirstPiece(line, '\n', "\n" + rest);
    assert line + "\n" + rest == line + ("\n" + rest);
    SplitFirstPiece(line, '\n', "");
    assert line + "" == line;
  }

  /** Appending text to a request that already holds a line feed changes nothing. */
  lemma AppendingAfterLineFeed(prev: RequestLine, s: string, t: string)
    requires '\n' in s
    ensures Parsed(prev, s + t) == Parsed(prev, s)
  {
    SplitFirstPieceStable(s, '\n', t);
  }

  /** With at least two tokens the method is the first token upper-cased, the
      file name is the second token with every leading slash removed, or the index
      file when nothing is left, and the directory is the second token's directory
      name, or `/` when it has none. */
  lemma TwoTokensFields(prev: RequestLine, line: string)
    requires ' ' in line
    ensures var r := ParseRequestLine(prev, line);
      var tokens := Split(line, ' ');
      && r.httpMethod == ToUpper(tokens[0])
      && r.requestedFile != "" && r.requestedFile[0] != '/'
      && (TrimStart(tokens[1], '/') != "" ==> r.requestedFile == TrimStart(tokens[1], '/'))
      && (TrimStart(tokens[1], '/') == "" ==> r.requestedFile == IndexFile)
      && r.directory == (match Paths.GetDirectoryName(tokens[1]) case Some(d) => d case None => "/")
  {
  }

  /** The protocol version is the third token trimmed, or the previous value when
      there is no third token. */
  lemma VersionFields(prev: RequestLine, line: string)
    requires ' ' in line
    ensures var r := ParseRequestLine(prev, line);
      var tokens := Split(line, ' ');
      && (|tokens| >= 3 ==> r.httpVersion == Trim(tokens[2]))
      && (|tokens| == 2 ==> r.httpVersion == prev.httpVersion)
  {
  }

  /** A line of three space-free fields splits into exactly those three tokens. */
  lemma {:induction false} ThreeTokens(m: string, t: string, v: string)
    requires ' ' !in m && ' ' !in t && ' ' !in v
    ensures Split(m + " " + t + " " + v, ' ') == [m, t, v]
  {
    assert Join([m, t, v], ' ') == m + " " + t + " " + v by {
      assert [m, t, v][1..] == [t, v];
      assert [t, v][1..] == [v];
      assert Join([v], ' ') == v;
      assert Join([t, v], ' ') == t + [' '] + v;
      assert Join([m, t, v], ' ') == m + [' '] + (t + [' '] + v);
    }
    SplitJoin([m, t, v], ' ');
  }

  /** A well-formed request line followed by anything: the method token is upper-cased,
      the target loses its leading slashes (an empty remainder names the index file),
      and the version is the third field trimmed. */
  lemma {:induction false} WellFormedRequest(prev: RequestLine, request: string, m: string, t: string, v: string, rest: string)
    requires request == m + " " + t + " " + v + "\n" + rest
    requires ' ' !in m && ' ' !in t && ' ' !in v
    requires '\n' !in m && '\n' !in t && '\n' !in v
    ensures var r := Parsed(prev, request);
      && r.httpMethod == ToUpper(m)
      && r.requestedFile == (if TrimStart(t, '/') == "" then IndexFile else TrimStart(t, '/'))
      && r.httpVersion == Trim(v)
      && r.directory == (match Paths.GetDirectoryName(t) case Some(d) => d case None => "/")
  {
    var line := m + " " + t + " " + v;
    assert request == line + "\n" + rest;
    OnlyFirstLineCounts(prev, line, rest);
    SplitFirstPiece(line, '\n', "");
    assert line + "" == line;
    ThreeTokens(m, t, v);
  }

  /** Tokens after the third are ignored. */
  lemma {:induction false} ExtraTokensIgnored(prev: RequestLine, m: string, t: string, v: string, extra: string)
    requires ' ' !in m && ' ' !in t && ' ' !in v
    ensures ParseRequestLine(prev, m + " " + t + " " + v + " " + extra)
         == ParseRequestLine(prev, m + " " + t + " " + v)
  {
    assert m + " " + t + " " + v + " " + extra == m + [' '] + (t + [' '] + (v + [' '] + extra));
    LeadingPieces(m, t, v, extra, ' ');
    ThreeTokens(m, t, v);
  }

  /** The method token decides nothing but the method: two lines that differ only in
      it give the same file name, directory and version. */
  lemma {:induction false} MethodOnlyAffectsMethod(prev: RequestLine, m1: string, m2: string, rest: string)
    requires ' ' !in m1 && ' ' !in m2
    ensures var r1 := ParseRequestLine(prev, m1 + " " + rest);
      var r2 := ParseRequestLine(prev, m2 + " " + rest);
      && r1.requestedFile == r2.requestedFile
      && r1.directory == r2.directory
      && r1.httpVersion == r2.httpVersion
  {
    SplitAfterPiece(m1, ' ', rest);
    SplitAfterPiece(m2, ' ', rest);
    assert m1 + " " + rest == m1 + [' '] + rest;
    assert m2 + " " + rest == m2 + [' '] + rest;
  }

  /** Only the version is trimmed: on a two-token line the carriage return that ends
      the line stays part of the file name, and the version keeps its previous value. */
  lemma {:induction false} CarriageReturnStaysInFile(prev: RequestLine, m: string, t: string)
    requires ' ' !in m && ' ' !in t
    ensures ParseRequestLine(prev, m + " " + t + "\r").requestedFile == TrimStart(t, '/') + "\r"
    ensures ParseRequestLine(prev, m + " " + t + "\r").httpVersion == prev.httpVersion
  {
    assert m + " " + t + "\r" == m + [' '] + (t + "\r");
    SplitAfterPiece(m, ' ', t + "\r");
    assert ' ' !in t + "\r";
    TrimStartAppend(t, "\r", '/');
  }

  /** `GET /` ended by a carriage return but no version asks for a file named by the
      carriage return alone, not for the index file. */
  lemma RootWithoutVersionKeepsCarriageReturn(prev: RequestLine)
    ensures ParseRequestLine(prev, "GET /\r").requestedFile == "\r"
    ensures ParseRequestLine(prev, "GET /\r").httpVersion == prev.httpVersion
  {
    assert "GET /\r" == "GET" + " " + "/" + "\r";
    assert TrimStart("/", '/') == "";
    CarriageReturnStaysInFile(prev, "GET", "/");
  }

  /** `GET / HTTP/1.1` asks for the index file with protocol version HTTP/1.1. */
  lemma RootRequestServesIndex(request: string, rest: string)
    requires request == "GET / HTTP/1.1\r\n" + rest
    ensures Parsed(Defaults, request) == RequestLine("GET", "HTTP/1.1", IndexFile, "/")
  {
    RootRequestTokens(rest);
    RootRequestFields();
    WellFormedRequest(Defaults, request, "GET", "/", "HTTP/1.1\r", rest);
  }

  /** Proof step for `RootRequestServesIndex`: the root request line, read as its
      three fields. */
  lemma RootRequestTokens(rest: string)
    ensures "GET / HTTP/1.1\r\n" + rest == "GET" + " " + "/" + " " + "HTTP/1.1\r" + "\n" + rest
    ensures ' ' !in "GET" && ' ' !in "/" && ' ' !in "HTTP/1.1\r"
    ensures '\n' !in "GET" && '\n' !in "/" && '\n' !in "HTTP/1.1\r"
  {
  }

  /** What each field of the root request line becomes. */
  lemma RootRequestFields()
    ensures ToUpper("GET") == "GET"
    ensures TrimStart("/", '/') == ""
    ensures Paths.GetDirectoryName("/") == None
    ensures Trim("HTTP/1.1\r") == "HTTP/1.1"
  {
    TrimDropsCarriageReturn("HTTP/1.1");
    assert "HTTP/1.1" + "\r" == "HTTP/1.1\r";
  }
}
