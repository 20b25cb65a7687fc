/**
 * Concrete requests and the outcome the server gives them. Request-level
 * facts hold for any version text after " HTTP/" without CR or NUL and any
 * bytes the client sends after the CR LF.
 */
module Scenarios {
  import opened Wrappers
  import opened RequestLine
  import opened Resource
  import opened MediaTypes
  import opened Response
  import opened Connection

  /** `/index.html` opens `.//index.html`: text/html when the open succeeds, 404 when it fails. */
  lemma ServeIndexHtml(canOpen: bool)
    ensures Serve("/index.html", canOpen)
         == Replied(".//index.html", if canOpen then Ok("text/html") else NotFound, true)
  {
    assert "/index" + "." + "html" == "/index.html";
    assert Root + "/index.html" == ".//index.html";
    assert Extensions[3] == Entry("html", "text/html");
    ServeNamedFile("/index", Extensions[3].ext, canOpen);
    ListedReply(3, canOpen);
  }

  /** `/` gets the default document appended and is classified by it. */
  lemma ServeDirectory(canOpen: bool)
    ensures Serve("/", canOpen)
         == Replied(".//index.html", if canOpen then Ok("text/html") else NotFound, true)
  {
    assert WithDefaultDocument("/") == "/index.html";
    ServeIndexHtml(canOpen);
  }

  /** An extension missing from the table gets 415 whether or not the file exists. */
  lemma ServeUnknownExtension(canOpen: bool)
    ensures Serve("/file.unknownext", canOpen) == Replied(".//file.unknownext", Unsupported, false)
  {
    assert "/file" + "." + "unknownext" == "/file.unknownext";
    assert Root + "/file.unknownext" == ".//file.unknownext";
    assert MediaTypeOf("unknownext") == None;
    assert ChooseReply("unknownext", canOpen) == Unsupported && !Opens("unknownext");
    ServeNamedFile("/file", "unknownext", canOpen);
  }

  /** The extension starts at the first dot, so `tar.gz` is looked up whole and is unsupported. */
  lemma ServeTarGz(canOpen: bool)
    ensures Serve("/a.tar.gz", canOpen) == Replied(".//a.tar.gz", Unsupported, false)
  {
    assert "/a" + "." + "tar.gz" == "/a.tar.gz";
    assert Root + "/a.tar.gz" == ".//a.tar.gz";
    assert MediaTypeOf("tar.gz") == None;
    assert ChooseReply("tar.gz", canOpen) == Unsupported && !Opens("tar.gz");
    ServeNamedFile("/a", "tar.gz", canOpen);
  }

  /** A dot in a directory name: `/v1.2/` opens `.//v1.2/index.html` with extension `2/index.html`. */
  lemma ServeDottedDirectory(canOpen: bool)
    ensures Serve("/v1.2/", canOpen) == Replied(".//v1.2/index.html", Unsupported, false)
  {
    assert WithDefaultDocument("/v1.2/") == "/v1.2/index.html";
    assert "/v1" + "." + "2/index.html" == "/v1.2/index.html";
    assert Root + "/v1.2/index.html" == ".//v1.2/index.html";
    assert MediaTypeOf("2/index.html") == None;
    ServeNamedFile("/v1", "2/index.html", canOpen);
  }

  /** Matching is case-sensitive: `.GIF` is not `.gif`. */
  lemma ServeUpperCase(canOpen: bool)
    ensures Serve("/a.GIF", canOpen) == Replied(".//a.GIF", Unsupported, false)
  {
    assert "/a" + "." + "GIF" == "/a.GIF";
    assert Root + "/a.GIF" == ".//a.GIF";
    assert MediaTypeOf("GIF") == None;
    assert ChooseReply("GIF", canOpen) == Unsupported && !Opens("GIF");
    ServeNamedFile("/a", "GIF", canOpen);
  }

  /** A trailing dot gives the empty extension, which no row has. */
  lemma ServeTrailingDot(canOpen: bool)
    ensures Serve("/a.", canOpen) == Replied(".//a.", Unsupported, false)
  {
    assert "/a" + "." + "" == "/a.";
    assert Root + "/a." == ".//a.";
    assert MediaTypeOf("") == None;
    assert ChooseReply("", canOpen) == Unsupported && !Opens("");
    ServeNamedFile("/a", "", canOpen);
  }

  /** A nested directory opens its own default document. */
  lemma ServeNestedDirectory(canOpen: bool)
    ensures Serve("/docs/", canOpen)
         == Replied(".//docs/index.html", if canOpen then Ok("text/html") else NotFound, true)
  {
    assert '.' !in "/docs/";
    assert Root + "/docs/" + DefaultDocument == ".//docs/index.html";
    assert Extensions[3] == Entry("html", "text/html");
    ServeDirectoryTarget("/docs/", canOpen);
    ListedReply(3, canOpen);
  }

  /** A target without a leading `/` is opened relative to the working directory. */
  lemma ServeRelativeTarget(canOpen: bool)
    ensures Serve("a.txt", canOpen)
         == Replied("./a.txt", if canOpen then Ok("text/plain") else NotFound, true)
  {
    assert "a" + "." + "txt" == "a.txt";
    assert Root + "a.txt" == "./a.txt";
    assert Extensions[1] == Entry("txt", "text/plain");
    ServeNamedFile("a", Extensions[1].ext, canOpen);
    ListedReply(1, canOpen);
  }

  /** A target without a dot is undefined behaviour, not a 415. */
  lemma ServeWithoutDot(canOpen: bool)
    ensures Serve("/README", canOpen) == Undefined(NoExtension)
  {
    assert '.' !in "/README";
  }

  /** End to end: `GET /index.html HTTP/...` is served, or gets 404, by the open result alone. */
  lemma IndexHtmlRequest(version: string, rest: string, canOpen: bool)
    requires PlainToken(version)
    ensures Handle("GET /index.html HTTP/" + version + "\r\n" + rest, canOpen)
         == Replied(".//index.html", if canOpen then Ok("text/html") else NotFound, true)
  {
    assert "GET" + " " + "/index.html" + Marker == "GET /index.html HTTP/";
    assert ' ' !in "GET" && PlainToken("GET");
    PlainTargetByFirst("/index.html");
    WellFormedRequest("GET", "/index.html", version, rest, canOpen);
    ServeIndexHtml(canOpen);
  }

  /** End to end: `GET / HTTP/...` serves the default document. */
  lemma DirectoryRequest(version: string, rest: string, canOpen: bool)
    requires PlainToken(version)
    ensures Handle("GET / HTTP/" + version + "\r\n" + rest, canOpen)
         == Replied(".//index.html", if canOpen then Ok("text/html") else NotFound, true)
  {
    assert "GET" + " " + "/" + Marker == "GET / HTTP/";
    assert ' ' !in "GET" && PlainToken("GET");
    PlainTargetByFirst("/");
    WellFormedRequest("GET", "/", version, rest, canOpen);
    ServeDirectory(canOpen);
  }

  /** End to end: `GET /file.unknownext HTTP/...` gets 415 and the file is never opened. */
  lemma UnknownExtensionRequest(version: string, rest: string, canOpen: bool)
    requires PlainToken(version)
    ensures Handle("GET /file.unknownext HTTP/" + version + "\r\n" + rest, canOpen)
         == Replied(".//file.unknownext", Unsupported, false)
  {
    assert "GET" + " " + "/file.unknownext" + Marker == "GET /file.unknownext HTTP/";
    assert ' ' !in "GET" && PlainToken("GET");
    PlainTargetByFirst("/file.unknownext");
    WellFormedRequest("GET", "/file.unknownext", version, rest, canOpen);
    ServeUnknownExtension(canOpen);
  }

  /** End to end: `GET a.txt HTTP/...` opens `./a.txt`. */
  lemma RelativeTargetRequest(version: string, rest: string, canOpen: bool)
    requires PlainToken(version)
    ensures Handle("GET a.txt HTTP/" + version + "\r\n" + rest, canOpen)
         == Replied("./a.txt", if canOpen then Ok("text/plain") else NotFound, true)
  {
    assert "GET" + " " + "a.txt" + Marker == "GET a.txt HTTP/";
    assert ' ' !in "GET" && PlainToken("GET");
    PlainTargetByFirst("a.txt");
    WellFormedRequest("GET", "a.txt", version, rest, canOpen);
    ServeRelativeTarget(canOpen);
  }

  /** End to end: an empty target is undefined behaviour. */
  lemma EmptyTargetRequest(version: string, rest: string, canOpen: bool)
    requires PlainToken(version)
    ensures Handle("GET  HTTP/" + version + "\r\n" + rest, canOpen) == Undefined(EmptyTarget)
  {
    assert "GET" + " " + "" + Marker == "GET  HTTP/";
    assert ' ' !in "GET" && PlainToken("GET");
    PlainTargetByFirst("");
    WellFormedRequest("GET", "", version, rest, canOpen);
  }

  /** End to end: a POST is an unknown request type and gets no reply. */
  lemma PostRequest(target: string, version: string, rest: string, canOpen: bool)
    requires PlainTarget(target) && PlainToken(version)
    ensures Handle("POST " + target + Marker + version + "\r\n" + rest, canOpen) == UnknownRequestType
  {
    assert "POST" + " " == "POST ";
    assert ' ' !in "POST" && PlainToken("POST");
    WellFormedRequest("POST", target, version, rest, canOpen);
  }

  /** A line ended by a bare `\n` is never complete; when the client closes, the buffer is unterminated. */
  lemma BareLineFeedRequest(canOpen: bool)
    ensures Handle("GET /a.txt HTTP/1.1\n", canOpen) == Undefined(UnterminatedRequest)
  {
    var input := "GET /a.txt HTTP/1.1\n";
    assert '\r' !in input && '\0' !in input;
  }
}
