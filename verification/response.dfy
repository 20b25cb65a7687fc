/**
 * The three replies the server can send and the table scan in `connection`
 * that picks one of them, including its `i == size - 2` sentinel for 415.
 */
module Response {
  import opened Wrappers
  import opened CStrings
  import opened MediaTypes

  /** The reply chosen for an accepted GET. */
  datatype Reply =
    | Ok(mediaType: string)   // 200; the media type is only logged, never sent
    | NotFound                // 404: an entry matched but `open` failed
    | Unsupported             // 415: no entry matched; nothing was opened

  /** The status code of a reply. */
  function Code(r: Reply): (code: int) {
    match r
    case Ok(_) => 200
    case NotFound => 404
    case Unsupported => 415
  }

  /** The status line for a three-digit code and its reason phrase. */
  function StatusLine(digits: string, reason: string): (line: string) {
    "HTTP/1.1 " + digits + " " + reason + "\r\n"
  }

  /** The status line of a reply, which a client reads back as the reply's code. */
  function StatusLineOf(r: Reply): (line: string)
    ensures ParseStatusCode(line) == Some(Code(r))
  {
    match r
    case Ok(_) =>
      StatusLineParses("200", "OK");
      StatusLine("200", "OK")
    case NotFound =>
      StatusLineParses("404", "Not Found");
      StatusLine("404", "Not Found")
    case Unsupported =>
      StatusLineParses("415", "Unsupported media");
      StatusLine("415", "Unsupported media")
  }

  /**
   * The strings handed to `send_msg`, in order. For 200 only the status line
   * and header are sent this way; the file follows through `sendfile`. A
   * client reads the reply's code back from the first string, and the second
   * is the `Server` header that ends the header block.
   */
  function Messages(r: Reply): (m: seq<string>)
    ensures |m| == if r.Ok? then 2 else 4
    ensures ParseStatusCode(m[0]) == Some(Code(r))
    ensures m[1] == if r.Ok? then "Server: c-web\r\n\r\n" else "Server : c-web\r\n\r\n"
  {
    match r
    case Ok(_) => [StatusLineOf(r), "Server: c-web\r\n\r\n"]
    case NotFound => [
      StatusLineOf(r),
      "Server : c-web\r\n\r\n",
      "<html><head><title>404 Error</title></head>",
      "<body><p>404 Not found: The requested resource could not be located!</p></body></html>"
    ]
    case Unsupported => [
      StatusLineOf(r),
      "Server : c-web\r\n\r\n",
      "<html><head><title>415 Unsupported media</title></head>",
      "<body><p>415 Unsupported media type</p></body></html>"
    ]
  }

  /** What a 200 sends through `send_msg`, byte for byte. */
  lemma OkTexts(mediaType: string)
    ensures Messages(Ok(mediaType)) == ["HTTP/1.1 200 OK\r\n", "Server: c-web\r\n\r\n"]
  {
    assert StatusLine("200", "OK") == "HTTP/1.1 200 OK\r\n";
  }

  /** What a 404 sends, byte for byte. */
  lemma NotFoundTexts()
    ensures Messages(NotFound) == [
      "HTTP/1.1 404 Not Found\r\n",
      "Server : c-web\r\n\r\n",
      "<html><head><title>404 Error</title></head>",
      "<body><p>404 Not found: The requested resource could not be located!</p></body></html>"
    ]
  {
    assert StatusLine("404", "Not Found") == "HTTP/1.1 404 Not Found\r\n";
  }

  /** What a 415 sends, byte for byte. */
  lemma UnsupportedTexts()
    ensures Messages(Unsupported) == [
      "HTTP/1.1 415 Unsupported media\r\n",
      "Server : c-web\r\n\r\n",
      "<html><head><title>415 Unsupported media</title></head>",
      "<body><p>415 Unsupported media type</p></body></html>"
    ]
  {
    assert StatusLine("415", "Unsupported media") == "HTTP/1.1 415 Unsupported media\r\n";
  }

  /** The value of a decimal digit. */
  function DigitValue(c: char): (v: int)
    requires '0' <= c <= '9'
  {
    c as int - '0' as int
  }

  /** A client's reading of a status line: "HTTP/1.1 ", three digits, a space. */
  function ParseStatusCode(line: string): (code: Option<int>)
  {
    if StartsWith(line, "HTTP/1.1 ") && |line| >= 13 && line[12] == ' '
       && '0' <= line[9] <= '9' && '0' <= line[10] <= '9' && '0' <= line[11] <= '9'
    then Some(CodeValue(line[9..12]))
    else None
  }

  /** The three-digit code `digits` as a number. */
  function CodeValue(digits: string): (v: int)
    requires |digits| == 3 && forall i :: 0 <= i < 3 ==> '0' <= digits[i] <= '9'
  {
    100 * DigitValue(digits[0]) + 10 * DigitValue(digits[1]) + DigitValue(digits[2])
  }

  /** A status line is read back as its three digits. */
  lemma StatusLineParses(digits: string, reason: string)
    requires |digits| == 3 && forall i :: 0 <= i < 3 ==> '0' <= digits[i] <= '9'
    ensures ParseStatusCode(StatusLine(digits, reason)) == Some(CodeValue(digits))
  {
    var line := StatusLine(digits, reason);
    assert line[..9] == "HTTP/1.1 ";
    assert line[9..12] == digits && line[12] == ' ';
  }

  /** The media type of a 200 never reaches the client: all 200 replies send the same text. */
  lemma OkTextIgnoresMediaType(m1: string, m2: string)
    ensures Messages(Ok(m1)) == Messages(Ok(m2))
  {
  }

  /** The reply for extension `ext`, where `canOpen` is whether `open` of the resource succeeds. */
  function ChooseReply(ext: string, canOpen: bool): (r: Reply)
    ensures r.Unsupported? <==> Unlisted(Extensions, ext)
    ensures r.NotFound? <==> !Unlisted(Extensions, ext) && !canOpen
    ensures r.Ok? ==> canOpen && MediaTypeOf(ext) == Some(r.mediaType)
  {
    match MediaTypeOf(ext)
    case None => Unsupported
    case Some(m) => if canOpen then Ok(m) else NotFound
  }

  /** Whether the scan reaches `open`: exactly when some row's extension matches. */
  function Opens(ext: string): (b: bool)
    ensures b <==> !Unlisted(Extensions, ext)
    ensures b <==> !ChooseReply(ext, false).Unsupported?
  {
    MediaTypeOf(ext).Some?
  }

  /** A listed extension gets its row's media type with 200 when the file opens, and 404 when it does not. */
  lemma {:induction false} ListedReply(i: nat, canOpen: bool)
    requires i < |Extensions|
    ensures ChooseReply(Extensions[i].ext, canOpen)
         == if canOpen then Ok(Extensions[i].mediaType) else NotFound
  {
    assert DistinctExtensions(Extensions);
    DistinctLookup(Extensions);
  }

  /**
   * The scan as written: compare `ext` with each row; on a match open the
   * file and send 200 or 404, then break; otherwise, when `i == size - 2`
   * (size counts the NULL row), send 415. Returns every reply sent and
   * whether `open` was called.
   */
  method SelectReply(ext: string, canOpen: bool) returns (sent: seq<Reply>, didOpen: bool)
    ensures sent == [ChooseReply(ext, canOpen)]
    ensures didOpen <==> !Unlisted(Extensions, ext)
    ensures didOpen <==> !sent[0].Unsupported?
  {
    var size := |Extensions| + 1;
    sent := [];
    didOpen := false;
    var i := 0;
    while i < |Extensions|
      invariant 0 <= i <= |Extensions|
      invariant Unlisted(Extensions[..i], ext)
      invariant sent == if i == size - 1 then [Unsupported] else []
      invariant !didOpen
    {
      if ext == Extensions[i].ext {
        LookupAt(Extensions, i, ext);
        didOpen := true;
        if canOpen {
          sent := sent + [Ok(Extensions[i].mediaType)];
        } else {
          sent := sent + [NotFound];
        }
        return;
      }
      if i == size - 2 {
        sent := sent + [Unsupported];
      }
      assert Extensions[..i + 1] == Extensions[..i] + [Extensions[i]];
      i := i + 1;
    }
    assert Extensions[..i] == Extensions;
  }
}
