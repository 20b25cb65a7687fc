/**
 * The whole of `connection` for one client: frame the request line, parse it,
 * resolve the target, classify its extension and pick the reply. The result
 * of `open` is a parameter, so the pipeline is a pure function of the bytes
 * the client sends.
 */
module Connection {
  import opened Wrappers
  import opened CStrings
  import opened Framing
  import opened RequestLine
  import opened Resource
  import opened MediaTypes
  import opened Response

  /** The inputs on which the C code has undefined behaviour. */
  datatype Undefinedness =
    | UnterminatedRequest   // EOF before CR LF and no NUL read: the buffer is never terminated
    | EmptyTarget           // "GET " then " HTTP/": `ptr[strlen(ptr) - 1]` indexes before the target
    | NoExtension           // no `.` in the target: `strchr` gives NULL and `s + 1` is evaluated

  /** How one connection ends. */
  datatype Outcome =
    | Undefined(why: Undefinedness)
    | NotAnHttpRequest                          // logged; nothing is sent
    | UnknownRequestType                        // logged; nothing is sent
    | Replied(resource: string, reply: Reply, opensFile: bool)   // exactly one of 200, 404, 415; whether `open` was called

  /**
   * The C string `connection` works on: the received line up to its first
   * NUL. After EOF the buffer is terminated only if a NUL byte was read.
   */
  function RequestText(r: Received): (text: Option<string>)
    ensures text.None? <==> r.Eof? && '\0' !in r.read
    ensures r.Line? ==> text == Some(CString(r.content))
    ensures r.Eof? && '\0' in r.read ==> text == Some(CString(r.read))
    ensures text.Some? ==> '\0' !in text.value
  {
    match r
    case Line(content) => Some(CString(content))
    case Eof(read) => if '\0' in read then Some(CString(read)) else None
  }

  /** Resolve, classify and reply to a GET for `target`. */
  function Serve(target: string, canOpen: bool): (o: Outcome)
    ensures |target| == 0 ==> o == Undefined(EmptyTarget)
    ensures o.Replied? <==> |target| > 0 && '.' in WithDefaultDocument(target)
    ensures |target| > 0 && '.' !in WithDefaultDocument(target) ==> o == Undefined(NoExtension)
    ensures o.Replied? ==> StartsWith(o.resource, Root) && o.resource[|Root|..] == WithDefaultDocument(target)
    ensures o.Replied? ==> o.reply == ChooseReply(Extension(WithDefaultDocument(target)).value, canOpen)
    ensures o.Replied? ==> (o.opensFile <==> !o.reply.Unsupported?)
    ensures o.Replied? ==>
      (o.reply.Unsupported? <==> Unlisted(Extensions, Extension(WithDefaultDocument(target)).value))
    ensures !o.Replied? ==> o.Undefined?
  {
    if |target| == 0 then Undefined(EmptyTarget)
    else
      match Extension(WithDefaultDocument(target))
      case None => Undefined(NoExtension)
      case Some(ext) => Replied(ResourcePath(target), ChooseReply(ext, canOpen), Opens(ext))
  }

  /** The outcome for a client that sends `input` and then closes. */
  function Handle(input: string, canOpen: bool): (o: Outcome)
    ensures o == Undefined(UnterminatedRequest) <==> NoLineEnd(input) && '\0' !in input
    ensures o.Replied? ==> StartsWith(o.resource, Root)
    ensures o.Replied? ==> Receive(input).Line? || '\0' in input
    ensures RequestText(Receive(input)).Some? ==>
      var p := Parse(RequestText(Receive(input)).value);
      && (o == NotAnHttpRequest <==> p.NotHttp?)
      && (o == UnknownRequestType <==> p.UnknownMethod?)
      && (p.Get? ==> o == Serve(p.target, canOpen))
  {
    match RequestText(Receive(input))
    case None => Undefined(UnterminatedRequest)
    case Some(request) =>
      match Parse(request)
      case NotHttp => NotAnHttpRequest
      case UnknownMethod => UnknownRequestType
      case Get(target) => Serve(target, canOpen)
  }

  /**
   * An accepted GET gets exactly one reply, and whether the file opens matters
   * only when a table entry matched: then the file is opened and the result
   * decides between 200 and 404. On a 415 the file is never opened.
   */
  lemma OpenMattersOnlyOnMatch(input: string)
    ensures var yes, no := Handle(input, true), Handle(input, false);
      yes.Replied? <==> no.Replied?
    ensures var yes, no := Handle(input, true), Handle(input, false);
      yes == no ||
      (yes.Replied? && no.Replied? && yes.resource == no.resource && yes.opensFile && no.opensFile
       && yes.reply.Ok? && no.reply == NotFound)
    ensures var yes := Handle(input, true);
      yes.Replied? && yes.reply.Unsupported? ==> !yes.opensFile && Handle(input, false) == yes
  {
  }

  /** `./` followed by a name with exactly one dot contains no `..`. */
  lemma NoParentStep(t: string, j: nat)
    requires j < |t| && t[j] == '.' && '.' !in t[..j] && '.' !in t[j + 1..]
    ensures forall k :: !OccursAt(Root + t, "..", k)
  {
    var path := Root + t;
    forall k | 0 <= k
      ensures !OccursAt(path, "..", k)
    {
      if k + 2 <= |path| {
        var w := path[k..k + 2];
        assert w[0] == path[k] && w[1] == path[k + 1];
        if k < 2 {
          assert path[1] == '/';
        } else if k - 2 < j {
          assert t[..j][k - 2] == t[k - 2] == path[k];
        } else if k - 2 == j {
          assert path[k + 1] == t[j + 1..][0];
        } else {
          assert path[k] == t[j + 1..][k - 3 - j];
        }
      }
    }
  }

  /**
   * A path that is opened never contains `..`, though the target is not
   * normalised: a matching extension has no dot, so the resolved target's
   * only dot is its first one.
   */
  lemma {:induction false} OpenedPathHasNoParent(target: string, canOpen: bool)
    ensures var o := Serve(target, canOpen);
      o.Replied? && o.opensFile ==> forall k :: !OccursAt(o.resource, "..", k)
  {
    if |target| > 0 {
      var t := WithDefaultDocument(target);
      match IndexOf(t, '.')
      case None =>
      case Some(j) =>
        var ext := t[j + 1..];
        assert Serve(target, canOpen) == Replied(Root + t, ChooseReply(ext, canOpen), Opens(ext));
        if Opens(ext) {
          ListedHasNoDot(ext);
          NoParentStep(t, j);
        }
    }
  }

  /**
   * A target `name.ext` with no dot in `name` and not ending in `/` is opened
   * as `./name.ext` and classified by all of `ext`, which may be empty.
   */
  lemma {:induction false} ServeNamedFile(name: string, ext: string, canOpen: bool)
    requires '.' !in name && (|ext| == 0 || ext[|ext| - 1] != '/')
    ensures Serve(name + "." + ext, canOpen) == Replied(Root + (name + "." + ext), ChooseReply(ext, canOpen), Opens(ext))
  {
    var t := name + "." + ext;
    if |ext| == 0 {
      assert t[|t| - 1] == '.';
    } else {
      assert t[|t| - 1] == ext[|ext| - 1];
    }
    ExtensionAfterFirstDot(name, ext);
  }

  /**
   * A directory target with no dot opens its default document and is
   * classified as `html`.
   */
  lemma {:induction false} ServeDirectoryTarget(dir: string, canOpen: bool)
    requires |dir| > 0 && dir[|dir| - 1] == '/' && '.' !in dir
    ensures Serve(dir, canOpen) == Replied(Root + dir + DefaultDocument, ChooseReply("html", canOpen), Opens("html"))
  {
    assert WithDefaultDocument(dir) == dir + DefaultDocument;
    assert dir + DefaultDocument == (dir + "index") + "." + "html";
    ExtensionAfterFirstDot(dir + "index", "html");
  }

  /**
   * A target with no space, CR or NUL that does not itself start with the
   * `HTTP/` of the marker (which would make the marker begin at its space).
   */
  predicate PlainTarget(t: string) {
    ' ' !in t && '\r' !in t && '\0' !in t && !StartsWith(t, Marker[1..])
  }

  /** A target with no space, CR or NUL whose first character is not `H` is plain. */
  lemma PlainTargetByFirst(t: string)
    requires ' ' !in t && '\r' !in t && '\0' !in t && (|t| == 0 || t[0] != 'H')
    ensures PlainTarget(t)
  {
    if |t| >= |Marker| - 1 {
      assert t[..|Marker| - 1][0] == t[0] != Marker[1..][0];
    }
  }

  /** A method or version text with no CR or NUL (a method has no space either). */
  predicate PlainToken(s: string) {
    '\r' !in s && '\0' !in s
  }

  /** The space before a plain target does not start the marker. */
  lemma NoMarkerAtSeparator(line: string, m: nat, target: string)
    requires PlainTarget(target) && m + 1 + |target| <= |line|
    requires line[m + 1..m + 1 + |target|] == target
    requires m + 1 + |target| < |line| ==> line[m + 1 + |target|] == ' '
    ensures !OccursAt(line, Marker, m)
  {
    if m + |Marker| <= |line| {
      var window := line[m..m + |Marker|];
      if |target| >= |Marker| - 1 {
        assert window[1..] == target[..|Marker| - 1] != Marker[1..];
      } else {
        assert window[1 + |target|] == ' ' != Marker[1 + |target|];
      }
    }
  }

  /** In `<method> <target> HTTP/<version>` the first " HTTP/" is the one after the target. */
  lemma MarkerAfterTarget(verb: string, target: string, version: string)
    requires ' ' !in verb && PlainTarget(target)
    ensures FirstOccurrence(verb + " " + target + Marker + version, Marker, |verb| + 1 + |target|)
  {
    var line := verb + " " + target + Marker + version;
    var m := |verb|;
    var k := m + 1 + |target|;
    assert line[k..k + |Marker|] == Marker;
    forall j | 0 <= j < k
      ensures !OccursAt(line, Marker, j)
    {
      if j + |Marker| <= |line| {
        assert line[j..j + |Marker|][0] == line[j] && line[j..j + |Marker|][1] == line[j + 1];
      }
      if j < m {
        assert line[j] == verb[j];
      } else if j == m {
        NoMarkerAtSeparator(line, m, target);
      } else {
        assert line[j] == target[j - m - 1];
      }
    }
  }

  /**
   * The line `<method> <target> HTTP/<version>` has no CR LF of its own, no
   * NUL, and parses as a GET of `target` exactly when the method is `GET`.
   */
  lemma {:induction false} ParseRequestLine(verb: string, target: string, version: string)
    requires ' ' !in verb && PlainToken(verb) && PlainTarget(target) && PlainToken(version)
    ensures var line := verb + " " + target + Marker + version;
      NoLineEnd(line + "\r") && '\0' !in line
      && Parse(line) == if verb == "GET" then Get(target) else UnknownMethod
  {
    var line := verb + " " + target + Marker + version;
    assert '\r' !in line && '\0' !in line;
    NoCarriageReturn(line);
    var m := |verb|;
    var k := m + 1 + |target|;
    MarkerAfterTarget(verb, target, version);
    ParseAt(line, k);
    assert line[..k] == verb + " " + target;
    GetTagIff(verb, target);
    if verb == "GET" {
      assert verb + " " + target == GetTag + target;
      assert (GetTag + target)[|GetTag|..] == target;
    }
  }
  /**
   * A request `<method> <target> HTTP/<version>\r\n` is served as its target
   * says when the method is GET, and is an unknown request type otherwise,
   * whatever the version text and whatever bytes follow the CR LF.
   */
  lemma {:induction false} WellFormedRequest(verb: string, target: string, version: string, rest: string, canOpen: bool)
    requires ' ' !in verb && PlainToken(verb) && PlainTarget(target) && PlainToken(version)
    ensures Handle(verb + " " + target + Marker + version + "\r\n" + rest, canOpen)
         == if verb == "GET" then Serve(target, canOpen) else UnknownRequestType
  {
    var line := verb + " " + target + Marker + version;
    ParseRequestLine(verb, target, version);
    StopsAtFirstLineEnd(line, rest);
    assert line + "\r\n" + rest == verb + " " + target + Marker + version + "\r\n" + rest;
  }

  /** A GET line with no " HTTP/" part is not an HTTP request and gets no reply. */
  lemma {:induction false} RequestWithoutVersion(target: string, rest: string, canOpen: bool)
    requires PlainTarget(target)
    ensures Handle(GetTag + target + "\r\n" + rest, canOpen) == NotAnHttpRequest
  {
    var line := GetTag + target;
    assert '\r' !in line && '\0' !in line;
    NoCarriageReturn(line);
    StopsAtFirstLineEnd(line, rest);
    forall j | 0 <= j
      ensures !OccursAt(line, Marker, j)
    {
      if j + |Marker| <= |line| {
        assert line[j..j + |Marker|][0] == line[j] && line[j..j + |Marker|][1] == line[j + 1];
        if j < 3 {
          assert line[j] == GetTag[j] != ' ';
        } else if j == 3 {
          NoMarkerAtSeparator(line, 3, target);
        } else {
          assert line[j] == target[j - 4] != ' ';
        }
      }
    }
  }
}
