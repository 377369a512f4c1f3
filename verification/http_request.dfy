/**
 code/http/httprequest.cpp: the line-by-line request parser over `Buffer`. The
 source's two regular expressions are written out as splits, each with a lemma that
 says which strings it matches and how.
 */
module HttpRequests {
  import opened Options
  import opened Buffers

  datatype ParseState = REQUEST_LINE | HEADERS | BODY | FINISH

  datatype Request = Request(state: ParseState, verb: string, path: string, version: string, body: string,
                             header: map<string, string>)

  /** What is left to other code in `ParsePost_`: the body that `ParseFromUrlencoded_`
      leaves, and the answer of `UserVerify`. */
  datatype Post = Post(decoded: string, verified: bool)

  /** What `parse` leaves: the request, the unread bytes and its result. */
  datatype Outcome = Outcome(request: Request, rest: string, ok: bool)

  const CRLF: string := "\r\n"
  const INIT: Request := Request(REQUEST_LINE, "", "", "", "", map[])
  const DEFAULT_HTML: set<string> := {"/index", "/register", "/login", "/welcome", "/video", "/picture"}

  /** What stands before and behind the first `c`. */
  function SplitAt(s: string, c: char): Option<(string, string)> {
    if s == "" then None
    else if s[0] == c then Some(("", s[1..]))
    else
      match SplitAt(s[1..], c)
      case None => None
      case Some((before, behind)) => Some(([s[0]] + before, behind))
  }

  /** Splitting undoes joining, and nothing else splits. */
  lemma {:induction false} SplitIff(s: string, c: char, before: string, behind: string)
    ensures SplitAt(s, c) == Some((before, behind)) <==> s == before + [c] + behind && c !in before
  {
    if s != "" && s[0] != c {
      if before != "" {
        SplitIff(s[1..], c, before[1..], behind);
        assert before == [before[0]] + before[1..];
        assert s == [s[0]] + s[1..];
        assert before + [c] + behind == [before[0]] + (before[1..] + [c] + behind);
      } else {
        assert (before + [c] + behind)[0] == c;
      }
    } else if s != "" && before != "" {
      assert before[0] in before && (before + [c] + behind)[0] == before[0];
    }
  }

  predicate CrlfAt(s: string, k: nat) {
    k + 2 <= |s| && s[k] == '\r' && s[k + 1] == '\n'
  }

  /** `search` for CRLF from `from` on: where the line ends; |s| when there is none. */
  function LineEnd(s: string, from: nat): (n: nat)
    requires from <= |s|
    ensures from <= n <= |s| && (n < |s| ==> CrlfAt(s, n)) && forall k :: from <= k < n ==> !CrlfAt(s, k)
    decreases |s| - from
  {
    if from == |s| || CrlfAt(s, from) then from else LineEnd(s, from + 1)
  }

  const HTTP: string := "HTTP/"

  /** `^([^ ]*) ([^ ]*) HTTP/([^ ]*)$` */
  function MatchRequestLine(line: string): Option<(string, string, string)> {
    match SplitAt(line, ' ')
    case None => None
    case Some((verb, behind)) =>
      match SplitAt(behind, ' ')
      case None => None
      case Some((path, last)) =>
        if HTTP <= last && ' ' !in last then Some((verb, path, last[|HTTP|..])) else None
  }

  function RequestLine(verb: string, path: string, version: string): string {
    verb + [' '] + (path + [' '] + (HTTP + version))
  }

  lemma RequestLineIs(verb: string, path: string, version: string)
    ensures RequestLine(verb, path, version) == verb + " " + path + " HTTP/" + version
  {
    assert verb + " " + path + " HTTP/" + version == verb + [' '] + (path + [' '] + ("HTTP/" + version));
  }

  /** The request line pattern matches exactly the lines made of three tokens. */
  lemma RequestLinePattern(line: string, verb: string, path: string, version: string)
    ensures MatchRequestLine(line) == Some((verb, path, version)) <==>
            line == RequestLine(verb, path, version) && ' ' !in verb && ' ' !in path && ' ' !in version
  {
    var last := HTTP + version;
    var behind := path + [' '] + last;
    SplitIff(line, ' ', verb, behind);
    SplitIff(behind, ' ', path, last);
    assert last[|HTTP|..] == version;
    if MatchRequestLine(line) == Some((verb, path, version)) {
      var behind' := SplitAt(line, ' ').value.1;
      var last' := SplitAt(behind', ' ').value.1;
      SplitIff(line, ' ', verb, behind');
      SplitIff(behind', ' ', path, last');
      assert last' == HTTP + last'[|HTTP|..];
    }
  }

  predicate OneLine(s: string) {
    '\r' !in s && '\n' !in s
  }

  /** `^([^:]*): ?(.*)$`, where `.` matches no line terminator. */
  function MatchHeader(line: string): Option<(string, string)> {
    match SplitAt(line, ':')
    case None => None
    case Some((name, behind)) =>
      var value := if behind != "" && behind[0] == ' ' then behind[1..] else behind;
      if OneLine(value) then Some((name, value)) else None
  }

  /** The header pattern matches exactly a name without colons, a colon, at most one
      space, which it takes when there is one, and the rest of one line. */
  lemma HeaderPattern(line: string, name: string, value: string)
    ensures MatchHeader(line) == Some((name, value)) <==>
            && ':' !in name && OneLine(value)
            && (line == name + [':'] + ([' '] + value)
                || (line == name + [':'] + value && (value == "" || value[0] != ' ')))
  {
    SplitIff(line, ':', name, [' '] + value);
    SplitIff(line, ':', name, value);
    if MatchHeader(line) == Some((name, value)) {
      var behind := SplitAt(line, ':').value.1;
      SplitIff(line, ':', name, behind);
      assert behind != "" && behind[0] == ' ' ==> behind == [' '] + behind[1..];
    }
  }

  /** `ParsePath_` */
  function MapPath(path: string): string {
    if path == "/" then "/index.html" else if path in DEFAULT_HTML then path + ".html" else path
  }

  /** The root is the index page, the six known pages are files of that name, and every
      other path stays as it is. */
  lemma MapPathIs(path: string)
    ensures path == "/" ==> MapPath(path) == "/index.html"
    ensures IsPage(path) ==> MapPath(path) == path + ".html"
    ensures path != "/" && !IsPage(path) ==> MapPath(path) == path
  {
  }

  predicate IsPage(path: string) {
    || path == "/index" || path == "/register" || path == "/login"
    || path == "/welcome" || path == "/video" || path == "/picture"
  }

  /** `ParseBody_` with `ParsePost_`. Looking up the content type of a POST enters an
      empty one where the request had none. */
  function WithBody(r: Request, line: string, post: Post): Request {
    var r' := r.(body := line, state := FINISH);
    if r.verb != "POST" then r'
    else if "Content-Type" !in r.header then r'.(header := r.header["Content-Type" := ""])
    else if r.header["Content-Type"] != "application/x-www-form-urlencoded" then r'
    else
      r'.(body := post.decoded,
          path := if r.path != "/register.html" && r.path != "/login.html" then r.path
                  else if post.verified then "/welcome.html" else "/error.html")
  }

  /** The body of a form is decoded, and on the login and register pages the answer to
      the user is the new path. Every other body is the line as it came, and nothing
      else changes but that a POST without a content type gets an empty one. */
  lemma WithBodyIs(r: Request, line: string, post: Post)
    ensures var r' := WithBody(r, line, post);
            var isForm := r.verb == "POST" && "Content-Type" in r.header
                          && r.header["Content-Type"] == "application/x-www-form-urlencoded";
            var asks := isForm && (r.path == "/login.html" || r.path == "/register.html");
            && r'.state == FINISH && r'.verb == r.verb && r'.version == r.version
            && (isForm ==> r'.body == post.decoded) && (!isForm ==> r'.body == line)
            && (asks && post.verified ==> r'.path == "/welcome.html")
            && (asks && !post.verified ==> r'.path == "/error.html")
            && (!asks ==> r'.path == r.path)
            && (if r.verb == "POST" && "Content-Type" !in r.header then r'.header == r.header["Content-Type" := ""]
                else r'.header == r.header)
  {
  }

  /** One turn of the loop of `parse`: `readable` counts the unread bytes, this line's
      among them. None is the failing return. */
  function ParseLine(r: Request, line: string, readable: nat, post: Post): Option<Request> {
    match r.state
    case REQUEST_LINE =>
      (match MatchRequestLine(line)
       case None => None
       case Some((verb, path, version)) =>
         Some(r.(verb := verb, path := MapPath(path), version := version, state := HEADERS)))
    case HEADERS =>
      var r' := match MatchHeader(line)
                case None => r.(state := BODY)
                case Some((name, value)) => r.(header := r.header[name := value]);
      Some(if readable <= 2 then r'.(state := FINISH) else r')
    case BODY => Some(WithBody(r, line, post))
    case FINISH => Some(r)
  }

  /** The loop of `parse` on the unread bytes `s`. A line without CRLF is parsed and
      left unread. */
  function Parsed(r: Request, s: string, post: Post): Outcome
    decreases |s|
  {
    if s == "" || r.state == FINISH then Outcome(r, s, true)
    else
      var n := LineEnd(s, 0);
      match ParseLine(r, s[..n], |s|, post)
      case None => Outcome(r, s, false)
      case Some(r') => if n == |s| then Outcome(r', s, true) else Parsed(r', s[n + 2..], post)
  }

  lemma ParsedTurn(r: Request, s: string, post: Post, n: nat, next: Option<Request>)
    requires s != "" && r.state != FINISH && n == LineEnd(s, 0) && next == ParseLine(r, s[..n], |s|, post)
    ensures Parsed(r, s, post) == match next
                                  case None => Outcome(r, s, false)
                                  case Some(r') => if n == |s| then Outcome(r', s, true)
                                                   else Parsed(r', s[n + 2..], post)
  {
  }

  class HttpRequest {
    var state: ParseState
    var verb: string
    var path: string
    var version: string
    var body: string
    var header: map<string, string>

    function View(): Request
      reads this
    {
      Request(state, verb, path, version, body, header)
    }

    constructor ()
      ensures View() == INIT == Request(REQUEST_LINE, "", "", "", "", map[])
    {
      state, verb, path, version, body, header := REQUEST_LINE, "", "", "", "", map[];
    }

    method Init()
      modifies this
      ensures View() == INIT == Request(REQUEST_LINE, "", "", "", "", map[])
    {
      verb, path, version, body := "", "", "", "";
      state := REQUEST_LINE;
      header := map[];
    }

    method ParseRequestLine(line: string) returns (ok: bool)
      modifies this
      ensures ok <==> MatchRequestLine(line).Some?
      ensures !ok ==> View() == old(View())
      ensures ok ==> var (v, p, n) := MatchRequestLine(line).value;
                     View() == old(View()).(verb := v, path := p, version := n, state := HEADERS)
    {
      var subMatch := MatchRequestLine(line);
      ok := subMatch.Some?;
      if ok {
        verb, path, version := subMatch.value.0, subMatch.value.1, subMatch.value.2;
        state := HEADERS;
      }
    }

    method ParsePath()
      modifies this`path
      ensures path == MapPath(old(path))
    {
      if path == "/" {
        path := "/index.html";
      } else if path in DEFAULT_HTML {
        path := path + ".html";
      }
    }

    method ParseHeader(line: string)
      modifies this`state, this`header
      ensures View() == match MatchHeader(line)
                        case None => old(View()).(state := BODY)
                        case Some((name, value)) => old(View()).(header := old(header)[name := value])
    {
      var subMatch := MatchHeader(line);
      if subMatch.Some? {
        header := header[subMatch.value.0 := subMatch.value.1];
      } else {
        state := BODY;
      }
    }

    method ParseBody(line: string, post: Post)
      modifies this
      ensures View() == WithBody(old(View()), line, post)
    {
      body := line;
      ParsePost(post);
      state := FINISH;
    }

    method ParsePost(post: Post)
      modifies this
      ensures View() == WithBody(old(View()), old(body), post).(state := old(state))
    {
      if verb == "POST" {
        if "Content-Type" !in header {
          header := header["Content-Type" := ""];
        }
        if header["Content-Type"] == "application/x-www-form-urlencoded" {
          body := post.decoded;
          if path == "/register.html" || path == "/login.html" {
            path := if post.verified then "/welcome.html" else "/error.html";
          }
        }
      }
    }

    /** One turn of the loop, up to the move past the line. */
    method ParseOne(line: string, readable: nat, post: Post) returns (ok: bool)
      modifies this
      ensures var next := ParseLine(old(View()), line, readable, post);
              ok == next.Some? && View() == if ok then next.value else old(View())
    {
      ok := true;
      match state {
        case REQUEST_LINE =>
          ok := ParseRequestLine(line);
          if ok {
            ParsePath();
          }
        case HEADERS =>
          ParseHeader(line);
          if readable <= 2 {
            state := FINISH;
          }
        case BODY =>
          ParseBody(line, post);
        case FINISH =>
      }
    }

    /** One turn of the loop, with the move past the line: it goes on towards the same
        goal, or has reached it. */
    method ParseTurn(buff: Buffer, post: Post, ghost goal: Outcome) returns (goesOn: bool, ok: bool)
      requires buff.Valid() && buff.ReadableBytes() > 0 && state != FINISH
      requires Parsed(View(), buff.Contents(), post) == goal
      modifies this, buff`readPos
      ensures buff.Valid() && buff.buffer == old(buff.buffer)
      ensures goesOn ==> Parsed(View(), buff.Contents(), post) == goal && buff.ReadableBytes() < old(buff.ReadableBytes())
      ensures !goesOn ==> Outcome(View(), buff.Contents(), ok) == goal
    {
      var unread := buff.Contents();
      var lineEnd := LineEnd(unread, 0);
      ghost var next := ParseLine(View(), unread[..lineEnd], |unread|, post);
      ParsedTurn(View(), unread, post, lineEnd, next);
      ok := ParseOne(unread[..lineEnd], buff.ReadableBytes(), post);
      if !ok || lineEnd == buff.ReadableBytes() {
        return false, ok;
      }
      buff.RetrieveUntil(buff.readPos + lineEnd + 2);
      return true, ok;
    }

    method Parse(buff: Buffer, post: Post) returns (ok: bool)
      requires buff.Valid()
      modifies this, buff`readPos
      ensures buff.Valid() && buff.buffer == old(buff.buffer)
      ensures ok <==> old(buff.Contents()) != "" && Parsed(old(View()), old(buff.Contents()), post).ok
      ensures Outcome(View(), buff.Contents(), ok || old(buff.Contents()) == "")
              == Parsed(old(View()), old(buff.Contents()), post)
    {
      if buff.ReadableBytes() <= 0 {
        return false;
      }
      ghost var goal := Parsed(View(), buff.Contents(), post);
      while buff.ReadableBytes() > 0 && state != FINISH
        invariant buff.Valid() && buff.buffer == old(buff.buffer)
        invariant Parsed(View(), buff.Contents(), post) == goal
        decreases buff.ReadableBytes()
      {
        var goesOn;
        goesOn, ok := ParseTurn(buff, post, goal);
        if !goesOn {
          return;
        }
      }
      return true;
    }
  }

  // ---------- printing and parsing ----------

  datatype Field = Field(name: string, value: string)

  function PrintField(f: Field): string {
    f.name + [':'] + ([' '] + f.value)
  }

  function PrintFields(fields: seq<Field>): string {
    if fields == [] then "" else PrintField(fields[0]) + CRLF + PrintFields(fields[1..])
  }

  /** A request as a client sends it, followed by `more`. */
  function Print(verb: string, path: string, version: string, fields: seq<Field>, more: string): string {
    RequestLine(verb, path, version) + CRLF + (PrintFields(fields) + (CRLF + more))
  }

  /** A printed request, character by character. */
  lemma PrintIs(verb: string, path: string, version: string, f: Field, more: string)
    ensures Print(verb, path, version, [f], more)
            == verb + " " + path + " HTTP/" + version + "\r\n" + f.name + ": " + f.value + "\r\n\r\n" + more
  {
    RequestLineIs(verb, path, version);
    assert [f][1..] == [];
    assert PrintFields([f]) == f.name + ": " + f.value + "\r\n";
    var line, field := RequestLine(verb, path, version), f.name + ": " + f.value;
    assert line + "\r\n" + ((field + "\r\n") + ("\r\n" + more)) == line + "\r\n" + field + "\r\n\r\n" + more;
  }

  /** The header map after `fields`; the last of equal names counts. */
  function Entered(header: map<string, string>, fields: seq<Field>): map<string, string>
    decreases |fields|
  {
    if fields == [] then header else Entered(header[fields[0].name := fields[0].value], fields[1..])
  }

  predicate Token(s: string) {
    OneLine(s) && ' ' !in s
  }

  predicate Printable(fields: seq<Field>) {
    forall f :: f in fields ==> OneLine(f.name) && ':' !in f.name && OneLine(f.value)
  }

  lemma FirstLine(line: string, more: string)
    requires '\r' !in line
    ensures var s := line + CRLF + more;
            LineEnd(s, 0) == |line| && s[..|line|] == line && s[|line| + 2..] == more
  {
    var s := line + CRLF + more;
    var n := LineEnd(s, 0);
    assert CrlfAt(s, |line|);
    assert forall k :: 0 <= k < |line| ==> s[k] == line[k];
  }

  /** Reading on past one well-formed header line. */
  lemma FieldParsed(r: Request, f: Field, more: string, post: Post)
    requires r.state == HEADERS && Printable([f])
    ensures Parsed(r, PrintField(f) + CRLF + more, post) == Parsed(r.(header := r.header[f.name := f.value]), more, post)
  {
    assert f in [f];
    FirstLine(PrintField(f), more);
    HeaderPattern(PrintField(f), f.name, f.value);
  }

  lemma {:induction false} FieldsParsed(r: Request, fields: seq<Field>, more: string, post: Post)
    requires r.state == HEADERS && Printable(fields)
    ensures Parsed(r, PrintFields(fields) + more, post) == Parsed(r.(header := Entered(r.header, fields)), more, post)
    decreases |fields|
  {
    if fields == [] {
      assert PrintFields(fields) + more == more;
    } else {
      var f, later := fields[0], fields[1..];
      var behind := PrintFields(later) + more;
      assert PrintFields(fields) + more == PrintField(f) + CRLF + behind;
      assert Printable([f]);
      FieldParsed(r, f, behind, post);
      FieldsParsed(r.(header := r.header[f.name := f.value]), later, more, post);
    }
  }

  /** The blank line ends the request when nothing follows it; what follows it is
      taken for a body of one line. */
  lemma BlankLineParsed(r: Request, more: string, post: Post)
    requires r.state == HEADERS
    ensures Parsed(r, CRLF + more, post) == if more == "" then Outcome(r.(state := FINISH), "", true)
                                            else Parsed(r.(state := BODY), more, post)
  {
  }

  lemma RequestLineParsed(verb: string, path: string, version: string, more: string, post: Post)
    requires Token(verb) && Token(path) && Token(version)
    ensures Parsed(INIT, RequestLine(verb, path, version) + CRLF + more, post)
            == Parsed(Request(HEADERS, verb, MapPath(path), version, "", map[]), more, post)
  {
    var line := RequestLine(verb, path, version);
    assert '\r' !in line;
    FirstLine(line, more);
    RequestLinePattern(line, verb, path, version);
  }

  /** Parsing a printed request without a body ends in FINISH with everything read:
      the tokens, the path as `ParsePath_` maps it, and every header. */
  lemma RequestRoundTrip(verb: string, path: string, version: string, fields: seq<Field>, post: Post)
    requires Token(verb) && Token(path) && Token(version) && Printable(fields)
    ensures Parsed(INIT, Print(verb, path, version, fields, ""), post)
            == Outcome(Request(FINISH, verb, MapPath(path), version, "", Entered(map[], fields)), "", true)
  {
    var r := Request(HEADERS, verb, MapPath(path), version, "", map[]);
    RequestLineParsed(verb, path, version, PrintFields(fields) + (CRLF + ""), post);
    FieldsParsed(r, fields, CRLF + "", post);
    BlankLineParsed(r.(header := Entered(map[], fields)), "", post);
  }

  /** The parser on a buffer that `text` has arrived in. */
  method ParseText(text: string, initBuffSize: nat, post: Post) returns (ok: bool, request: Request, rest: string)
    ensures Outcome(request, rest, ok || text == "") == Parsed(INIT, text, post)
  {
    var buff := new Buffer(initBuffSize);
    buff.Append(text);
    assert buff.Contents() == text;
    var httpRequest := new HttpRequest();
    ok := httpRequest.Parse(buff, post);
    request, rest := httpRequest.View(), buff.Contents();
  }

  /** So a printed request that has arrived in a buffer is parsed with success, and
      nothing of it is left there. */
  method ParsePrinted(verb: string, path: string, version: string, fields: seq<Field>, initBuffSize: nat, post: Post)
    returns (ok: bool, request: Request, rest: string)
    requires Token(verb) && Token(path) && Token(version) && Printable(fields)
    ensures ok && rest == ""
    ensures request == Request(FINISH, verb, request.path, version, "", Entered(map[], fields))
    ensures path == "/" ==> request.path == "/index.html"
    ensures IsPage(path) ==> request.path == path + ".html"
    ensures path != "/" && !IsPage(path) ==> request.path == path
  {
    RequestRoundTrip(verb, path, version, fields, post);
    MapPathIs(path);
    var text := Print(verb, path, version, fields, "");
    assert text != "";
    ok, request, rest := ParseText(text, initBuffSize, post);
  }

  /** With bytes behind the blank line, whatever the request says of its body, their
      first line becomes the body. It leaves the buffer only if it ends with CRLF. */
  lemma BodyRoundTrip(verb: string, path: string, version: string, fields: seq<Field>, more: string, post: Post)
    requires Token(verb) && Token(path) && Token(version) && Printable(fields) && more != ""
    ensures var n := LineEnd(more, 0);
            Parsed(INIT, Print(verb, path, version, fields, more), post)
            == Outcome(WithBody(Request(BODY, verb, MapPath(path), version, "", Entered(map[], fields)),
                                more[..n], post),
                       if n == |more| then more else more[n + 2..], true)
  {
    var r := Request(HEADERS, verb, MapPath(path), version, "", map[]);
    RequestLineParsed(verb, path, version, PrintFields(fields) + (CRLF + more), post);
    FieldsParsed(r, fields, CRLF + more, post);
    BlankLineParsed(r.(header := Entered(map[], fields)), more, post);
  }

  /** So a parsed body is consumed exactly when one CRLF ends it and nothing follows. */
  lemma BodyConsumedIff(verb: string, path: string, version: string, fields: seq<Field>, more: string, post: Post)
    requires Token(verb) && Token(path) && Token(version) && Printable(fields) && more != ""
    ensures Parsed(INIT, Print(verb, path, version, fields, more), post).rest == "" <==> LineEnd(more, 0) == |more| - 2
  {
    BodyRoundTrip(verb, path, version, fields, more, post);
  }

  /** Past the request line nothing fails. */
  lemma {:induction false} OnlyFirstLineFails(r: Request, s: string, post: Post)
    requires r.state != REQUEST_LINE
    ensures Parsed(r, s, post).ok
    decreases |s|
  {
    if s != "" && r.state != FINISH {
      var n := LineEnd(s, 0);
      var r' := ParseLine(r, s[..n], |s|, post).value;
      if n < |s| {
        OnlyFirstLineFails(r', s[n + 2..], post);
      }
    }
  }

  /** `parse` succeeds exactly when the first line is a request line, whether the rest
      is there or not. */
  lemma ParseOkIff(s: string, post: Post)
    ensures Parsed(INIT, s, post).ok <==> s == "" || MatchRequestLine(s[..LineEnd(s, 0)]).Some?
  {
    if s != "" {
      var n := LineEnd(s, 0);
      match ParseLine(INIT, s[..n], |s|, post)
      case None =>
      case Some(r') => if n < |s| { OnlyFirstLineFails(r', s[n + 2..], post); }
    }
  }

  /** A request whose blank line has not arrived is parsed with success, and consumed,
      in a state that is not FINISH. */
  lemma UnfinishedParsed(verb: string, path: string, version: string, fields: seq<Field>, post: Post)
    requires Token(verb) && Token(path) && Token(version) && Printable(fields)
    ensures Parsed(INIT, RequestLine(verb, path, version) + CRLF + PrintFields(fields), post)
            == Outcome(Request(HEADERS, verb, MapPath(path), version, "", Entered(map[], fields)), "", true)
  {
    RequestLineParsed(verb, path, version, PrintFields(fields), post);
    FieldsParsed(Request(HEADERS, verb, MapPath(path), version, "", map[]), fields, "", post);
    assert PrintFields(fields) + "" == PrintFields(fields);
  }

  /** A header is found under its name, unless a later one has the same. */
  lemma {:induction false} FieldsFound(header: map<string, string>, fields: seq<Field>, i: nat)
    requires i < |fields| && forall k :: i < k < |fields| ==> fields[k].name != fields[i].name
    ensures fields[i].name in Entered(header, fields)
    ensures Entered(header, fields)[fields[i].name] == fields[i].value
    decreases |fields|
  {
    var header' := header[fields[0].name := fields[0].value];
    if i == 0 {
      OthersKept(header', fields[1..], fields[0].name);
    } else {
      FieldsFound(header', fields[1..], i - 1);
    }
  }

  lemma {:induction false} OthersKept(header: map<string, string>, fields: seq<Field>, name: string)
    requires name in header && forall k :: 0 <= k < |fields| ==> fields[k].name != name
    ensures name in Entered(header, fields) && Entered(header, fields)[name] == header[name]
    decreases |fields|
  {
    if fields != [] {
      OthersKept(header[fields[0].name := fields[0].value], fields[1..], name);
    }
  }
}
