/**
 * NetworkServer::_ParseHTTP and NetworkServer::_MakeWebSocketResponse: scanning the request
 * of a client that has not upgraded yet, and deciding between the WebSocket handshake
 * (section 4.2.2 of RFC 6455) and static file serving.
 */
module Http {
  import opened Bytes

  // ---- String helpers standing in for BString ----

  /** BString::FindFirst(char, from): the first index at or after from holding c, or -1. */
  function IndexOf(s: string, c: char, from: nat): (k: int)
    ensures k == -1 || from <= k < |s|
    ensures k == -1 ==> forall j :: from <= j < |s| ==> s[j] != c
    ensures k >= 0 ==> s[k] == c && forall j :: from <= j < k ==> s[j] != c
    decreases |s| - from
  {
    if from >= |s| then -1 else if s[from] == c then from else IndexOf(s, c, from + 1)
  }

  predicate StartsWith(s: string, p: string)
  {
    |p| <= |s| && s[..|p|] == p
  }

  predicate EndsWith(s: string, p: string)
  {
    |p| <= |s| && s[|s| - |p|..] == p
  }

  predicate Contains(s: string, p: string)
  {
    exists i :: 0 <= i <= |s| && StartsWith(s[i..], p)
  }

  /** BString::RemoveAll("\r"): every other character is kept, each as often as in s. */
  function RemoveCR(s: string): (r: string)
    ensures '\r' !in r && |r| <= |s|
    ensures multiset(r) == multiset(s)[('\r') := 0]
  {
    if s == [] then []
    else
      assert s == [s[0]] + s[1..];
      (if s[0] == '\r' then [] else [s[0]]) + RemoveCR(s[1..])
  }

  /** A line without carriage returns is kept as it is. */
  lemma {:induction false} RemoveCRKeeps(s: string)
    requires '\r' !in s
    ensures RemoveCR(s) == s
  {
    if s != [] {
      assert s[0] in s;
      assert forall c :: c in s[1..] ==> c in s;
      RemoveCRKeeps(s[1..]);
    }
  }

  /** Removal works piece by piece, so the kept characters stay in their order. */
  lemma {:induction false} RemoveCRAppend(a: string, b: string)
    ensures RemoveCR(a + b) == RemoveCR(a) + RemoveCR(b)
  {
    if a == [] {
      assert a + b == b;
    } else {
      assert (a + b)[0] == a[0] && (a + b)[1..] == a[1..] + b;
      RemoveCRAppend(a[1..], b);
      var h: string := if a[0] == '\r' then [] else [a[0]];
      SeqAssoc(h, RemoveCR(a[1..]), RemoveCR(b));
    }
  }

  function LowerChar(c: char): char
  {
    if 'A' <= c <= 'Z' then (c as int + 32) as char else c
  }

  /** BString::ToLower: ASCII upper case letters to lower case, everything else kept. */
  function ToLower(s: string): (r: string)
    ensures |r| == |s| && forall i :: 0 <= i < |s| ==> r[i] == LowerChar(s[i])
  {
    seq(|s|, i requires 0 <= i < |s| => LowerChar(s[i]))
  }

  /** The characters isspace() accepts. */
  predicate IsSpace(c: char)
  {
    c == ' ' || c == '\t' || c == '\n' || c == 11 as char || c == 12 as char || c == '\r'
  }

  function TrimLeft(s: string): (r: string)
    ensures |r| <= |s| && r == s[|s| - |r|..]
    ensures forall i :: 0 <= i < |s| - |r| ==> IsSpace(s[i])
    ensures r == [] || !IsSpace(r[0])
  {
    if s != [] && IsSpace(s[0]) then TrimLeft(s[1..]) else s
  }

  function TrimRight(s: string): (r: string)
    ensures |r| <= |s| && r == s[..|r|]
    ensures forall i :: |r| <= i < |s| ==> IsSpace(s[i])
    ensures r == [] || !IsSpace(r[|r| - 1])
  {
    if s != [] && IsSpace(s[|s| - 1]) then TrimRight(s[..|s| - 1]) else s
  }

  /** BString::Trim: white space removed from both ends. */
  function Trim(s: string): string
  {
    TrimRight(TrimLeft(s))
  }

  // ---- Splitting the request into lines ----

  /**
   * The lines of the request as the scan loop sees them: every piece that ends in '\n',
   * without the '\n' and with every '\r' removed. Text after the last '\n' is not a line.
   */
  function Lines(request: string): seq<string>
    decreases |request|
  {
    var k := IndexOf(request, '\n', 0);
    if k < 0 then [] else [RemoveCR(request[..k])] + Lines(request[k + 1..])
  }

  /** Scanning from position from finds the same '\n' as scanning the suffix from 0. */
  lemma {:induction false} IndexOfSuffix(s: string, c: char, from: nat)
    requires from <= |s|
    ensures var k := IndexOf(s[from..], c, 0);
      IndexOf(s, c, from) == (if k < 0 then -1 else k + from)
  {
    var k := IndexOf(s[from..], c, 0);
    var k2 := IndexOf(s, c, from);
    if k2 >= 0 {
      assert s[from..][k2 - from] == c;
    }
    if k >= 0 {
      assert s[k + from] == c;
    }
  }

  /** Where the next '\n' from pos is found, the lines from pos are that line and the lines after it. */
  lemma LinesFrom(request: string, pos: nat, e: int)
    requires pos <= |request| && e == IndexOf(request, '\n', pos)
    ensures e < 0 ==> Lines(request[pos..]) == []
    ensures e >= 0 ==> Lines(request[pos..]) == [RemoveCR(request[pos..e])] + Lines(request[e + 1..])
  {
    IndexOfSuffix(request, '\n', pos);
    var t := request[pos..];
    var k := IndexOf(t, '\n', 0);
    assert Lines(t) == if k < 0 then [] else [RemoveCR(t[..k])] + Lines(t[k + 1..]);
    if e >= 0 {
      assert t[..e - pos] == request[pos..e];
      assert t[e - pos + 1..] == request[e + 1..];
    }
  }

  /** One more line taken from the front of the unscanned text. */
  lemma LinesAdvance(request: string, pos: nat, e: int, done: seq<string>)
    requires pos <= |request| && e == IndexOf(request, '\n', pos) && e >= 0
    requires Lines(request) == done + Lines(request[pos..])
    ensures Lines(request) == (done + [RemoveCR(request[pos..e])]) + Lines(request[e + 1..])
  {
    LinesFrom(request, pos, e);
    SeqAssoc(done, [RemoveCR(request[pos..e])], Lines(request[e + 1..]));
  }

  /** Before the first line nothing has been taken. */
  lemma LinesStart(request: string)
    ensures Lines(request) == [] + Lines(request[0..])
  {
    assert request[0..] == request;
  }

  /** With no '\n' left, the lines taken so far are all the lines. */
  lemma LinesDone(request: string, pos: nat, done: seq<string>)
    requires pos <= |request| && IndexOf(request, '\n', pos) < 0
    requires Lines(request) == done + Lines(request[pos..])
    ensures Lines(request) == done
  {
    LinesFrom(request, pos, IndexOf(request, '\n', pos));
    assert done + [] == done;
  }

  // ---- The scan ----

  /** What the scan loop collects: the request path, the upgrade flag and the key. */
  datatype Scan = Scan(path: string, isUpgrade: bool, wsKey: string)

  /**
   * The path of a request line: the text between its first two spaces when the line starts
   * with "GET" and has two spaces; otherwise nothing.
   */
  function RequestPath(line: string): Option<string>
  {
    if !StartsWith(line, "GET") then None
    else
      var first := IndexOf(line, ' ', 0);
      if first < 0 then None
      else
        var second := IndexOf(line, ' ', first + 1);
        if second < 0 then None else Some(line[first + 1..second])
  }

  /** A header line that, in lower case, starts with "upgrade:" and mentions "websocket". */
  predicate IsUpgradeHeader(line: string)
  {
    StartsWith(ToLower(line), "upgrade:") && Contains(ToLower(line), "websocket")
  }

  /** A header line that, in lower case, starts with "sec-websocket-key:". */
  predicate IsKeyHeader(line: string)
  {
    StartsWith(ToLower(line), "sec-websocket-key:")
  }

  /** A Sec-WebSocket-Key line has its first ':' where the header name ends. */
  lemma KeyHeaderColon(line: string)
    requires IsKeyHeader(line)
    ensures IndexOf(line, ':', 0) >= 0
  {
    assert ToLower(line)[..18][17] == ToLower(line)[17] == ':';
    assert line[17] == ':';
  }

  /** The key a Sec-WebSocket-Key line carries: the trimmed text after its first ':'. */
  function KeyValue(line: string): string
  {
    var colon := IndexOf(line, ':', 0);
    if colon < 0 then "" else Trim(line[colon + 1..])
  }

  /** What one line does to the scan: set the path, set the upgrade flag, set the key, or nothing. */
  datatype LineKind = RequestLine(path: string) | UpgradeLine | KeyLine(value: string) | OtherLine

  /**
   * How the loop body reads line number index: line 0 is the request line and gives the path
   * when it has one; a later line whose lower-case form starts with "upgrade:" sets the
   * upgrade flag when it mentions "websocket"; one starting with "sec-websocket-key:" gives
   * the trimmed text after its first ':' (cut from the line as written, so the key keeps its case).
   */
  function Classify(index: nat, line: string): LineKind
  {
    if index == 0 then
      match RequestPath(line)
      case None => OtherLine
      case Some(p) => RequestLine(p)
    else
      var lower := ToLower(line);
      if StartsWith(lower, "upgrade:") then
        if Contains(lower, "websocket") then UpgradeLine else OtherLine
      else if StartsWith(lower, "sec-websocket-key:") then
        var colon := IndexOf(line, ':', 0);
        if colon < 0 then OtherLine else KeyLine(Trim(line[colon + 1..]))
      else OtherLine
  }

  /** One pass of the loop body, for a line of kind k. */
  function Step(sc: Scan, k: LineKind): Scan
  {
    match k
    case RequestLine(p) => sc.(path := p)
    case UpgradeLine => sc.(isUpgrade := true)
    case KeyLine(v) => sc.(wsKey := v)
    case OtherLine => sc
  }

  /** The kind of every line, numbered from 0. */
  function Kinds(lines: seq<string>): (ks: seq<LineKind>)
    ensures |ks| == |lines|
  {
    seq(|lines|, i requires 0 <= i < |lines| => Classify(i, lines[i]))
  }

  /** The scan over lines of the given kinds, from an empty path, no upgrade and an empty key. */
  function ScanKinds(ks: seq<LineKind>): Scan
  {
    if ks == [] then Scan("", false, "")
    else Step(ScanKinds(ks[..|ks| - 1]), ks[|ks| - 1])
  }

  /** The scan over the lines of a request. */
  function ScanLines(lines: seq<string>): Scan
  {
    ScanKinds(Kinds(lines))
  }

  /** One more line at the end is one more step of the scan. */
  lemma ScanLinesSnoc(lines: seq<string>, line: string)
    ensures ScanKinds(Kinds(lines + [line])) == Step(ScanKinds(Kinds(lines)), Classify(|lines|, line))
  {
    var ks := Kinds(lines + [line]);
    assert ks[..|lines|] == Kinds(lines);
    assert ks[|lines|] == Classify(|lines|, line);
  }

  /** The body of the scan loop: the request line on line 0, header lines after it. */
  method ScanLine(path0: string, isUpgrade0: bool, wsKey0: string, lineCount: nat, line: string)
    returns (path: string, isUpgrade: bool, wsKey: string)
    ensures Scan(path, isUpgrade, wsKey) == Step(Scan(path0, isUpgrade0, wsKey0), Classify(lineCount, line))
  {
    path, isUpgrade, wsKey := path0, isUpgrade0, wsKey0;
    if lineCount == 0 {
      // request line: GET /path HTTP/1.1
      if StartsWith(line, "GET") {
        var firstSpace := IndexOf(line, ' ', 0);
        var secondSpace := IndexOf(line, ' ', if firstSpace < 0 then 0 else firstSpace + 1);
        if firstSpace != -1 && secondSpace != -1 {
          path := line[firstSpace + 1..secondSpace];
          assert RequestPath(line) == Some(path);
        } else {
          assert RequestPath(line) == None;
        }
      }
      assert Classify(lineCount, line) == if RequestPath(line).Some? then RequestLine(path) else OtherLine;
    } else {
      var lowerLine := ToLower(line);
      if StartsWith(lowerLine, "upgrade:") {
        if Contains(lowerLine, "websocket") {
          isUpgrade := true;
          assert Classify(lineCount, line) == UpgradeLine;
        } else {
          assert Classify(lineCount, line) == OtherLine;
        }
      } else if StartsWith(lowerLine, "sec-websocket-key:") {
        // the value keeps its case: it is cut from the original line
        var colonPos := IndexOf(line, ':', 0);
        if colonPos != -1 {
          wsKey := Trim(line[colonPos + 1..]);
          assert Classify(lineCount, line) == KeyLine(wsKey);
        } else {
          assert Classify(lineCount, line) == OtherLine;
        }
      } else {
        assert Classify(lineCount, line) == OtherLine;
      }
    }
  }

  /**
   * The scan loop of _ParseHTTP, run over the request text with FindFirst("\n", pos) as the
   * source does.
   */
  method ScanRequest(request: string) returns (sc: Scan)
    ensures sc == ScanLines(Lines(request))
  {
    var pos := 0;
    var lineEnd := IndexOf(request, '\n', pos);
    var path, isUpgrade, wsKey := "", false, "";
    var lineCount := 0;
    ghost var done: seq<string> := [];
    LinesStart(request);
    while lineEnd != -1
      invariant 0 <= pos <= |request|
      invariant lineEnd == IndexOf(request, '\n', pos)
      invariant Lines(request) == done + Lines(request[pos..])
      invariant lineCount == |done|
      invariant Scan(path, isUpgrade, wsKey) == ScanKinds(Kinds(done))
      decreases |request| - pos
    {
      LinesAdvance(request, pos, lineEnd, done);
      var line := RemoveCR(request[pos..lineEnd]);
      path, isUpgrade, wsKey := ScanLine(path, isUpgrade, wsKey, lineCount, line);
      ScanLinesSnoc(done, line);
      done := done + [line];
      pos := lineEnd + 1;
      lineEnd := IndexOf(request, '\n', pos);
      lineCount := lineCount + 1;
    }
    LinesDone(request, pos, done);
    return Scan(path, isUpgrade, wsKey);
  }

  // ---- What the scan finds ----

  /** Only line 0 can give the path; a line gives the upgrade flag exactly when it is a header asking for websocket. */
  lemma ClassifyKinds(index: nat, line: string)
    ensures Classify(index, line).RequestLine? ==> index == 0
    ensures index == 0 ==> Classify(index, line) == (if RequestPath(line).Some? then RequestLine(RequestPath(line).value) else OtherLine)
    ensures Classify(index, line).UpgradeLine? <==> index > 0 && IsUpgradeHeader(line)
    ensures Classify(index, line).KeyLine? <==> index > 0 && IsKeyHeader(line)
    ensures Classify(index, line).KeyLine? ==> Classify(index, line).value == KeyValue(line)
  {
    if index > 0 {
      HeaderKindsDisjoint(line);
      if IsKeyHeader(line) {
        KeyHeaderColon(line);
      }
    }
  }

  /** The upgrade flag is set exactly when some line of the upgrade kind was scanned. */
  lemma {:induction false} KindsUpgrade(ks: seq<LineKind>)
    ensures ScanKinds(ks).isUpgrade <==> exists i :: 0 <= i < |ks| && ks[i].UpgradeLine?
  {
    if ks != [] {
      var init := ks[..|ks| - 1];
      KindsUpgrade(init);
      if exists i :: 0 <= i < |init| && init[i].UpgradeLine? {
        var i :| 0 <= i < |init| && init[i].UpgradeLine?;
        assert ks[i] == init[i];
      }
      if exists i :: 0 <= i < |ks| && ks[i].UpgradeLine? {
        var i :| 0 <= i < |ks| && ks[i].UpgradeLine?;
        if i < |init| {
          assert init[i] == ks[i];
        }
      }
    }
  }

  /** The upgrade flag is set exactly when some header line (not the request line) asks for websocket. */
  lemma ScanUpgrade(lines: seq<string>)
    ensures ScanLines(lines).isUpgrade <==> exists i :: 1 <= i < |lines| && IsUpgradeHeader(lines[i])
  {
    var ks := Kinds(lines);
    KindsUpgrade(ks);
    if exists i :: 0 <= i < |ks| && ks[i].UpgradeLine? {
      var i :| 0 <= i < |ks| && ks[i].UpgradeLine?;
      ClassifyKinds(i, lines[i]);
    }
    if exists i :: 1 <= i < |lines| && IsUpgradeHeader(lines[i]) {
      var i :| 1 <= i < |lines| && IsUpgradeHeader(lines[i]);
      ClassifyKinds(i, lines[i]);
      assert ks[i].UpgradeLine?;
    }
  }

  /** No header line starts (in lower case) both with "upgrade:" and with "sec-websocket-key:". */
  lemma HeaderKindsDisjoint(line: string)
    ensures !(StartsWith(ToLower(line), "upgrade:") && IsKeyHeader(line))
  {
    var l := ToLower(line);
    if StartsWith(l, "upgrade:") {
      assert l[..8][0] == l[0] == 'u';
    }
    if IsKeyHeader(line) {
      assert l[..18][0] == l[0] == 's';
    }
  }

  /** The key is the value of the last line of the key kind, and empty without one. */
  lemma {:induction false} KindsKey(ks: seq<LineKind>, j: int)
    requires -1 <= j < |ks| && (j >= 0 ==> ks[j].KeyLine?)
    requires forall i :: j < i < |ks| ==> !ks[i].KeyLine?
    ensures ScanKinds(ks).wsKey == if j < 0 then "" else ks[j].value
  {
    if ks != [] {
      var init := ks[..|ks| - 1];
      if j < |ks| - 1 {
        assert forall i :: j < i < |init| ==> init[i] == ks[i];
        KindsKey(init, j);
        if j >= 0 {
          assert init[j] == ks[j];
        }
      }
    }
  }

  /** Without any Sec-WebSocket-Key header line, the key stays empty. */
  lemma ScanNoKey(lines: seq<string>)
    requires forall i :: 1 <= i < |lines| ==> !IsKeyHeader(lines[i])
    ensures ScanLines(lines).wsKey == ""
  {
    var ks := Kinds(lines);
    forall i | 0 <= i < |ks|
      ensures !ks[i].KeyLine?
    {
      ClassifyKinds(i, lines[i]);
    }
    KindsKey(ks, -1);
  }

  /** The key is the value of the LAST Sec-WebSocket-Key header line: later lines overwrite earlier ones. */
  lemma ScanLastKey(lines: seq<string>, j: nat)
    requires 1 <= j < |lines| && IsKeyHeader(lines[j])
    requires forall i :: j < i < |lines| ==> !IsKeyHeader(lines[i])
    ensures ScanLines(lines).wsKey == KeyValue(lines[j])
  {
    var ks := Kinds(lines);
    ClassifyKinds(j, lines[j]);
    forall i | j < i < |ks|
      ensures !ks[i].KeyLine?
    {
      ClassifyKinds(i, lines[i]);
    }
    KindsKey(ks, j);
  }

  /** The path comes from the first line alone, when it is of the request-line kind. */
  lemma {:induction false} KindsPath(ks: seq<LineKind>)
    requires forall i :: 0 < i < |ks| ==> !ks[i].RequestLine?
    ensures ScanKinds(ks).path == if ks != [] && ks[0].RequestLine? then ks[0].path else ""
  {
    if ks != [] {
      var init := ks[..|ks| - 1];
      assert forall i :: 0 < i < |init| ==> init[i] == ks[i];
      KindsPath(init);
      if init != [] {
        assert init[0] == ks[0];
      }
    }
  }

  /** The path comes from the request line alone. */
  lemma ScanPath(lines: seq<string>)
    ensures ScanLines(lines).path ==
      if lines == [] || RequestPath(lines[0]).None? then "" else RequestPath(lines[0]).value
  {
    var ks := Kinds(lines);
    forall i | 0 < i < |ks|
      ensures !ks[i].RequestLine?
    {
      ClassifyKinds(i, lines[i]);
    }
    KindsPath(ks);
    if lines != [] {
      ClassifyKinds(0, lines[0]);
    }
  }

  /**
   * The path of a request line is the text strictly between its first and its second
   * space; the line starts with "GET", and the path holds no space.
   */
  lemma RequestPathSpaces(line: string)
    requires RequestPath(line).Some?
    ensures StartsWith(line, "GET")
    ensures exists a, b :: (0 <= a < b < |line| && line[a] == ' ' && line[b] == ' ' &&
      (forall k :: 0 <= k < a ==> line[k] != ' ') &&
      RequestPath(line).value == line[a + 1..b])
    ensures ' ' !in RequestPath(line).value
  {
    var first := IndexOf(line, ' ', 0);
    var second := IndexOf(line, ' ', first + 1);
    var p := line[first + 1..second];
    forall k | 0 <= k < |p|
      ensures p[k] != ' '
    {
      assert p[k] == line[first + 1 + k];
    }
  }

  // ---- The decision ----

  /** What _ParseHTTP does with a complete request. */
  datatype Outcome = Upgrade(key: string) | NotFound | Serve(file: string, mime: string)

  /** _ParseHTTP returns true (close the connection) for every outcome but the upgrade. */
  predicate Closes(o: Outcome)
  {
    !o.Upgrade?
  }

  /** The path with the query removed: everything from the first '?' on is dropped. */
  function StripQuery(path: string): (p: string)
    ensures '?' !in p && |p| <= |path| && p == path[..|p|]
    ensures '?' in path ==> path[|p|] == '?'
  {
    var q := IndexOf(path, '?', 0);
    if q < 0 then path else path[..q]
  }

  /** "/" and the empty path both stand for "/index.html". */
  function DefaultIndex(p: string): string
  {
    if p == "/" || |p| == 0 then "/index.html" else p
  }

  /** The Content-Type chosen by file suffix. */
  function MimeType(path: string): (m: string)
    ensures m == "text/html" <==> EndsWith(path, ".html")
    ensures m == "application/javascript" <==> EndsWith(path, ".js")
    ensures m == "text/css" <==> EndsWith(path, ".css")
    ensures m == "application/wasm" <==> EndsWith(path, ".wasm")
    ensures m == "application/octet-stream" <==>
      !(EndsWith(path, ".html") || EndsWith(path, ".js") || EndsWith(path, ".css") || EndsWith(path, ".wasm"))
  {
    SuffixesDistinct(path);
    if EndsWith(path, ".html") then "text/html"
    else if EndsWith(path, ".js") then "application/javascript"
    else if EndsWith(path, ".css") then "text/css"
    else if EndsWith(path, ".wasm") then "application/wasm"
    else "application/octet-stream"
  }

  /** A path ends with at most one of the four known suffixes. */
  lemma SuffixesDistinct(path: string)
    ensures EndsWith(path, ".html") ==> !EndsWith(path, ".js") && !EndsWith(path, ".css") && !EndsWith(path, ".wasm")
    ensures EndsWith(path, ".js") ==> !EndsWith(path, ".css") && !EndsWith(path, ".wasm")
    ensures EndsWith(path, ".css") ==> !EndsWith(path, ".wasm")
  {
    var n := |path|;
    if EndsWith(path, ".html") {
      assert path[n - 1] == path[n - 5..][4] == 'l';
    }
    if EndsWith(path, ".js") {
      assert path[n - 1] == path[n - 3..][2] == 's';
      assert path[n - 2] == path[n - 3..][1] == 'j';
    }
    if EndsWith(path, ".css") {
      assert path[n - 1] == path[n - 4..][3] == 's';
      assert path[n - 2] == path[n - 4..][2] == 's';
    }
    if EndsWith(path, ".wasm") {
      assert path[n - 1] == path[n - 5..][4] == 'm';
    }
  }

  /**
   * The routing decision of _ParseHTTP. available holds the request paths whose file
   * exists next to the executable and opens for reading.
   */
  function Route(sc: Scan, available: set<string>): Outcome
  {
    if sc.isUpgrade && |sc.wsKey| > 0 then Upgrade(sc.wsKey)
    else
      var p := StripQuery(sc.path);
      if Contains(p, "..") then NotFound
      else if |p| > 1 && p[1] == '/' then NotFound
      else
        var file := DefaultIndex(p);
        if file in available then Serve(file, MimeType(file)) else NotFound
  }

  /** _ParseHTTP on the whole request: scan, then route; true means the connection is closed. */
  method ParseHttp(request: string, available: set<string>) returns (outcome: Outcome, closeConn: bool)
    ensures outcome == Route(ScanLines(Lines(request)), available)
    ensures closeConn <==> !outcome.Upgrade?
  {
    var sc := ScanRequest(request);
    outcome := Route(sc, available);
    closeConn := !outcome.Upgrade?;
  }

  /** The handshake happens exactly when the upgrade flag is set and the key is not empty, whatever the path. */
  lemma RouteUpgrade(sc: Scan, available: set<string>)
    ensures Route(sc, available).Upgrade? <==> sc.isUpgrade && |sc.wsKey| > 0
    ensures Route(sc, available).Upgrade? ==> Route(sc, available).key == sc.wsKey
  {
  }

  /** "/index.html" holds no "..". */
  lemma IndexHasNoDots()
    ensures !Contains("/index.html", "..")
    ensures '?' !in "/index.html" && "/index.html"[1] == 'i'
  {
    var s := "/index.html";
    forall i | 0 <= i <= |s|
      ensures !StartsWith(s[i..], "..")
    {
      if i + 2 <= |s| {
        assert s[i..][..2] == [s[i], s[i + 1]];
      }
    }
  }

  /**
   * A served file is one that exists, its request path is free of "..", of a query and of a
   * second '/' right after the first character, and it carries the MIME type of its suffix.
   */
  lemma RouteServeSafe(sc: Scan, available: set<string>)
    requires Route(sc, available).Serve?
    ensures var o := Route(sc, available);
      o.file in available && o.mime == MimeType(o.file) &&
      !Contains(o.file, "..") && '?' !in o.file &&
      !(|o.file| > 1 && o.file[1] == '/') && o.file != "" && o.file != "/"
  {
    var p := StripQuery(sc.path);
    if p == "/" || |p| == 0 {
      IndexHasNoDots();
      assert Route(sc, available) == Serve("/index.html", MimeType("/index.html"));
    } else {
      assert !Contains(p, "..") && '?' !in p && !(|p| > 1 && p[1] == '/');
      assert Route(sc, available) == Serve(p, MimeType(p));
    }
  }

  /** A path with ".." in it, before any '?', is never served. */
  lemma RouteRejectsTraversal(sc: Scan, available: set<string>)
    requires !(sc.isUpgrade && |sc.wsKey| > 0) && Contains(StripQuery(sc.path), "..")
    ensures Route(sc, available) == NotFound
  {
  }

  /** The query string has no say in which file is served. */
  lemma RouteIgnoresQuery(sc: Scan, p: string, q: string, available: set<string>)
    requires '?' !in p
    ensures Route(sc.(path := p + "?" + q), available) == Route(sc.(path := p), available)
  {
    var full := p + "?" + q;
    assert full[|p|] == '?';
    assert full[..|p|] == p;
    assert StripQuery(full) == p;
  }

  /** The site root, with or without a query, serves index.html as text/html when it exists. */
  lemma RouteIndex(sc: Scan, available: set<string>)
    requires !(sc.isUpgrade && |sc.wsKey| > 0)
    requires StripQuery(sc.path) == "/" || StripQuery(sc.path) == ""
    ensures Route(sc, available) ==
      if "/index.html" in available then Serve("/index.html", "text/html") else NotFound
  {
    var p := StripQuery(sc.path);
    if p == "/" {
      assert !StartsWith(p[0..], "..") && !StartsWith(p[1..], "..");
      assert !Contains(p, "..");
    }
    assert EndsWith("/index.html", ".html");
  }

  // ---- The handshake response ----

  /** The GUID that section 1.3 of RFC 6455 fixes for the accept key. */
  const WebSocketGuid: string := "258EAFA5-E914-47DA-95CA-C5AB0DC85B11"

  const SwitchingStatus: string := "HTTP/1.1 101 Switching Protocols\r\n"

  const SwitchingHead: string :=
    SwitchingStatus + "Upgrade: websocket\r\nConnection: Upgrade\r\nSec-WebSocket-Accept: "

  /** The reply of every 404 outcome. */
  const NotFoundReply: string := "HTTP/1.1 404 Not Found\r\n\r\n404 Not Found"

  /**
   * _MakeWebSocketResponse: the 101 response whose accept value is
   * Base64(SHA1(key ++ GUID)) (section 4.2.2 of RFC 6455). SHA1 and Base64 are the OpenSSL
   * wrappers of NetworkUtils and appear here as parameters.
   */
  function UpgradeResponse(key: string, sha1: string -> seq<Byte>, base64: seq<Byte> -> string): string
  {
    SwitchingHead + base64(sha1(key + WebSocketGuid)) + "\r\n\r\n"
  }

  /**
   * The response is a 101 status line with the Upgrade and Connection headers, ends with the
   * blank line, and the text between the accept header name and the final CRLF CRLF is
   * exactly Base64(SHA1(key ++ GUID)).
   */
  lemma UpgradeResponseAccept(key: string, sha1: string -> seq<Byte>, base64: seq<Byte> -> string)
    ensures var r := UpgradeResponse(key, sha1, base64);
      StartsWith(r, SwitchingStatus) && StartsWith(r, SwitchingHead) &&
      EndsWith(r, "\r\n\r\n") &&
      |r| >= |SwitchingHead| + 4 &&
      r[|SwitchingHead|..|r| - 4] == base64(sha1(key + WebSocketGuid))
  {
    var r := UpgradeResponse(key, sha1, base64);
    var a := base64(sha1(key + WebSocketGuid));
    assert r[..|SwitchingHead|] == SwitchingHead;
    assert r[..|SwitchingStatus|] == SwitchingStatus;
    assert r[|SwitchingHead|..|r| - 4] == a;
  }
}
