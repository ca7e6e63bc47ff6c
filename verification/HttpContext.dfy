// The incremental HTTP request parser: a request line, header lines and an empty line,
// delivered in chunks of any size.
module HttpContexts {
  import opened Bytes
  import opened Buffers

  const CR: Byte := 13
  const LF: Byte := 10
  const SPACE: Byte := 32
  const COLON: Byte := 58
  const QUESTION: Byte := 63
  const GET: seq<Byte> := [71, 69, 84]
  const POST: seq<Byte> := [80, 79, 83, 84]
  const HEAD: seq<Byte> := [72, 69, 65, 68]
  const PUT: seq<Byte> := [80, 85, 84]
  const DELETE: seq<Byte> := [68, 69, 76, 69, 84, 69]
  const HTTP1: seq<Byte> := [72, 84, 84, 80, 47, 49, 46]
  const ZERO: Byte := 48
  const ONE: Byte := 49

  datatype Method = Invalid | Get | Post | Head | Put | Delete
  datatype Version = Unknown | Http10 | Http11

  datatype Request = Request(
    method_: Method, version: Version, path: seq<Byte>, query: seq<Byte>, headers: map<seq<Byte>, seq<Byte>>)

  const EMPTY_REQUEST := Request(Invalid, Unknown, [], [], map[])

  datatype State = ExpectRequestLine | ExpectHeaders | ExpectBody | GotAll

  function MethodOf(s: seq<Byte>): Method {
    if s == GET then Get else if s == POST then Post else if s == HEAD then Head
    else if s == PUT then Put else if s == DELETE then Delete else Invalid
  }

  function MethodText(m: Method): seq<Byte>
    requires m != Invalid
  {
    match m
    case Get => GET
    case Post => POST
    case Head => HEAD
    case Put => PUT
    case Delete => DELETE
  }

  // The first position of b, or the end.
  function Find(s: seq<Byte>, b: Byte): (i: nat)
    ensures i <= |s| && (i < |s| ==> s[i] == b) && forall j :: 0 <= j < i ==> s[j] != b
  {
    if s == [] then 0 else if s[0] == b then 0 else 1 + Find(s[1..], b)
  }

  lemma FindIs(s: seq<Byte>, b: Byte, i: nat)
    requires i <= |s| && (i < |s| ==> s[i] == b) && forall j :: 0 <= j < i ==> s[j] != b
    ensures Find(s, b) == i
  {
  }

  lemma FindHas(s: seq<Byte>, b: Byte)
    ensures Find(s, b) < |s| <==> b in s
  {
  }

  // The first line end, or -1.
  function FindCrlf(s: seq<Byte>): (at: int)
    ensures at == -1 || (0 <= at && CrlfAt(s, at))
    ensures forall i: nat :: i < (if at == -1 then |s| else at) ==> !CrlfAt(s, i)
  {
    if |s| < 2 then -1
    else if s[0] == CR && s[1] == LF then 0
    else
      var at := FindCrlf(s[1..]);
      assert forall i: nat :: 0 < i ==> (CrlfAt(s, i) <==> CrlfAt(s[1..], i - 1));
      if at == -1 then -1 else at + 1
  }

  lemma FindCrlfIs(s: seq<Byte>, at: nat)
    requires CrlfAt(s, at) && forall i: nat :: i < at ==> !CrlfAt(s, i)
    ensures FindCrlf(s) == at
  {
  }

  // ---- the request line ----

  function ProcessLine(req: Request, line: seq<Byte>): (bool, Request) {
    var space := Find(line, SPACE);
    if space == |line| then (false, req)
    else
      var r, start := req.(method_ := MethodOf(line[..space])), space + 1;
      var space2 := start + Find(line[start..], SPACE);
      if r.method_ == Invalid || space2 == |line| then (false, r)
      else SetVersion(SetTarget(r, line[start..space2]), line[space2 + 1..])
  }

  function SetVersion(r: Request, v: seq<Byte>): (bool, Request) {
    if |v| == 8 && v[..7] == HTTP1 && v[7] == ONE then (true, r.(version := Http11))
    else if |v| == 8 && v[..7] == HTTP1 && v[7] == ZERO then (true, r.(version := Http10))
    else (false, r)
  }

  function SetTarget(r: Request, target: seq<Byte>): Request {
    var q := Find(target, QUESTION);
    if q != |target| then r.(path := target[..q], query := target[q..]) else r.(path := target)
  }

  // ---- header lines ----

  predicate IsSpace(b: Byte) { b == SPACE || 9 <= b <= 13 }

  function TrimFront(s: seq<Byte>): seq<Byte> {
    if s != [] && IsSpace(s[0]) then TrimFront(s[1..]) else s
  }

  function TrimBack(s: seq<Byte>): seq<Byte> {
    if s != [] && IsSpace(s[|s| - 1]) then TrimBack(s[..|s| - 1]) else s
  }

  predicate Blank(s: seq<Byte>) { forall i :: 0 <= i < |s| ==> IsSpace(s[i]) }

  lemma {:induction false} FrontTrimmed(s: seq<Byte>) returns (i: nat)
    ensures i <= |s| && TrimFront(s) == s[i..] && Blank(s[..i]) && (i < |s| ==> !IsSpace(s[i]))
  {
    i := 0;
    if s != [] && IsSpace(s[0]) {
      i := FrontTrimmed(s[1..]);
      assert s[1..][i..] == s[i + 1..] && s[..i + 1] == [s[0]] + s[1..][..i];
      i := i + 1;
    }
  }

  lemma {:induction false} BackTrimmed(s: seq<Byte>) returns (j: nat)
    ensures j <= |s| && TrimBack(s) == s[..j] && Blank(s[j..]) && (0 < j ==> !IsSpace(s[j - 1]))
  {
    j := |s|;
    if s != [] && IsSpace(s[|s| - 1]) {
      var t := s[..|s| - 1];
      j := BackTrimmed(t);
      assert t[..j] == s[..j] && s[j..] == t[j..] + [s[|s| - 1]];
    }
  }

  // What is left has no white space at either end, and only white space was cut off.
  lemma TrimmedIs(s: seq<Byte>) returns (i: nat, j: nat)
    ensures i <= j <= |s| && TrimBack(TrimFront(s)) == s[i..j]
    ensures forall k :: (0 <= k < i || j <= k < |s|) ==> s[k] == 32 || 9 <= s[k] <= 13
    ensures i < j ==> !(s[i] == 32 || 9 <= s[i] <= 13) && !(s[j - 1] == 32 || 9 <= s[j - 1] <= 13)
  {
    i := FrontTrimmed(s);
    var k := BackTrimmed(s[i..]);
    j := i + k;
    assert s[i..][..k] == s[i..j] && s[i..][k..] == s[j..];
    assert forall k :: 0 <= k < i ==> s[k] == s[..i][k];
    assert forall k :: j <= k < |s| ==> s[k] == s[j..][k - j];
  }

  function WithHeaderLine(r: Request, line: seq<Byte>, colon: nat): Request
    requires colon < |line|
  {
    r.(headers := r.headers[line[..colon] := TrimBack(TrimFront(line[colon + 1..]))])
  }

  // ---- the parser as a function of what has arrived ----

  datatype Parser = Parser(state: State, request: Request, rest: seq<Byte>) {
    predicate Ready() { state == ExpectRequestLine || state == ExpectHeaders }
  }

  // One turn of the loop: is another turn wanted, and what is the parser now?
  function Step(p: Parser): (turn: (bool, Parser))
    requires p.Ready()
    ensures turn.0 ==> turn.1.state == ExpectHeaders && |turn.1.rest| < |p.rest|
    ensures !turn.0 ==> turn.1.state != ExpectBody && |turn.1.rest| <= |p.rest|
  {
    var at := FindCrlf(p.rest);
    if at < 0 then (false, p)
    else
      var line, after := p.rest[..at], p.rest[at + 2..];
      if p.state == ExpectRequestLine then
        var (ok, r) := ProcessLine(p.request, line);
        if ok then (true, Parser(ExpectHeaders, r, after)) else (false, Parser(ExpectRequestLine, r, p.rest))
      else
        var colon := Find(line, COLON);
        if colon != |line| then (true, Parser(ExpectHeaders, WithHeaderLine(p.request, line, colon), after))
        else (false, Parser(GotAll, p.request, after))
  }

  function Parse(p: Parser): (q: Parser)
    requires p.Ready()
    ensures |q.rest| <= |p.rest| && q.state != ExpectBody
    decreases |p.rest|
  {
    var turn := Step(p);
    if turn.0 then Parse(turn.1) else turn.1
  }

  lemma ParseTurn(p: Parser)
    requires p.Ready()
    ensures Parse(p) == if Step(p).0 then Parse(Step(p).1) else Step(p).1
  {
  }

  // A chunk arrives: it is appended, and parsed unless the request is already complete.
  function Feed(p: Parser, chunk: seq<Byte>): (q: Parser)
    requires p.state != ExpectBody
    ensures q.state != ExpectBody
  {
    var more := p.(rest := p.rest + chunk);
    if p.state == GotAll then more else Parse(more)
  }

  function FeedAll(p: Parser, chunks: seq<seq<Byte>>): (q: Parser)
    requires p.state != ExpectBody
    ensures q.state != ExpectBody
    decreases |chunks|
  {
    if chunks == [] then p else FeedAll(Feed(p, chunks[0]), chunks[1..])
  }

  function Concat(chunks: seq<seq<Byte>>): seq<Byte> {
    if chunks == [] then [] else chunks[0] + Concat(chunks[1..])
  }

  lemma CrlfStays(s: seq<Byte>, t: seq<Byte>)
    requires FindCrlf(s) >= 0
    ensures FindCrlf(s + t) == FindCrlf(s)
  {
    var at := FindCrlf(s);
    forall i: nat | i < at
      ensures !CrlfAt(s + t, i)
    {
      assert !CrlfAt(s, i);
    }
    FindCrlfIs(s + t, at);
  }

  // Reading a request line that was refused once more changes nothing more.
  lemma LineAgain(req: Request, line: seq<Byte>)
    ensures ProcessLine(ProcessLine(req, line).1, line) == ProcessLine(req, line)
  {
    hide Find, MethodOf;
  }

  function Longer(p: Parser, b: seq<Byte>): Parser { p.(rest := p.rest + b) }

  // With a line end in view, what arrives later does not change the turn; without one the
  // turn changes nothing.
  lemma StepSplit(p: Parser, b: seq<Byte>)
    requires p.Ready()
    ensures FindCrlf(p.rest) < 0 ==> Step(p) == (false, p)
    ensures FindCrlf(p.rest) >= 0 ==> Step(Longer(p, b)) == (Step(p).0, Longer(Step(p).1, b))
  {
    hide Find, FindCrlf, ProcessLine, WithHeaderLine;
    var at := FindCrlf(p.rest);
    if at >= 0 {
      CrlfStays(p.rest, b);
      assert (p.rest + b)[..at] == p.rest[..at] && (p.rest + b)[at + 2..] == p.rest[at + 2..] + b;
    }
  }

  // A turn that stops short of the end would stop again at the same place.
  lemma StepAgain(p: Parser, b: seq<Byte>)
    requires p.Ready() && FindCrlf(p.rest) >= 0 && !Step(p).0 && Step(p).1.state != GotAll
    ensures Step(p).1.Ready() && Step(Longer(Step(p).1, b)) == Step(Longer(p, b))
  {
    hide Find, FindCrlf, ProcessLine, WithHeaderLine;
    LineAgain(p.request, p.rest[..FindCrlf(p.rest)]);
    CrlfStays(p.rest, b);
    assert (p.rest + b)[..FindCrlf(p.rest)] == p.rest[..FindCrlf(p.rest)];
  }

  // Parsing what is there and then the rest is parsing everything at once.
  lemma {:induction false} ParseSplit(p: Parser, b: seq<Byte>)
    requires p.Ready()
    ensures Feed(Parse(p), b) == Parse(Longer(p, b))
    decreases |p.rest|
  {
    hide Step, FindCrlf;
    StepSplit(p, b);
    var turn := Step(p);
    if turn.0 {
      ParseSplit(turn.1, b);
    } else if FindCrlf(p.rest) >= 0 && turn.1.state != GotAll {
      StepAgain(p, b);
    }
  }

  lemma FeedTwice(p: Parser, a: seq<Byte>, b: seq<Byte>)
    requires p.state != ExpectBody
    ensures Feed(Feed(p, a), b) == Feed(p, a + b)
  {
    hide Parse;
    assert p.rest + a + b == p.rest + (a + b);
    if p.state != GotAll { ParseSplit(Longer(p, a), b); }
  }

  // However the bytes of one or more chunks are cut up, the parser ends in the same state,
  // with the same request and the same bytes left over.
  lemma {:induction false} ChunksDoNotMatter(p: Parser, chunks: seq<seq<Byte>>)
    requires p.state != ExpectBody && chunks != []
    ensures FeedAll(p, chunks) == Feed(p, Concat(chunks))
    decreases |chunks|
  {
    if |chunks| == 1 {
      assert Concat(chunks[1..]) == [];
      assert chunks[0] + [] == chunks[0];
      assert FeedAll(Feed(p, chunks[0]), chunks[1..]) == Feed(p, chunks[0]);
    } else {
      ChunksDoNotMatter(Feed(p, chunks[0]), chunks[1..]);
      FeedTwice(p, chunks[0], Concat(chunks[1..]));
    }
  }

  // ---- printing ----

  datatype Header = Header(field: seq<Byte>, value: seq<Byte>)

  predicate Plain(s: seq<Byte>) { CR !in s && LF !in s }

  predicate GoodHeader(h: Header) {
    && Plain(h.field) && COLON !in h.field && Plain(h.value)
    && (h.value != [] ==> !IsSpace(h.value[0]) && !IsSpace(h.value[|h.value| - 1]))
  }

  predicate GoodHeaders(hs: seq<Header>) {
    && (forall i :: 0 <= i < |hs| ==> GoodHeader(hs[i]))
    && (forall i, j :: 0 <= i < j < |hs| ==> hs[i].field != hs[j].field)
  }

  predicate GoodRequest(r: Request) {
    && r.method_ != Invalid && r.version != Unknown
    && Plain(r.path) && SPACE !in r.path && QUESTION !in r.path
    && Plain(r.query) && SPACE !in r.query && (r.query != [] ==> r.query[0] == QUESTION)
  }

  function HeaderMap(hs: seq<Header>): map<seq<Byte>, seq<Byte>> {
    if hs == [] then map[] else HeaderMap(hs[..|hs| - 1])[hs[|hs| - 1].field := hs[|hs| - 1].value]
  }

  const CRLF: seq<Byte> := [CR, LF]

  function PrintLine(r: Request): seq<Byte>
    requires GoodRequest(r)
  {
    MethodText(r.method_) + [SPACE] + r.path + r.query + [SPACE] + HTTP1 + [if r.version == Http11 then ONE else ZERO]
  }

  function PrintHeader(h: Header): seq<Byte> { h.field + [COLON, SPACE] + h.value }

  function PrintHeaders(hs: seq<Header>): seq<Byte> {
    if hs == [] then CRLF else PrintHeader(hs[0]) + CRLF + PrintHeaders(hs[1..])
  }

  function Print(r: Request, hs: seq<Header>): seq<Byte>
    requires GoodRequest(r)
  {
    PrintLine(r) + CRLF + PrintHeaders(hs)
  }

  // A line without line-end bytes is found whole.
  lemma LineFound(line: seq<Byte>, after: seq<Byte>)
    requires Plain(line)
    ensures var s := line + CRLF + after;
            FindCrlf(s) == |line| && s[..|line|] == line && s[|line| + 2..] == after
  {
    var s := line + CRLF + after;
    assert s[|line|] == CR && s[|line| + 1] == LF;
    forall i: nat | i < |line|
      ensures !CrlfAt(s, i)
    {
      assert s[i] == line[i] && line[i] in line;
    }
    FindCrlfIs(s, |line|);
  }

  lemma TrimNothing(s: seq<Byte>)
    requires s != [] ==> !IsSpace(s[0]) && !IsSpace(s[|s| - 1])
    ensures TrimBack(TrimFront([SPACE] + s)) == s
  {
  }

  lemma HeaderLineRead(r: Request, h: Header)
    requires GoodHeader(h)
    ensures var line := PrintHeader(h);
            && Plain(line) && Find(line, COLON) == |h.field| < |line|
            && WithHeaderLine(r, line, |h.field|) == r.(headers := r.headers[h.field := h.value])
  {
    var line := PrintHeader(h);
    assert forall i :: 0 <= i < |line| ==> line[i] in h.field || line[i] in [COLON, SPACE] || line[i] in h.value;
    forall j | 0 <= j < |h.field|
      ensures line[j] != COLON
    {
      assert line[j] == h.field[j] && h.field[j] in h.field;
    }
    FindIs(line, COLON, |h.field|);
    assert line[..|h.field|] == h.field;
    assert line[|h.field| + 1..] == [SPACE] + h.value;
    TrimNothing(h.value);
  }

  lemma HeaderStep(r: Request, h: Header, after: seq<Byte>)
    requires GoodHeader(h)
    ensures Step(Parser(ExpectHeaders, r, PrintHeader(h) + CRLF + after)) ==
            (true, Parser(ExpectHeaders, r.(headers := r.headers[h.field := h.value]), after))
  {
    hide Find, FindCrlf, WithHeaderLine, PrintHeader, GoodHeader, Plain;
    HeaderLineRead(r, h);
    LineFound(PrintHeader(h), after);
  }

  // A line without a colon ends the request, empty or not.
  lemma ColonlessStep(r: Request, line: seq<Byte>, after: seq<Byte>)
    requires Plain(line) && COLON !in line
    ensures Step(Parser(ExpectHeaders, r, line + CRLF + after)) == (false, Parser(GotAll, r, after))
  {
    hide Find, FindCrlf, Plain;
    LineFound(line, after);
    FindHas(line, COLON);
  }

  lemma HeaderMapNext(before: seq<Header>, h: Header)
    ensures HeaderMap(before + [h]) == HeaderMap(before)[h.field := h.value]
  {
    assert (before + [h])[..|before|] == before;
  }

  // The headers still to be read extend the map of those already read.
  lemma {:induction false} HeadersRead(r: Request, before: seq<Header>, hs: seq<Header>, after: seq<Byte>)
    requires (forall i :: 0 <= i < |hs| ==> GoodHeader(hs[i])) && r.headers == HeaderMap(before)
    ensures Parse(Parser(ExpectHeaders, r, PrintHeaders(hs) + after)) ==
            Parser(GotAll, r.(headers := HeaderMap(before + hs)), after)
    decreases |hs|
  {
    hide Step, GoodHeader, PrintHeader, HeaderMap, Parse;
    if hs == [] {
      ColonlessStep(r, [], after);
      assert [] + CRLF + after == PrintHeaders(hs) + after;
      ParseTurn(Parser(ExpectHeaders, r, PrintHeaders(hs) + after));
      assert before + hs == before;
    } else {
      var h, rest := hs[0], hs[1..];
      HeaderStep(r, h, PrintHeaders(rest) + after);
      ParseTurn(Parser(ExpectHeaders, r, PrintHeaders(hs) + after));
      assert PrintHeaders(hs) + after == PrintHeader(h) + CRLF + (PrintHeaders(rest) + after);
      HeaderMapNext(before, h);
      HeadersRead(r.(headers := HeaderMap(before + [h])), before + [h], rest, after);
      assert before + [h] + rest == before + hs;
    }
  }

  lemma MethodBack(m: Method)
    requires m != Invalid
    ensures MethodOf(MethodText(m)) == m && SPACE !in MethodText(m) && Plain(MethodText(m))
  {
  }

  lemma TargetRead(req: Request, r: Request)
    requires GoodRequest(r) && req.query == []
    ensures SetTarget(req, r.path + r.query) == req.(path := r.path, query := r.query)
  {
    var t := r.path + r.query;
    forall j | 0 <= j < |r.path|
      ensures t[j] != QUESTION
    {
      assert t[j] == r.path[j] && r.path[j] in r.path;
    }
    FindIs(t, QUESTION, |r.path|);
    assert t[..|r.path|] == r.path && t[|r.path|..] == r.query;
    if r.query == [] { assert t == r.path; }
  }

  // Any target is cut before its first question mark; without one the old query stays.
  lemma TargetSplit(req: Request, target: seq<Byte>)
    ensures var r := SetTarget(req, target);
            && QUESTION !in r.path
            && (QUESTION in target ==> r.path + r.query == target && r.query != [] && r.query[0] == QUESTION)
            && (QUESTION !in target ==> r.path == target && r.query == req.query)
  {
    FindHas(target, QUESTION);
    hide Find;
    var q := Find(target, QUESTION);
    assert target[..q] + target[q..] == target;
  }

  lemma NoneBefore(s: seq<Byte>, b: Byte, t: seq<Byte>)
    requires b !in s
    ensures Find(s + [b] + t, b) == |s|
    ensures (s + [b] + t)[..|s|] == s && (s + [b] + t)[|s| + 1..] == t
  {
    var u := s + [b] + t;
    forall j | 0 <= j < |s|
      ensures u[j] != b
    {
      assert u[j] == s[j] && s[j] in s;
    }
    FindIs(u, b, |s|);
  }

  // The line read with its two spaces found.
  lemma LineParts(req: Request, method_: seq<Byte>, target: seq<Byte>, v: seq<Byte>)
    requires SPACE !in method_ && SPACE !in target && MethodOf(method_) != Invalid
    ensures ProcessLine(req, method_ + [SPACE] + (target + [SPACE] + v)) ==
            SetVersion(SetTarget(req.(method_ := MethodOf(method_)), target), v)
  {
    hide Find, MethodOf, SetTarget, SetVersion;
    var rest := target + [SPACE] + v;
    var line, start := method_ + [SPACE] + rest, |method_| + 1;
    NoneBefore(method_, SPACE, rest);
    NoneBefore(target, SPACE, v);
    assert line[start..] == rest;
    assert line[start..start + |target|] == target && line[start + |target| + 1..] == v;
  }

  lemma VersionRead(r: Request, v: seq<Byte>)
    requires |v| == 8 && v[..7] == HTTP1 && (v[7] == ONE || v[7] == ZERO)
    ensures SetVersion(r, v) == (true, r.(version := if v[7] == ONE then Http11 else Http10))
  {
  }

  lemma LineSplit(req: Request, m: Method, target: seq<Byte>, v: seq<Byte>)
    requires m != Invalid && SPACE !in target && |v| == 8 && v[..7] == HTTP1 && (v[7] == ONE || v[7] == ZERO)
    ensures ProcessLine(req, MethodText(m) + [SPACE] + target + [SPACE] + v) ==
            (true, SetTarget(req.(method_ := m), target).(version := if v[7] == ONE then Http11 else Http10))
  {
    MethodBack(m);
    hide ProcessLine, MethodOf, MethodText, SetTarget, SetVersion, HTTP1, Plain;
    assert MethodText(m) + [SPACE] + target + [SPACE] + v == MethodText(m) + [SPACE] + (target + [SPACE] + v);
    LineParts(req, MethodText(m), target, v);
    VersionRead(SetTarget(req.(method_ := m), target), v);
  }

  // ---- which lines are accepted ----

  // The bytes of a text.
  function Ascii(s: string): (b: seq<Byte>)
    ensures |b| == |s| && forall i :: 0 <= i < |s| ==> b[i] == s[i] as int % 256
  {
    seq(|s|, i requires 0 <= i < |s| => s[i] as int % 256)
  }

  predicate MethodName(m: string) { m == "GET" || m == "POST" || m == "HEAD" || m == "PUT" || m == "DELETE" }

  // A method, a target without a space and a version, with one space in between.
  ghost predicate RequestLine(line: seq<Byte>, m: string, target: seq<Byte>, v: string) {
    && MethodName(m) && 32 !in target && (v == "HTTP/1.0" || v == "HTTP/1.1")
    && line == Ascii(m) + [32] + target + [32] + Ascii(v)
  }

  lemma MethodNames(m: string, method_: Method)
    requires MethodName(m)
    requires method_ == (if m == "GET" then Get else if m == "POST" then Post else if m == "HEAD" then Head
                         else if m == "PUT" then Put else Delete)
    ensures MethodText(method_) == Ascii(m)
  {
  }

  lemma NamedMethod(s: seq<Byte>) returns (m: string)
    requires MethodOf(s) != Invalid
    ensures MethodName(m) && s == Ascii(m)
  {
    m := match MethodOf(s)
         case Get => "GET" case Post => "POST" case Head => "HEAD" case Put => "PUT" case _ => "DELETE";
  }

  lemma VersionNames()
    ensures Ascii("HTTP/1.0") == HTTP1 + [ZERO] && Ascii("HTTP/1.1") == HTTP1 + [ONE]
  {
  }

  // Such a line is accepted and gives the method, the target and the version it names.
  lemma AcceptedIs(req: Request, line: seq<Byte>, m: string, target: seq<Byte>, v: string)
    requires RequestLine(line, m, target, v)
    ensures var (ok, r) := ProcessLine(req, line);
            && ok && (r.version == if v == "HTTP/1.1" then Http11 else Http10) && r.headers == req.headers
            && r.method_ == (if m == "GET" then Get else if m == "POST" then Post else if m == "HEAD" then Head
                             else if m == "PUT" then Put else Delete)
            && 63 !in r.path && (if 63 in target then r.path + r.query == target && r.query != [] && r.query[0] == 63
                                 else r.path == target && r.query == req.query)
  {
    var method_ := if m == "GET" then Get else if m == "POST" then Post else if m == "HEAD" then Head
                   else if m == "PUT" then Put else Delete;
    MethodNames(m, method_);
    VersionNames();
    LineSplit(req, method_, target, Ascii(v));
    TargetSplit(req.(method_ := method_), target);
  }

  lemma CutAt(s: seq<Byte>, b: Byte)
    requires Find(s, b) < |s|
    ensures b !in s[..Find(s, b)] && s == s[..Find(s, b)] + [b] + s[Find(s, b) + 1..]
  {
  }

  lemma VersionIs(r: Request, v: seq<Byte>)
    requires SetVersion(r, v).0
    ensures v == HTTP1 + [ZERO] || v == HTTP1 + [ONE]
  {
    hide HTTP1;
    assert v == v[..7] + [v[7]];
  }

  // An accepted line cut at its first two spaces.
  lemma LineCut(req: Request, line: seq<Byte>) returns (method_: seq<Byte>, target: seq<Byte>, v: seq<Byte>)
    requires ProcessLine(req, line).0
    ensures line == method_ + [SPACE] + target + [SPACE] + v
    ensures MethodOf(method_) != Invalid && SPACE !in target && (v == HTTP1 + [ZERO] || v == HTTP1 + [ONE])
  {
    hide Find, MethodOf, SetTarget, SetVersion, HTTP1;
    var space := Find(line, SPACE);
    var rest := line[space + 1..];
    var space2 := Find(rest, SPACE);
    CutAt(line, SPACE);
    CutAt(rest, SPACE);
    method_, target, v := line[..space], rest[..space2], rest[space2 + 1..];
    assert target == line[space + 1..space + 1 + space2] && v == line[space + 1 + space2 + 1..];
    VersionIs(SetTarget(req.(method_ := MethodOf(method_)), target), v);
    assert method_ + [SPACE] + (target + [SPACE] + v) == method_ + [SPACE] + target + [SPACE] + v;
  }

  lemma NoOther(req: Request, line: seq<Byte>) returns (m: string, target: seq<Byte>, v: string)
    requires ProcessLine(req, line).0
    ensures RequestLine(line, m, target, v)
  {
    hide ProcessLine, MethodOf, HTTP1;
    var method_, w;
    method_, target, w := LineCut(req, line);
    m := NamedMethod(method_);
    VersionNames();
    v := if w == HTTP1 + [ONE] then "HTTP/1.1" else "HTTP/1.0";
  }

  // A refused line sets no version and no header, and nothing at all unless it has a space.
  lemma RefusedIs(req: Request, line: seq<Byte>)
    requires !ProcessLine(req, line).0
    ensures var r := ProcessLine(req, line).1;
            r.version == req.version && r.headers == req.headers && (32 !in line ==> r == req)
  {
    FindHas(line, SPACE);
  }

  // These lines and no others are accepted.
  lemma AcceptedIff(req: Request, line: seq<Byte>)
    ensures ProcessLine(req, line).0 <==> exists m, target, v :: RequestLine(line, m, target, v)
  {
    hide ProcessLine, RequestLine;
    if ProcessLine(req, line).0 { var m, target, v := NoOther(req, line); }
    if m, target, v :| RequestLine(line, m, target, v) { AcceptedIs(req, line, m, target, v); }
  }

  // A refused line stays where it is, and the parser still expects a request line.
  lemma RefusedStays(p: Parser)
    requires p.state == ExpectRequestLine && FindCrlf(p.rest) >= 0
    requires !exists m, target, v :: RequestLine(p.rest[..FindCrlf(p.rest)], m, target, v)
    ensures Parse(p).state == ExpectRequestLine && Parse(p).rest == p.rest
  {
    AcceptedIff(p.request, p.rest[..FindCrlf(p.rest)]);
    hide ProcessLine, FindCrlf, RequestLine;
  }

  lemma LineRead(r: Request)
    requires GoodRequest(r)
    ensures ProcessLine(EMPTY_REQUEST, PrintLine(r)) == (true, r.(headers := map[]))
    ensures Plain(PrintLine(r))
  {
    hide Find, ProcessLine, SetTarget, MethodText, MethodOf, Plain;
    var v := HTTP1 + [if r.version == Http11 then ONE else ZERO];
    assert v[..7] == HTTP1;
    assert PrintLine(r) == MethodText(r.method_) + [SPACE] + (r.path + r.query) + [SPACE] + v;
    LineSplit(EMPTY_REQUEST, r.method_, r.path + r.query, v);
    TargetRead(EMPTY_REQUEST.(method_ := r.method_), r);
    PlainLine(r);
  }

  lemma PlainLine(r: Request)
    requires GoodRequest(r)
    ensures Plain(PrintLine(r))
  {
  }

  lemma RequestLineStep(r: Request, after: seq<Byte>)
    requires GoodRequest(r)
    ensures Step(Parser(ExpectRequestLine, EMPTY_REQUEST, PrintLine(r) + CRLF + after)) ==
            (true, Parser(ExpectHeaders, r.(headers := map[]), after))
  {
    hide Find, FindCrlf, ProcessLine, PrintLine, GoodRequest, Plain;
    LineRead(r);
    LineFound(PrintLine(r), after);
  }

  // Printing a well-formed request and parsing it gives the request back and leaves exactly
  // the bytes after its empty line.
  lemma PrintParse(r: Request, hs: seq<Header>, after: seq<Byte>)
    requires GoodRequest(r) && GoodHeaders(hs)
    ensures Parse(Parser(ExpectRequestLine, EMPTY_REQUEST, Print(r, hs) + after)) ==
            Parser(GotAll, r.(headers := HeaderMap(hs)), after)
  {
    hide Step, GoodRequest, PrintLine, PrintHeaders, GoodHeader;
    RequestLineStep(r, PrintHeaders(hs) + after);
    assert Print(r, hs) + after == PrintLine(r) + CRLF + (PrintHeaders(hs) + after);
    HeadersRead(r.(headers := map[]), [], hs, after);
    assert [] + hs == hs;
  }

  // ... in however many pieces it arrives.
  lemma PrintFeed(r: Request, hs: seq<Header>, after: seq<Byte>, chunks: seq<seq<Byte>>)
    requires GoodRequest(r) && GoodHeaders(hs) && chunks != [] && Concat(chunks) == Print(r, hs) + after
    ensures FeedAll(Parser(ExpectRequestLine, EMPTY_REQUEST, []), chunks) ==
            Parser(GotAll, r.(headers := HeaderMap(hs)), after)
  {
    ChunksDoNotMatter(Parser(ExpectRequestLine, EMPTY_REQUEST, []), chunks);
    assert [] + Concat(chunks) == Concat(chunks);
    PrintParse(r, hs, after);
  }

  // Names being distinct, the map has every header that was printed.
  lemma {:induction false} HeaderMapHas(hs: seq<Header>, i: nat)
    requires GoodHeaders(hs) && i < |hs|
    ensures hs[i].field in HeaderMap(hs) && HeaderMap(hs)[hs[i].field] == hs[i].value
  {
    if i < |hs| - 1 { HeaderMapHas(hs[..|hs| - 1], i); }
  }

  // ---- where a request ends ----

  // The complete lines of a text, without their ends, and what follows the first n of them.
  function Lines(s: seq<Byte>): seq<seq<Byte>>
    decreases |s|
  {
    var at := FindCrlf(s);
    if at < 0 then [] else [s[..at]] + Lines(s[at + 2..])
  }

  function AfterLines(s: seq<Byte>, n: nat): (t: seq<Byte>)
    requires n <= |Lines(s)|
    ensures |t| + n <= |s|
    decreases n
  {
    if n == 0 then s else AfterLines(s[FindCrlf(s) + 2..], n - 1)
  }

  // Line n is the first without a colon.
  ghost predicate FirstColonless(lines: seq<seq<Byte>>, n: nat) {
    n < |lines| && COLON !in lines[n] && forall j :: 0 <= j < n ==> COLON in lines[j]
  }

  lemma {:induction false} SomeColonless(lines: seq<seq<Byte>>) returns (n: nat)
    ensures if n < |lines| then FirstColonless(lines, n)
            else n == |lines| && forall j :: 0 <= j < n ==> COLON in lines[j]
  {
    n := 0;
    while n < |lines| && COLON in lines[n]
      invariant n <= |lines| && forall j :: 0 <= j < n ==> COLON in lines[j]
    {
      n := n + 1;
    }
  }

  // A turn reads one line, and goes on if it has a colon; without a line it changes nothing.
  lemma HeaderTurn(p: Parser)
    requires p.state == ExpectHeaders
    ensures var lines, turn := Lines(p.rest), Step(p);
            if lines == [] then turn == (false, p) && AfterLines(p.rest, 0) == p.rest
            else
              && turn.0 == (COLON in lines[0]) && turn.1.state == (if turn.0 then ExpectHeaders else GotAll)
              && |turn.1.rest| < |p.rest| && Lines(turn.1.rest) == lines[1..]
              && AfterLines(p.rest, 1) == turn.1.rest
              && forall n: nat :: n < |lines| ==> AfterLines(p.rest, n + 1) == AfterLines(turn.1.rest, n)
  {
    hide FindCrlf, Find, WithHeaderLine;
    var lines := Lines(p.rest);
    if lines != [] {
      FindHas(lines[0], COLON);
      assert lines == [lines[0]] + Lines(Step(p).1.rest);
    }
  }

  // Header lines are read up to and with the first one without a colon.
  lemma {:induction false} HeadersEnd(p: Parser, n: nat)
    requires p.state == ExpectHeaders && n <= |Lines(p.rest)|
    requires n < |Lines(p.rest)| ==> FirstColonless(Lines(p.rest), n)
    requires n == |Lines(p.rest)| ==> forall j :: 0 <= j < n ==> COLON in Lines(p.rest)[j]
    ensures n < |Lines(p.rest)| ==> Parse(p).state == GotAll && Parse(p).rest == AfterLines(p.rest, n + 1)
    ensures n == |Lines(p.rest)| ==> Parse(p).state == ExpectHeaders && Parse(p).rest == AfterLines(p.rest, n)
    decreases |p.rest|
  {
    HeaderTurn(p);
    hide Lines, AfterLines, Step;
    var lines := Lines(p.rest);
    if lines != [] {
      var next := Step(p).1;
      if n > 0 {
        assert COLON in lines[0];
        HeadersEnd(next, n - 1);
      }
    }
  }

  // The text is a request that ends with its line n.
  ghost predicate EndsAt(text: seq<Byte>, n: nat)
    ensures EndsAt(text, n) ==> 1 <= n < |Lines(text)|
  {
    var lines := Lines(text);
    && 1 <= n < |lines| && ProcessLine(EMPTY_REQUEST, lines[0]).0
    && COLON !in lines[n] && forall j :: 1 <= j < n ==> COLON in lines[j]
  }

  // After an accepted request line the other lines are read as headers.
  lemma HeadersFollow(text: seq<Byte>) returns (next: Parser)
    requires Lines(text) != [] && ProcessLine(EMPTY_REQUEST, Lines(text)[0]).0
    ensures next.state == ExpectHeaders && Lines(text) == [Lines(text)[0]] + Lines(next.rest)
    ensures Parse(Parser(ExpectRequestLine, EMPTY_REQUEST, text)) == Parse(next)
    ensures forall n: nat :: n < |Lines(text)| ==> AfterLines(text, n + 1) == AfterLines(next.rest, n)
  {
    hide FindCrlf, Find, ProcessLine;
    next := Step(Parser(ExpectRequestLine, EMPTY_REQUEST, text)).1;
  }

  lemma ParseEndsAt(text: seq<Byte>, n: nat)
    requires EndsAt(text, n)
    ensures var p := Parse(Parser(ExpectRequestLine, EMPTY_REQUEST, text));
            p.state == GotAll && p.rest == AfterLines(text, n + 1)
  {
    hide Lines, AfterLines, Parse, ProcessLine, FindCrlf, Find;
    var next := HeadersFollow(text);
    assert forall j :: 0 <= j < |Lines(next.rest)| ==> Lines(next.rest)[j] == Lines(text)[j + 1];
    HeadersEnd(next, n - 1);
  }

  lemma ParseEndsSome(text: seq<Byte>) returns (n: nat)
    ensures Parse(Parser(ExpectRequestLine, EMPTY_REQUEST, text)).state == GotAll ==> EndsAt(text, n)
  {
    hide FindCrlf, Find, ProcessLine, AfterLines;
    n := 0;
    if Lines(text) != [] && ProcessLine(EMPTY_REQUEST, Lines(text)[0]).0 {
      hide Parse, Lines;
      var next := HeadersFollow(text);
      assert forall j :: 1 <= j < |Lines(text)| ==> Lines(next.rest)[j - 1] == Lines(text)[j];
      var m := SomeColonless(Lines(next.rest));
      HeadersEnd(next, m);
      n := m + 1;
    }
  }

  lemma ParseEnds(text: seq<Byte>)
    ensures var p := Parse(Parser(ExpectRequestLine, EMPTY_REQUEST, text));
            && (p.state == GotAll <==> exists n: nat :: EndsAt(text, n))
            && forall n: nat :: EndsAt(text, n) ==> p.rest == AfterLines(text, n + 1)
  {
    forall n: nat | EndsAt(text, n)
      ensures var p := Parse(Parser(ExpectRequestLine, EMPTY_REQUEST, text));
              p.state == GotAll && p.rest == AfterLines(text, n + 1)
    {
      ParseEndsAt(text, n);
    }
    hide *;
    var n := ParseEndsSome(text);
  }

  // However a text arrives, the request is complete exactly if a line without a colon follows
  // an accepted request line, and then ends with the first such line.
  lemma RequestEndsIff(chunks: seq<seq<Byte>>)
    requires chunks != []
    ensures var text, p := Concat(chunks), FeedAll(Parser(ExpectRequestLine, EMPTY_REQUEST, []), chunks);
            && (p.state == GotAll <==> exists n: nat :: EndsAt(text, n))
            && forall n: nat :: EndsAt(text, n) ==> p.rest == AfterLines(text, n + 1)
  {
    hide Parse, EndsAt;
    ChunksDoNotMatter(Parser(ExpectRequestLine, EMPTY_REQUEST, []), chunks);
    assert [] + Concat(chunks) == Concat(chunks);
    ParseEnds(Concat(chunks));
  }

  // A request with an empty line ends there exactly if every header line before has a colon.
  lemma EndsAtEmptyIff(text: seq<Byte>, e: nat)
    requires 1 <= e < |Lines(text)| && Lines(text)[e] == [] && ProcessLine(EMPTY_REQUEST, Lines(text)[0]).0
    ensures var p := Parse(Parser(ExpectRequestLine, EMPTY_REQUEST, text));
            && p.state == GotAll
            && (p.rest == AfterLines(text, e + 1) <==> forall j :: 1 <= j < e ==> COLON in Lines(text)[j])
  {
    hide Parse, Lines, ProcessLine, AfterLines;
    ParseEnds(text);
    var n := SomeColonless(Lines(text)[1..]);
    assert forall j :: 1 <= j < |Lines(text)| ==> Lines(text)[1..][j - 1] == Lines(text)[j];
    assert n + 1 <= e && EndsAt(text, n + 1);
    AfterShorter(text, n + 2, e + 1);
  }

  lemma {:induction false} AfterShorter(text: seq<Byte>, m: nat, n: nat)
    requires m <= n <= |Lines(text)|
    ensures |AfterLines(text, n)| + (n - m) <= |AfterLines(text, m)|
  {
    if m > 0 { AfterShorter(text[FindCrlf(text) + 2..], m - 1, n - 1); }
  }

  // One without: what follows the line without a colon, headers and all, is left for the next
  // request.
  lemma ColonlessEnds(r: Request, line: seq<Byte>, after: seq<Byte>)
    requires GoodRequest(r) && Plain(line) && COLON !in line
    ensures Parse(Parser(ExpectRequestLine, EMPTY_REQUEST, PrintLine(r) + CRLF + (line + CRLF + after))) ==
            Parser(GotAll, r.(headers := map[]), after)
  {
    hide Step, GoodRequest, PrintLine, Plain;
    RequestLineStep(r, line + CRLF + after);
    ColonlessStep(r.(headers := map[]), line, after);
  }

  // ---- two texts ----

  const EXAMPLE := Request(Get, Http11, [47, 121], [63, 122], map[])
  const EXAMPLE_HEADER := Header([97], [98])

  lemma ExampleLine()
    ensures GoodRequest(EXAMPLE) && PrintLine(EXAMPLE) + CRLF == Ascii("GET /y?z HTTP/1.1\r\n")
    ensures EXAMPLE.path == Ascii("/y") && EXAMPLE.query == Ascii("?z")
  {
  }

  lemma ExampleHeader()
    ensures GoodHeaders([EXAMPLE_HEADER]) && PrintHeaders([EXAMPLE_HEADER]) == Ascii("a: b\r\n\r\n")
    ensures HeaderMap([EXAMPLE_HEADER]) == map[Ascii("a") := Ascii("b")]
  {
    assert [EXAMPLE_HEADER][1..] == [] && [EXAMPLE_HEADER][..0] == [];
    assert [97] == Ascii("a") && [98] == Ascii("b");
  }

  // A request with one header is read.
  lemma HeaderRead()
    ensures Parse(Parser(ExpectRequestLine, EMPTY_REQUEST, Ascii("GET /y?z HTTP/1.1\r\na: b\r\n\r\n"))) ==
            Parser(GotAll, Request(Get, Http11, Ascii("/y"), Ascii("?z"), map[Ascii("a") := Ascii("b")]), [])
  {
    ExampleLine();
    ExampleHeader();
    assert Ascii("GET /y?z HTTP/1.1\r\na: b\r\n\r\n") == Ascii("GET /y?z HTTP/1.1\r\n") + Ascii("a: b\r\n\r\n") + [];
    hide Parse, PrintLine, PrintHeaders, GoodRequest, GoodHeaders, HeaderMap, Ascii;
    PrintParse(EXAMPLE, [EXAMPLE_HEADER], []);
  }

  // With a line "x" before it the header is not read.
  lemma HeaderLost()
    ensures Parse(Parser(ExpectRequestLine, EMPTY_REQUEST, Ascii("GET /y?z HTTP/1.1\r\nx\r\na: b\r\n\r\n"))) ==
            Parser(GotAll, Request(Get, Http11, Ascii("/y"), Ascii("?z"), map[]), Ascii("a: b\r\n\r\n"))
  {
    ExampleLine();
    ExampleHeader();
    assert [120] + CRLF == Ascii("x\r\n");
    assert Ascii("GET /y?z HTTP/1.1\r\nx\r\na: b\r\n\r\n") ==
      Ascii("GET /y?z HTTP/1.1\r\n") + (Ascii("x\r\n") + Ascii("a: b\r\n\r\n"));
    hide Parse, PrintLine, PrintHeaders, GoodRequest, GoodHeaders, HeaderMap, Ascii;
    ColonlessEnds(EXAMPLE, [120], PrintHeaders([EXAMPLE_HEADER]));
  }

  // ---- the parser as the program has it ----

  class HttpContext {
    var state: State
    var request: Request

    constructor ()
      ensures state == ExpectRequestLine && request == EMPTY_REQUEST
    {
      state, request := ExpectRequestLine, EMPTY_REQUEST;
    }

    method ProcessRequestLine(line: seq<Byte>) returns (succeed: bool)
      modifies `request
      ensures (succeed, request) == ProcessLine(old(request), line)
    {
      hide Find, MethodOf, SetVersion, SetTarget;
      succeed := false;
      var start, space := 0, Find(line, SPACE);
      if space == |line| { return; }
      request := request.(method_ := MethodOf(line[..space]));
      if request.method_ == Invalid { return; }
      start := space + 1;
      space := start + Find(line[start..], SPACE);
      if space == |line| { return; }
      SetTargetFrom(line, start, space);
      succeed := SetVersionFrom(line, space + 1);
    }

    // Path and query, in the stretch between the two spaces.
    method SetTargetFrom(line: seq<Byte>, start: nat, space: nat)
      requires start <= space <= |line|
      modifies `request
      ensures request == SetTarget(old(request), line[start..space])
    {
      hide Find;
      var question := start + Find(line[start..space], QUESTION);
      assert line[start..space][..question - start] == line[start..question];
      assert line[start..space][question - start..] == line[question..space];
      if question != space {
        request := request.(path := line[start..question]);
        request := request.(query := line[question..space]);
      } else {
        request := request.(path := line[start..space]);
      }
    }

    // The rest of the line must be the version.
    method SetVersionFrom(line: seq<Byte>, start: nat) returns (succeed: bool)
      requires start <= |line|
      modifies `request
      ensures (succeed, request) == SetVersion(old(request), line[start..])
    {
      hide HTTP1;
      succeed := |line| - start == 8 && line[start..|line| - 1] == HTTP1;
      assert |line| - start == 8 ==>
        line[start..][..7] == line[start..|line| - 1] && line[start..][7] == line[|line| - 1];
      if succeed {
        if line[|line| - 1] == ONE {
          request := request.(version := Http11);
        } else if line[|line| - 1] == ZERO {
          request := request.(version := Http10);
        } else {
          succeed := false;
        }
      }
    }

    // The part before the colon names the field; the value loses blanks at both ends.
    method AddHeader(line: seq<Byte>, colon: nat)
      requires colon < |line|
      modifies `request
      ensures request == WithHeaderLine(old(request), line, colon)
    {
      var from := colon + 1;
      while from < |line| && IsSpace(line[from])
        invariant colon < from <= |line|
        invariant TrimFront(line[from..]) == TrimFront(line[colon + 1..])
      {
        assert line[from..][1..] == line[from + 1..];
        from := from + 1;
      }
      var value := line[from..];
      while value != [] && IsSpace(value[|value| - 1])
        invariant TrimBack(value) == TrimBack(line[from..])
        decreases |value|
      {
        value := value[..|value| - 1];
      }
      request := request.(headers := request.headers[line[..colon] := value]);
    }

    // The body is entered only while a line is awaited; the program's loop would not end
    // otherwise.  The result says whether this very call accepted the request line.
    method ParseRequest(buf: Buffer) returns (ok: bool)
      requires buf.Valid() && (state == ExpectRequestLine || state == ExpectHeaders)
      modifies this, buf
      ensures buf.Valid() && Parser(state, request, buf.Content()) == Parse(old(Parser(state, request, buf.Content())))
      ensures ok <==> old(state) == ExpectRequestLine && state != ExpectRequestLine
    {
      hide Find, FindCrlf, ProcessLine, WithHeaderLine, Parse;
      ok := false;
      var hasMore := true;
      ghost var start := Parser(state, request, buf.Content());
      while hasMore
        invariant buf.Valid() && state != ExpectBody
        invariant hasMore ==> state == ExpectRequestLine || state == ExpectHeaders
        invariant hasMore ==> Parse(Parser(state, request, buf.Content())) == Parse(start)
        invariant !hasMore ==> Parser(state, request, buf.Content()) == Parse(start)
        invariant state == ExpectRequestLine ==> old(state) == ExpectRequestLine
        invariant ok <==> old(state) == ExpectRequestLine && state != ExpectRequestLine
        decreases hasMore, |buf.Content()|
      {
        ghost var p := Parser(state, request, buf.Content());
        var crlf := buf.FindCRLF();
        FindCrlfAgrees(buf.Content(), crlf);
        if crlf < 0 {
          hasMore := false;
        } else {
          var line := buf.bytes[buf.reader..buf.reader + crlf];
          assert line == p.rest[..crlf];
          if state == ExpectRequestLine {
            ok := ProcessRequestLine(line);
            if ok {
              buf.Retrieve(crlf + 2);
              state := ExpectHeaders;
            } else {
              hasMore := false;
            }
          } else {
            var colon := Find(line, COLON);
            if colon != |line| {
              AddHeader(line, colon);
            } else {
              state := GotAll;
              hasMore := false;
            }
            buf.Retrieve(crlf + 2);
          }
        }
        assert Step(p) == (hasMore, Parser(state, request, buf.Content()));
        ParseTurn(p);
      }
    }
  }

  lemma FindCrlfAgrees(s: seq<Byte>, at: int)
    requires at == -1 || (0 <= at && CrlfAt(s, at))
    requires forall i: nat :: CrlfAt(s, i) && (at == -1 || i < at) ==> false
    ensures FindCrlf(s) == at
  {
  }
}
