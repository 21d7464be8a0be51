/** Which requests the parser can yield at all, and which of them share a digest input. */
module HttpRequests {
  import opened Bytes
  import opened Http
  import opened Release
  import opened StopCodec
  import opened Text

  const LENGTH_HEADER: Bytes := Ascii("Content-Length")
  const VERSION: Bytes := Ascii("HTTP/1.1")

  predicate VerbFits(verb: Bytes) {
    verb != [] && forall c | c in verb :: IsUpper(c)
  }

  /** Text without a space and without a line end. */
  predicate PathFits(path: Bytes) {
    SP !in path && NoCrLf(path) && IsUtf8(path)
  }

  // --------------------------------------------------------------- a round trip

  function PrintLine(r: Request): Bytes {
    r.verb + [SP] + (r.path + [SP] + VERSION)
  }

  function PrintHeader(r: Request): Bytes {
    LENGTH_HEADER + [COLON] + Decimal(|r.body|)
  }

  /** The shortest head a request can have: no header line when there is no body. */
  function PrintHead(r: Request): Bytes {
    PrintLine(r) + if r.body == [] then [] else CRLF + PrintHeader(r)
  }

  function PrintRequest(r: Request): Bytes {
    PrintHead(r) + BLANK + r.body
  }

  /** A request that can be sent. */
  predicate Fits(r: Request) {
    VerbFits(r.verb) && PathFits(r.path) && |r.body| <= BODY_MAX && |PrintHead(r)| <= HEAD_MAX
  }

  lemma {:induction false} OneLine(s: Bytes)
    requires NoCrLf(s)
    ensures SplitLines(s) == [s]
  {
    if s != [] {
      CrLfPrefix(s);
      OneLine(s[1..]);
      assert s == [s[0]] + s[1..];
    }
  }

  lemma {:induction false} TwoLines(a: Bytes, b: Bytes)
    requires NoCrLf(a) && NoCrLf(b)
    ensures SplitLines(a + CRLF + b) == [a, b]
  {
    var s := a + CRLF + b;
    if a == [] {
      assert s == CRLF + b && s[2..] == b;
      OneLine(b);
    } else {
      CrLfPrefix(s);
      assert s[0] == a[0] && s[1] == if |a| > 1 then a[1] else 13;
      assert s[1..] == a[1..] + CRLF + b;
      TwoLines(a[1..], b);
      assert a == [a[0]] + a[1..];
    }
  }

  lemma VersionIsPlain()
    ensures SP !in VERSION && 13 !in VERSION && IsAscii(VERSION) && |VERSION| == 8
  {
    assert VERSION == [72, 84, 84, 80, 47, 49, 46, 49];
  }

  lemma VerbIsPlain(verb: Bytes)
    requires VerbFits(verb)
    ensures SP !in verb && 13 !in verb && 0 !in verb && IsAscii(verb)
  {
    assert !IsUpper(SP) && !IsUpper(13) && !IsUpper(0);
    assert forall i | 0 <= i < |verb| :: verb[i] in verb;
  }

  lemma LengthBytes()
    ensures LENGTH_HEADER == [67, 111, 110, 116, 101, 110, 116, 45, 76, 101, 110, 103, 116, 104]
  {
  }

  lemma LengthFolds()
    ensures SameFolded(LENGTH_HEADER, Ascii("content-length"))
    ensures !SameFolded(LENGTH_HEADER, Ascii("transfer-encoding"))
  {
    LengthBytes();
    assert Ascii("content-length") == [99, 111, 110, 116, 101, 110, 116, 45, 108, 101, 110, 103, 116, 104];
    assert |Ascii("transfer-encoding")| == 17;
  }

  lemma LengthName()
    ensures COLON !in LENGTH_HEADER && 13 !in LENGTH_HEADER && |LENGTH_HEADER| == 14 && IsAscii(LENGTH_HEADER)
    ensures forall c | c in LENGTH_HEADER :: IsGraphic(c)
  {
    LengthBytes();
  }

  lemma HeaderParses(r: Request)
    requires |r.body| <= BODY_MAX
    ensures HeaderLength(PrintHeader(r)) == Ok(Some(|r.body|)) && 13 !in PrintHeader(r) && IsAscii(PrintHeader(r))
  {
    var d := Decimal(|r.body|);
    DecimalValue(|r.body|);
    assert Pow10(8) == 1_0000 * Pow10(4) == 1_0000_0000;
    DecimalLength(|r.body|, 8);
    assert forall i | 0 <= i < |d| :: d[i] in d && IsDigit(d[i]);
    LengthName();
    LengthFolds();
    SplitOnceExact(PrintHeader(r), LENGTH_HEADER, d, COLON);
    assert TrimStart(d) == d && TrimEnd(d) == d;
  }

  lemma LineParses(r: Request)
    requires VerbFits(r.verb) && SP !in r.path
    ensures SplitOn(PrintLine(r), SP) == [r.verb, r.path, VERSION]
  {
    hide VERSION;
    VerbIsPlain(r.verb);
    VersionIsPlain();
    FirstPiece(r.verb, r.path + [SP] + VERSION, SP);
    FirstPiece(r.path, VERSION, SP);
    NoSeparator(VERSION, SP);
    assert [r.verb] + ([r.path] + [VERSION]) == [r.verb, r.path, VERSION];
  }

  /** The request line holds no line end: a path may end in CR, but a space follows it. */
  lemma LineHasNoCrLf(r: Request)
    requires VerbFits(r.verb) && NoCrLf(r.path)
    ensures NoCrLf(PrintLine(r))
  {
    hide VERSION;
    VerbIsPlain(r.verb);
    VersionIsPlain();
    var line := PrintLine(r);
    var p := |r.verb| + 1;
    forall i | 0 <= i < |line| - 1
      ensures !(line[i] == 13 && line[i + 1] == 10)
    {
      if i < |r.verb| {
        assert line[i] == r.verb[i];
      } else if p <= i < p + |r.path| {
        assert line[i] == r.path[i - p];
        assert i + 1 < p + |r.path| ==> line[i + 1] == r.path[i + 1 - p];
      } else if i > p + |r.path| {
        assert line[i] == VERSION[i - p - |r.path| - 1];
      }
    }
  }

  lemma LineIsUtf8(r: Request)
    requires VerbFits(r.verb)
    ensures IsUtf8(PrintLine(r)) <==> IsUtf8(r.path)
  {
    hide IsUtf8, VERSION;
    VerbIsPlain(r.verb);
    VersionIsPlain();
    AsciiIsUtf8(r.verb);
    AsciiIsUtf8(VERSION);
    Utf8Splits(r.verb, SP, r.path + [SP] + VERSION);
    Utf8Splits(r.path, SP, VERSION);
  }

  lemma HeadIsUtf8(r: Request)
    requires VerbFits(r.verb) && IsUtf8(r.path) && |r.body| <= BODY_MAX
    ensures IsUtf8(PrintHead(r))
  {
    hide IsUtf8, PrintLine, PrintHeader;
    LineIsUtf8(r);
    if r.body != [] {
      HeaderParses(r);
      AsciiIsUtf8(PrintHeader(r));
      Utf8Splits([], 10, PrintHeader(r));
      assert [] + [10] + PrintHeader(r) == [10] + PrintHeader(r);
      AsciiIsUtf8([]);
      Utf8Splits(PrintLine(r), 13, [10] + PrintHeader(r));
      assert PrintHead(r) == PrintLine(r) + [13] + ([10] + PrintHeader(r));
    } else {
      assert PrintHead(r) == PrintLine(r);
    }
  }

  lemma NotThere(b: Bytes, j: nat)
    requires j + 4 <= |b| && !(b[j] == 13 && b[j + 1] == 10 && b[j + 2] == 13)
    ensures !OccursAt(b, BLANK, j)
  {
    assert b[j..j + 4][0] == b[j] && b[j..j + 4][1] == b[j + 1] && b[j..j + 4][2] == b[j + 2];
  }

  /** The blank line is found at the end of the head, and no earlier. */
  lemma BlankAfterLine(l0: Bytes, body: Bytes)
    requires NoCrLf(l0)
    ensures FirstBlank(l0 + BLANK + body) == Some(|l0|)
  {
    var b := l0 + BLANK + body;
    assert b[|l0|..|l0| + 4] == BLANK;
    forall j: nat | j < |l0|
      ensures !OccursAt(b, BLANK, j)
    {
      assert b[j] == l0[j] && b[j + 1] == if j + 1 < |l0| then l0[j + 1] else 13;
      NotThere(b, j);
    }
    FindIs(b, BLANK, |l0|);
  }

  lemma BlankAfterHeader(l0: Bytes, l1: Bytes, body: Bytes)
    requires NoCrLf(l0) && 13 !in l1 && l1 != []
    ensures FirstBlank(l0 + CRLF + l1 + BLANK + body) == Some(|l0 + CRLF + l1|)
  {
    var head := l0 + CRLF + l1;
    var b := head + BLANK + body;
    assert b[|head|..|head| + 4] == BLANK;
    forall j: nat | j < |head|
      ensures !OccursAt(b, BLANK, j)
    {
      assert j < |l0| ==> b[j] == l0[j] && b[j + 1] == if j + 1 < |l0| then l0[j + 1] else 13;
      assert j == |l0| ==> b[j + 2] == l1[0] && l1[0] in l1;
      assert j > |l0| + 1 ==> b[j] == l1[j - |l0| - 2] && b[j] in l1;
      NotThere(b, j);
    }
    FindIs(b, BLANK, |head|);
  }

  lemma BlankAfterHead(r: Request, rest: Bytes)
    requires VerbFits(r.verb) && NoCrLf(r.path) && |r.body| <= BODY_MAX
    ensures FirstBlank(PrintHead(r) + BLANK + rest) == Some(|PrintHead(r)|)
    ensures SplitLines(PrintHead(r)) == if r.body == [] then [PrintLine(r)] else [PrintLine(r), PrintHeader(r)]
  {
    hide FirstBlank, PrintLine, PrintHeader, SplitLines;
    LineHasNoCrLf(r);
    if r.body == [] {
      assert PrintHead(r) == PrintLine(r);
      OneLine(PrintLine(r));
      BlankAfterLine(PrintLine(r), rest);
    } else {
      HeaderParses(r);
      HeaderIsNotEmpty(r);
      assert PrintHead(r) == PrintLine(r) + CRLF + PrintHeader(r);
      assert NoCrLf(PrintHeader(r)) by {
        assert forall i | 0 <= i < |PrintHeader(r)| :: PrintHeader(r)[i] in PrintHeader(r);
      }
      TwoLines(PrintLine(r), PrintHeader(r));
      BlankAfterHeader(PrintLine(r), PrintHeader(r), rest);
    }
  }

  lemma HeaderIsNotEmpty(r: Request)
    ensures PrintHeader(r) != [] && |PrintHeader(r)| == 15 + |Decimal(|r.body|)|
  {
    LengthName();
  }

  /** Every request that fits is read back as itself, whatever follows it. */
  lemma PrintedRequestParses(r: Request, more: Bytes)
    requires Fits(r)
    ensures Parse(PrintRequest(r) + more) == Ok(Some((r, |PrintRequest(r)|)))
  {
    hide FirstBlank, PrintHeader, PrintHead, HeaderLength, SplitOn, SplitLines, IsUtf8, NoCrLf, SaysNothing, SaysLength;
    var head, b := PrintHead(r), PrintRequest(r) + more;
    BlankAfterHead(r, r.body + more);
    HeadIsUtf8(r);
    LineParses(r);
    HeaderParses(r);
    hide PrintLine;
    assert b == head + BLANK + (r.body + more);
    assert b[..|head|] == head && b[|head| + 4..|head| + 4 + |r.body|] == r.body;
    var lines := SplitLines(head);
    if r.body == [] {
      assert lines[1..] == [];
    } else {
      assert lines[1..] == [PrintHeader(r)];
      HeaderLengthIff(PrintHeader(r));
      assert !SaysNothing(lines[1..][0]) && SaysLength(lines[1..][0], |r.body|);
    }
    assert LinesDeclare(lines[1..], |r.body|);
    ParseExact(b, r, |PrintRequest(r)|);
  }

  // ------------------------------------------------------ what is ever parsed

  /** Some bytes are parsed to this request. */
  ghost predicate Parsed(r: Request) {
    exists b: Bytes, n: nat :: Parse(b) == Ok(Some((r, n)))
  }

  lemma {:induction false} PiecesHaveNoSeparator(s: Bytes, sep: u8)
    ensures forall k | 0 <= k < |SplitOn(s, sep)| :: sep !in SplitOn(s, sep)[k]
  {
    if s != [] {
      PiecesHaveNoSeparator(s[1..], sep);
    }
  }

  /** A request line is its three parts and two spaces. */
  lemma LineOfParts(line: Bytes, verb: Bytes, path: Bytes, version: Bytes)
    requires SplitOn(line, SP) == [verb, path, version]
    ensures line == verb + [SP] + (path + [SP] + version) && SP !in path
  {
    SplitJoins(line, SP);
    PiecesHaveNoSeparator(line, SP);
    var parts := [verb, path, version];
    assert SP !in parts[1];
    assert parts[1..] == [path, version] && parts[1..][1..] == [version];
    assert Join([path, version], SP) == path + [SP] + version;
  }

  lemma {:induction false} TrimmedIsShorter(s: Bytes)
    ensures |TrimStart(s)| <= |s| && |TrimEnd(s)| <= |s|
  {
    if s != [] {
      TrimmedIsShorter(s[1..]);
      TrimmedIsShorter(s[..|s| - 1]);
    }
  }

  lemma {:induction false} DigitsBound(s: Bytes)
    requires AllDigits(s)
    ensures DigitsValue(s) < Pow10(|s|)
  {
    if s != [] {
      var init := s[..|s| - 1];
      DigitsBound(init);
      assert IsDigit(s[|s| - 1]);
      assert Pow10(|s|) == 10 * Pow10(|init|);
    }
  }

  /** No header line declares a length in fewer bytes than the printed one. */
  lemma ShortestHeader(line: Bytes, n: nat)
    requires HeaderLength(line) == Ok(Some(n))
    ensures |line| >= 15 + |Decimal(n)|
  {
    var (k, value) := SplitOnce(line, COLON).value;
    SplitOnceExact(line, k, value, COLON);
    TrimmedIsShorter(value);
    TrimmedIsShorter(TrimStart(value));
    var v := TrimEnd(TrimStart(value));
    DigitsBound(v);
    DecimalLength(n, |v|);
  }

  /** A head is at least as long as its first line and any other one with the line end between. */
  lemma {:induction false} HeadHoldsLines(lines: seq<Bytes>, k: nat)
    requires 0 < k < |lines|
    ensures |JoinLines(lines)| >= |lines[0]| + 2 + |lines[k]|
  {
    var tail := lines[1..];
    assert tail[k - 1] == lines[k];
    if k > 1 {
      HeadHoldsLines(tail, k - 1);
    } else if |tail| > 1 {
      assert |JoinLines(tail)| >= |tail[0]|;
    }
  }

  lemma {:induction false} SubstringHasNoCrLf(a: Bytes, b: Bytes, c: Bytes)
    requires NoCrLf(a + b + c)
    ensures NoCrLf(b)
  {
    var s := a + b + c;
    forall i | 0 <= i < |b| - 1
      ensures !(b[i] == 13 && b[i + 1] == 10)
    {
      assert s[|a| + i] == b[i] && s[|a| + i + 1] == b[i + 1];
    }
  }

  /** Around the path of a head. */
  lemma PathOfAHead(head: Bytes, verb: Bytes, path: Bytes, version: Bytes)
    requires SplitOn(SplitLines(head)[0], SP) == [verb, path, version] && IsUtf8(head)
    ensures PathFits(path) && |SplitLines(head)[0]| == |verb| + 1 + |path| + 1 + |version|
  {
    hide IsUtf8, SplitOn, SplitLines;
    var line := SplitLines(head)[0];
    LinesHaveNoCrLf(head);
    LineOfParts(line, verb, path, version);
    assert line == (verb + [SP]) + path + ([SP] + version);
    SubstringHasNoCrLf(verb + [SP], path, [SP] + version);
    var rest := head[|line|..];
    assert head == verb + [SP] + (path + [SP] + (version + rest));
    Utf8Splits(verb, SP, path + [SP] + (version + rest));
    Utf8Splits(path, SP, version + rest);
  }

  lemma ParsedFits(b: Bytes, r: Request, n: nat)
    requires Parse(b) == Ok(Some((r, n)))
    ensures Fits(r)
  {
    ParseExact(b, r, n);
    hide Parse, IsUtf8, SplitOn, SplitLines, PathFits, HeaderLength, FirstBlank, PrintHeader, SaysNothing, SaysLength;
    var head := b[..FirstBlank(b).value];
    var lines := SplitLines(head);
    var version := SplitOn(lines[0], SP)[2];
    assert SplitOn(lines[0], SP) == [r.verb, r.path, version] && |version| == 8;
    PathOfAHead(head, r.verb, r.path, version);
    VersionIsPlain();
    LinesJoin(head);
    HeaderIsNotEmpty(r);
    if r.body == [] {
      LinesHaveNoCrLf(head);
    } else {
      var k :| 0 <= k < |lines[1..]| && !SaysNothing(lines[1..][k]);
      assert lines[1..][k] == lines[k + 1] && SaysLength(lines[k + 1], |r.body|);
      HeaderLengthIff(lines[k + 1]);
      ShortestHeader(lines[k + 1], |r.body|);
      HeadHoldsLines(lines, k + 1);
    }
  }

  /** The requests the parser yields are exactly these: a method of capital letters, a path that is text
      without space and line end, and a body and shortest head within the limits. */
  lemma ParsedIff(r: Request)
    ensures Parsed(r) <==> Fits(r)
  {
    hide Parse, Fits;
    if b: Bytes, n: nat :| Parse(b) == Ok(Some((r, n))) {
      ParsedFits(b, r, n);
    }
    if Fits(r) {
      PrintedRequestParses(r, []);
    }
  }

  // --------------------------------------------------------- heads at the limit

  /** For every request with so long a head it matters how it is cut: in full buffers it is read, cut
      inside its blank line it is refused, although what was received only needed the rest. */
  lemma ChunkingMatters(r: Request) returns (full: seq<Event>, split: seq<Event>, part: Bytes)
    requires Fits(r) && |PrintHead(r)| + 3 > HEAD_MAX
    ensures Delivers(full) && Received(full) == PrintRequest(r) && Reading([], full) == Ok(r)
    ensures Delivers(split) && Received(split) == PrintRequest(r) && Reading([], split) == Err(HeadTooLong)
    ensures part <= PrintRequest(r) && Parse(part) == Err(HeadTooLong)
    ensures Parse(PrintRequest(r)) == Ok(Some((r, |PrintRequest(r)|)))
  {
    hide Parse, FirstBlank, StartsWith, PrintHead, Reading, Received, ChunksOf;
    var whole := PrintRequest(r);
    PrintedRequestParses(r, []);
    assert whole + [] == whole;
    ParseExact(whole, r, |whole|);
    BlankAfterHead(r, r.body);
    full := ChunksOf(whole);
    FullChunksRead(whole, r);
    split := SomeChunkingIsRefused(whole, r);
    part := whole[..|PrintHead(r)| + 3];
    assert part + whole[|PrintHead(r)| + 3..] == whole;
    PartBeforeBlank(part, whole[|PrintHead(r)| + 3..]);
  }

  /** And there are such requests. */
  lemma LongestHead() returns (r: Request)
    ensures Fits(r) && |PrintHead(r)| == HEAD_MAX
  {
    r := Request([80], seq(HEAD_MAX - 11, _ => 97), []);
    VersionIsPlain();
    AsciiIsUtf8(r.path);
  }

  // -------------------------------------------------------------------- digests

  /** The bytes in which a digest input holds path and body. */
  function PathAndBody(r: Request): Bytes {
    r.path + ([0] + r.body)
  }

  /** The request that ends its path at the NUL at `i` of those bytes. */
  function SplitOf(r: Request, i: nat): Request
    requires i < |PathAndBody(r)|
  {
    Request(r.verb, PathAndBody(r)[..i], PathAndBody(r)[i + 1..])
  }

  /** At its NUL at `i`, which is not the separator, those bytes split into another request that can be
      sent: what stands before it is a path, and body and head are within the limits. */
  predicate SplitsAt(r: Request, i: nat) {
    var s := PathAndBody(r);
    i < |s| && i != |r.path| && s[i] == 0 && Fits(SplitOf(r, i))
  }

  lemma ParsedMethodHasNoNul(r: Request)
    requires Parsed(r)
    ensures 0 !in r.verb
  {
    ParsedIff(r);
    VerbIsPlain(r.verb);
  }

  /** Two parsed requests have one digest input exactly when they are equal or the one is a split of the
      other. */
  lemma OneInputIff(r1: Request, r2: Request)
    requires Parsed(r1) && Parsed(r2)
    ensures RequestInput(r1.verb, r1.path, r1.body) == RequestInput(r2.verb, r2.path, r2.body) <==>
            r1 == r2 || (SplitsAt(r1, |r2.path|) && r2 == SplitOf(r1, |r2.path|))
  {
    hide Parsed, Fits, RequestInput;
    ParsedMethodHasNoNul(r1);
    ParsedMethodHasNoNul(r2);
    ParsedIff(r2);
    SameInputOneMethodIff(r1.verb, r1.path, r1.body, r2.verb, r2.path, r2.body);
    var s := PathAndBody(r1);
    assert |r2.path| == |r1.path| ==> s[..|r2.path|] == r1.path && s[|r2.path| + 1..] == r1.body;
  }

  /** Exactly when another parsed request has the digest input of a parsed one. */
  lemma SharedInputIff(r: Request)
    requires Parsed(r)
    ensures (exists r2: Request :: Parsed(r2) && r2 != r
               && RequestInput(r2.verb, r2.path, r2.body) == RequestInput(r.verb, r.path, r.body))
            <==> exists i: nat :: SplitsAt(r, i)
  {
    hide Parsed, Fits, RequestInput;
    var input := RequestInput(r.verb, r.path, r.body);
    if r2: Request :| Parsed(r2) && r2 != r && RequestInput(r2.verb, r2.path, r2.body) == input {
      OneInputIff(r, r2);
    }
    if i: nat :| SplitsAt(r, i) {
      var r2 := SplitOf(r, i);
      assert |r2.path| == i;
      ParsedIff(r2);
      OneInputIff(r, r2);
    }
  }

  /** Two parsed requests with one digest input: equal if neither path has a NUL. */
  lemma OneInputOneRequest(r1: Request, r2: Request)
    requires Parsed(r1) && Parsed(r2) && 0 !in r1.path && 0 !in r2.path
    requires RequestInput(r1.verb, r1.path, r1.body) == RequestInput(r2.verb, r2.path, r2.body)
    ensures r1 == r2
  {
    hide Parsed, RequestInput;
    ParsedMethodHasNoNul(r1);
    ParsedMethodHasNoNul(r2);
    RequestInputIsUnambiguous(r1.verb, r1.path, r1.body, r2.verb, r2.path, r2.body);
  }

  /** A NUL in a path is parsed, and the request that ends its path there has the same digest input; it is
      parsed too unless it is beyond the limits. */
  lemma NulInAPathIsAmbiguous(r: Request, i: nat)
    requires Parsed(r) && i < |r.path| && r.path[i] == 0
    ensures var r2 := Request(r.verb, r.path[..i], r.path[i + 1..] + ([0] + r.body));
            && r2 != r && RequestInput(r2.verb, r2.path, r2.body) == RequestInput(r.verb, r.path, r.body)
            && (Parsed(r2) <==> |r2.body| <= BODY_MAX && |PrintHead(r2)| <= HEAD_MAX)
  {
    hide IsUtf8, RequestInput, PrintHead, Parsed;
    ParsedIff(r);
    ParsedMethodHasNoNul(r);
    var r2 := Request(r.verb, r.path[..i], r.path[i + 1..] + ([0] + r.body));
    var s := PathAndBody(r);
    assert s[..i] == r2.path && s[i + 1..] == r2.body;
    SameInputOneMethodIff(r.verb, r.path, r.body, r2.verb, r2.path, r2.body);
    assert |r2.path| != |r.path|;
    assert r.path == r2.path + [0] + r.path[i + 1..];
    Utf8Splits(r2.path, 0, r.path[i + 1..]);
    assert forall c | c in r2.path :: c in r.path;
    assert PathFits(r2.path);
    ParsedIff(r2);
  }

  /** Two requests that are parsed and have one digest input: `P /\0a` without a body, and `P /` with the
      body `a\0`. */
  lemma TwoRequestsOneInput()
    ensures var r1, r2 := Request([80], [47, 0, 97], []), Request([80], [47], [97, 0]);
            && Parsed(r1) && Parsed(r2) && r1 != r2
            && RequestInput(r1.verb, r1.path, r1.body) == RequestInput(r2.verb, r2.path, r2.body)
  {
    hide RequestInput, Parsed;
    var r1, r2 := Request([80], [47, 0, 97], []), Request([80], [47], [97, 0]);
    VersionIsPlain();
    LengthName();
    AsciiIsUtf8(r1.path);
    AsciiIsUtf8(r2.path);
    assert Decimal(2) == [50];
    ParsedIff(r1);
    ParsedIff(r2);
    NulInAPathIsAmbiguous(r1, 1);
    assert r1.path[..1] == r2.path && r1.path[2..] + ([0] + r1.body) == r2.body;
  }

  /** A space before every NUL of the body keeps a NUL-free path unambiguous. */
  lemma SpaceBeforeNul(r: Request)
    requires Parsed(r) && 0 !in r.path
    requires forall j | 0 <= j < |r.body| && r.body[j] == 0 :: SP in r.body[..j]
    ensures forall i: nat :: !SplitsAt(r, i)
  {
    hide IsUtf8, NoCrLf, Parsed, VerbFits, PrintHead;
    var s := PathAndBody(r);
    forall i: nat
      ensures !SplitsAt(r, i)
    {
      if i < |r.path| {
        assert s[i] == r.path[i] && r.path[i] in r.path;
      } else if |r.path| < i < |s| && s[i] == 0 {
        var j := i - |r.path| - 1;
        assert SP in r.body[..j];
        assert s[i] == r.body[j] && s[..i] == r.path + ([0] + r.body[..j]);
      }
    }
  }
}
