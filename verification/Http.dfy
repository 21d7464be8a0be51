/** The HTTP/1.1 request reader in front of the gate: one parse over what has arrived so far, and the
    loop that feeds it. */
module Http {
  import opened Bytes
  import opened Release
  import opened Text

  const HEAD_MAX := 16 * 1024
  const BODY_MAX := 1024 * 1024
  const SP: u8 := 32
  const TAB: u8 := 9
  const COLON: u8 := 58
  const CRLF: Bytes := [13, 10]
  const BLANK: Bytes := [13, 10, 13, 10]

  /** `method` is a keyword here. */
  datatype Request = Request(verb: Bytes, path: Bytes, body: Bytes)

  datatype HttpError =
    | HeadTooLong | NotUtf8 | BadRequestLine | BadVersion | BadMethod | BadHeaderLine | BadHeaderName
    | TransferEncoding | BadLength | ConflictingLength | BodyTooLong
    | Trailing | Deadline | ReadFailed | Closed | TooLarge

  // ------------------------------------------------------------------- find

  predicate OccursAt(h: Bytes, n: Bytes, i: nat) {
    i + |n| <= |h| && h[i..i + |n|] == n
  }

  /** `windows(n.len()).position(..)`. */
  function FindFrom(h: Bytes, n: Bytes, i: nat): Option<nat>
    requires |n| > 0
    decreases |h| - i
  {
    if i + |n| > |h| then None
    else if h[i..i + |n|] == n then Some(i)
    else FindFrom(h, n, i + 1)
  }

  lemma {:induction false} FindExact(h: Bytes, n: Bytes, i: nat)
    requires |n| > 0
    ensures FindFrom(h, n, i).Some? ==>
              var e := FindFrom(h, n, i).value;
              i <= e && OccursAt(h, n, e) && forall j | i <= j < e :: !OccursAt(h, n, j)
    ensures FindFrom(h, n, i).None? ==> forall j | i <= j :: !OccursAt(h, n, j)
    decreases |h| - i
  {
    if i + |n| <= |h| && h[i..i + |n|] != n {
      FindExact(h, n, i + 1);
    }
  }

  lemma OccursInPrefix(h: Bytes, more: Bytes, n: Bytes, i: nat)
    requires i + |n| <= |h|
    ensures OccursAt(h + more, n, i) <==> OccursAt(h, n, i)
  {
    assert (h + more)[i..i + |n|] == h[i..i + |n|];
  }

  /** The first occurrence is found wherever nothing earlier occurs. */
  lemma FindIs(h: Bytes, n: Bytes, e: nat)
    requires |n| > 0 && OccursAt(h, n, e) && forall j: nat | j < e :: !OccursAt(h, n, j)
    ensures FindFrom(h, n, 0) == Some(e)
  {
    FindExact(h, n, 0);
    hide FindFrom;
    if FindFrom(h, n, 0).Some? {
      assert OccursAt(h, n, FindFrom(h, n, 0).value);
    }
  }

  /** A first occurrence stays the first when bytes are appended; a first occurrence that lies in the
      shorter string was already the first there. */
  lemma FindIsStable(h: Bytes, more: Bytes, n: Bytes)
    requires |n| > 0
    ensures FindFrom(h, n, 0).Some? ==> FindFrom(h + more, n, 0) == FindFrom(h, n, 0)
    ensures FindFrom(h, n, 0).None? && FindFrom(h + more, n, 0).Some? ==> FindFrom(h + more, n, 0).value + |n| > |h|
  {
    hide FindFrom, OccursAt;
    FindExact(h, n, 0);
    FindExact(h + more, n, 0);
    if FindFrom(h, n, 0).Some? {
      var e := FindFrom(h, n, 0).value;
      OccursInside(h, n, e);
      OccursInPrefix(h, more, n, e);
      forall j: nat | j < e
        ensures !OccursAt(h + more, n, j)
      {
        OccursInPrefix(h, more, n, j);
      }
      FindIs(h + more, n, e);
    } else if FindFrom(h + more, n, 0).Some? && FindFrom(h + more, n, 0).value + |n| <= |h| {
      OccursInPrefix(h, more, n, FindFrom(h + more, n, 0).value);
    }
  }

  lemma OccursInside(h: Bytes, n: Bytes, i: nat)
    requires OccursAt(h, n, i)
    ensures i + |n| <= |h|
  {
  }

  // ------------------------------------------------------------------- head

  /** `str::split("\r\n")`. */
  function SplitLines(s: Bytes): (lines: seq<Bytes>)
    ensures lines != []
  {
    if s == [] then [[]]
    else if CRLF <= s then [[]] + SplitLines(s[2..])
    else
      var rest := SplitLines(s[1..]);
      [[s[0]] + rest[0]] + rest[1..]
  }

  /** `str::split_once`. */
  function SplitOnce(s: Bytes, sep: u8): Option<(Bytes, Bytes)> {
    if s == [] then None
    else if s[0] == sep then Some(([], s[1..]))
    else
      var (k, v) :- SplitOnce(s[1..], sep);
      Some(([s[0]] + k, v))
  }

  predicate IsUpper(c: u8) {
    65 <= c <= 90
  }

  predicate IsBlank(c: u8) {
    c == SP || c == TAB
  }

  function TrimStart(s: Bytes): Bytes {
    if s != [] && IsBlank(s[0]) then TrimStart(s[1..]) else s
  }

  function TrimEnd(s: Bytes): Bytes {
    if s != [] && IsBlank(s[|s| - 1]) then TrimEnd(s[..|s| - 1]) else s
  }

  function Lower(c: u8): u8 {
    if IsUpper(c) then c + 32 else c
  }

  predicate SameFolded(a: Bytes, b: Bytes) {
    |a| == |b| && forall i | 0 <= i < |a| :: Lower(a[i]) == Lower(b[i])
  }

  /** One header line: what it says about the length, if anything. */
  function HeaderLength(line: Bytes): Result<Option<nat>, HttpError> {
    match SplitOnce(line, COLON)
    case None => Err(BadHeaderLine)
    case Some((k, value)) =>
      if k == [] || !(forall c | c in k :: IsGraphic(c)) then Err(BadHeaderName)
      else if SameFolded(k, Ascii("transfer-encoding")) then Err(TransferEncoding)
      else if SameFolded(k, Ascii("content-length")) then
        var v := TrimEnd(TrimStart(value));
        if v == [] || |v| > 8 || !AllDigits(v) then Err(BadLength) else Ok(Some(DigitsValue(v)))
      else Ok(None)
  }

  /** The header lines in order; a second, different length is refused. */
  function HeadersLength(lines: seq<Bytes>, length: Option<nat>): Result<Option<nat>, HttpError> {
    if lines == [] then Ok(length) else
      var n :- HeaderLength(lines[0]);
      if n.None? then HeadersLength(lines[1..], length)
      else if length.Some? && length != n then Err(ConflictingLength)
      else HeadersLength(lines[1..], n)
  }

  datatype Head = Head(verb: Bytes, path: Bytes, length: nat)

  function RequestLine(line: Bytes): Result<(Bytes, Bytes), HttpError> {
    var parts := SplitOn(line, SP);
    if |parts| != 3 then Err(BadRequestLine)
    else if parts[2] != Ascii("HTTP/1.1") && parts[2] != Ascii("HTTP/1.0") then Err(BadVersion)
    else if parts[0] == [] || !(forall c | c in parts[0] :: IsUpper(c)) then Err(BadMethod)
    else Ok((parts[0], parts[1]))
  }

  function ParseHead(head: Bytes): Result<Head, HttpError> {
    if !IsUtf8(head) then Err(NotUtf8) else
      var lines := SplitLines(head);
      var (verb, path) :- RequestLine(lines[0]);
      var length :- HeadersLength(lines[1..], None);
      var n := if length.Some? then length.value else 0;
      if n > BODY_MAX then Err(BodyTooLong) else Ok(Head(verb, path, n))
  }

  // ------------------------------------------------------------------ parse

  function FirstBlank(buf: Bytes): Option<nat> {
    FindFrom(buf, BLANK, 0)
  }

  lemma BlankFits(buf: Bytes)
    ensures FirstBlank(buf).Some? ==> FirstBlank(buf).value + 4 <= |buf|
  {
    FindExact(buf, BLANK, 0);
  }

  function Parse(buf: Bytes): Result<Option<(Request, nat)>, HttpError> {
    match FirstBlank(buf)
    case None => if |buf| > HEAD_MAX then Err(HeadTooLong) else Ok(None)
    case Some(headEnd) =>
      BlankFits(buf);
      if headEnd > HEAD_MAX then Err(HeadTooLong) else
        var h :- ParseHead(buf[..headEnd]);
        var start := headEnd + 4;
        if |buf| < start + h.length then Ok(None)
        else Ok(Some((Request(h.verb, h.path, buf[start..start + h.length]), start + h.length)))
  }

  /** The parse as the service runs it, header line by header line. */
  method ParseRequest(buf: Bytes) returns (r: Result<Option<(Request, nat)>, HttpError>)
    ensures r == Parse(buf)
  {
    hide FirstBlank, SplitLines, RequestLine, HeaderLength;
    BlankFits(buf);
    var end := FirstBlank(buf);
    if end.None? {
      return if |buf| > HEAD_MAX then Err(HeadTooLong) else Ok(None);
    }
    var headEnd := end.value;
    if headEnd > HEAD_MAX {
      return Err(HeadTooLong);
    }
    var head := buf[..headEnd];
    if !IsUtf8(head) {
      return Err(NotUtf8);
    }
    var lines := SplitLines(head);
    var line := RequestLine(lines[0]);
    if line.Err? {
      return Err(line.error);
    }
    var length: Option<nat> := None;
    for i := 1 to |lines|
      invariant HeadersLength(lines[1..], None) == HeadersLength(lines[i..], length)
    {
      assert lines[i..][0] == lines[i] && lines[i..][1..] == lines[i + 1..];
      var n := HeaderLength(lines[i]);
      if n.Err? {
        return Err(n.error);
      }
      if n.value.Some? {
        if length.Some? && length != n.value {
          return Err(ConflictingLength);
        }
        length := n.value;
      }
    }
    var n := if length.Some? then length.value else 0;
    if n > BODY_MAX {
      return Err(BodyTooLong);
    }
    var start := headEnd + 4;
    if |buf| < start + n {
      return Ok(None);
    }
    return Ok(Some((Request(line.value.0, line.value.1, buf[start..start + n]), start + n)));
  }

  // -------------------------------------------------------------- one request

  /** The line is a header of this name and value: a colon after a nonempty name of printable characters. */
  predicate IsHeader(line: Bytes, name: Bytes, value: Bytes) {
    && line == name + [COLON] + value && COLON !in name
    && name != [] && forall c | c in name :: 0x21 <= c <= 0x7E
  }

  /** The name is this one, given in lower case, up to the case of ASCII letters. */
  predicate IsNamed(name: Bytes, lower: Bytes) {
    && |name| == |lower|
    && forall i | 0 <= i < |name| :: name[i] == lower[i] || (65 <= name[i] <= 90 && name[i] + 32 == lower[i])
  }

  predicate AllBlank(s: Bytes) {
    forall c | c in s :: c == 32 || c == 9
  }

  /** Blanks, one to eight digits of value `n`, blanks. */
  ghost predicate ReadsAs(value: Bytes, n: nat) {
    exists front: Bytes, digits: Bytes, back: Bytes :: Surrounds(value, front, digits, back) && DigitsValue(digits) == n
  }

  ghost predicate Surrounds(value: Bytes, front: Bytes, digits: Bytes, back: Bytes) {
    && value == front + digits + back && AllBlank(front) && AllBlank(back)
    && 1 <= |digits| <= 8 && AllDigits(digits)
  }

  /** A header line that has to do with neither length nor encoding of the body. */
  ghost predicate SaysNothing(line: Bytes) {
    exists name, value :: IsHeader(line, name, value)
      && !IsNamed(name, Ascii("transfer-encoding")) && !IsNamed(name, Ascii("content-length"))
  }

  /** A header line that gives the length. */
  ghost predicate SaysLength(line: Bytes, n: nat) {
    exists name, value :: IsHeader(line, name, value) && IsNamed(name, Ascii("content-length")) && ReadsAs(value, n)
  }

  lemma LowerTexts()
    ensures |Ascii("transfer-encoding")| == 17 && |Ascii("content-length")| == 14
    ensures forall i | 0 <= i < 17 :: !IsUpper(Ascii("transfer-encoding")[i])
    ensures forall i | 0 <= i < 14 :: !IsUpper(Ascii("content-length")[i])
  {
    assert Ascii("content-length") == [99, 111, 110, 116, 101, 110, 116, 45, 108, 101, 110, 103, 116, 104];
    assert Ascii("transfer-encoding") ==
        [116, 114, 97, 110, 115, 102, 101, 114, 45, 101, 110, 99, 111, 100, 105, 110, 103];
  }

  lemma FoldedIsNamed(name: Bytes, lower: Bytes)
    requires forall i | 0 <= i < |lower| :: !IsUpper(lower[i])
    ensures SameFolded(name, lower) <==> IsNamed(name, lower)
  {
  }

  lemma {:induction false} TrimStartSplits(s: Bytes) returns (front: Bytes)
    ensures s == front + TrimStart(s) && AllBlank(front)
  {
    front := [];
    if s != [] && IsBlank(s[0]) {
      front := TrimStartSplits(s[1..]);
      front := [s[0]] + front;
    }
  }

  lemma {:induction false} TrimEndSplits(s: Bytes) returns (back: Bytes)
    ensures s == TrimEnd(s) + back && AllBlank(back)
  {
    back := [];
    if s != [] && IsBlank(s[|s| - 1]) {
      back := TrimEndSplits(s[..|s| - 1]);
      back := back + [s[|s| - 1]];
    }
  }

  lemma {:induction false} TrimStartOf(front: Bytes, rest: Bytes)
    requires AllBlank(front) && (rest != [] ==> !IsBlank(rest[0]))
    ensures TrimStart(front + rest) == rest
  {
    if front != [] {
      assert front[0] in front && forall c | c in front[1..] :: c in front;
      assert (front + rest)[1..] == front[1..] + rest;
      TrimStartOf(front[1..], rest);
    } else {
      assert front + rest == rest;
    }
  }

  lemma {:induction false} TrimEndOf(rest: Bytes, back: Bytes)
    requires AllBlank(back) && (rest != [] ==> !IsBlank(rest[|rest| - 1]))
    ensures TrimEnd(rest + back) == rest
  {
    if back != [] {
      var init := back[..|back| - 1];
      assert back[|back| - 1] in back && forall c | c in init :: c in back;
      assert (rest + back)[..|rest + back| - 1] == rest + init;
      TrimEndOf(rest, init);
    } else {
      assert rest + back == rest;
    }
  }

  lemma SurroundedIsTrimmed(value: Bytes, front: Bytes, digits: Bytes, back: Bytes)
    requires Surrounds(value, front, digits, back)
    ensures TrimEnd(TrimStart(value)) == digits
  {
    hide TrimStart, TrimEnd;
    assert IsDigit(digits[0]) && IsDigit(digits[|digits| - 1]);
    assert value == front + (digits + back);
    TrimStartOf(front, digits + back);
    TrimEndOf(digits, back);
  }

  /** Trimming leaves exactly what stands between the blanks. */
  lemma TrimmedReads(value: Bytes, n: nat)
    ensures ReadsAs(value, n) <==>
            var v := TrimEnd(TrimStart(value)); v != [] && |v| <= 8 && AllDigits(v) && DigitsValue(v) == n
  {
    hide TrimStart, TrimEnd, DigitsValue, AllBlank, AllDigits;
    var front := TrimStartSplits(value);
    var v := TrimEnd(TrimStart(value));
    var back := TrimEndSplits(TrimStart(value));
    assert value == front + v + back;
    if v != [] && |v| <= 8 && AllDigits(v) {
      assert Surrounds(value, front, v, back);
    }
    if front2: Bytes, digits: Bytes, back2: Bytes :|
      Surrounds(value, front2, digits, back2) && DigitsValue(digits) == n
    {
      SurroundedIsTrimmed(value, front2, digits, back2);
    }
  }

  /** What a header line is read as, in its own bytes. */
  lemma HeaderLengthIff(line: Bytes)
    ensures HeaderLength(line) == Ok(None) <==> SaysNothing(line)
    ensures forall n: nat :: HeaderLength(line) == Ok(Some(n)) <==> SaysLength(line, n)
  {
    hide SplitOnce, TrimStart, TrimEnd, SameFolded, IsNamed, DigitsValue, ReadsAs;
    LowerTexts();
    forall name, value
      ensures SplitOnce(line, COLON) == Some((name, value)) <==> line == name + [COLON] + value && COLON !in name
    {
      SplitOnceExact(line, name, value, COLON);
    }
    if SplitOnce(line, COLON).Some? {
      var (name, value) := SplitOnce(line, COLON).value;
      FoldedIsNamed(name, Ascii("transfer-encoding"));
      FoldedIsNamed(name, Ascii("content-length"));
      assert forall c | c in name :: IsGraphic(c) <==> 0x21 <= c <= 0x7E;
      forall n: nat
        ensures ReadsAs(value, n) <==>
                var v := TrimEnd(TrimStart(value)); v != [] && |v| <= 8 && AllDigits(v) && DigitsValue(v) == n
      {
        TrimmedReads(value, n);
      }
      assert IsNamed(name, Ascii("content-length")) ==> !IsNamed(name, Ascii("transfer-encoding")) by {
        OneName(name);
      }
      assert IsHeader(line, name, value) <==> name != [] && forall c | c in name :: IsGraphic(c);
    }
  }

  lemma OneName(name: Bytes)
    ensures !(IsNamed(name, Ascii("content-length")) && IsNamed(name, Ascii("transfer-encoding")))
  {
    LowerTexts();
  }

  /** Why a header line is refused, in its own bytes. */
  lemma HeaderRefusalIff(line: Bytes)
    ensures HeaderLength(line) == Err(BadHeaderLine) <==> COLON !in line
    ensures HeaderLength(line) == Err(BadHeaderName) <==>
            exists name, value :: line == name + [COLON] + value && COLON !in name && !IsHeader(line, name, value)
    ensures HeaderLength(line) == Err(TransferEncoding) <==>
            exists name, value :: IsHeader(line, name, value) && IsNamed(name, Ascii("transfer-encoding"))
    ensures HeaderLength(line) == Err(BadLength) <==>
            exists name, value :: IsHeader(line, name, value) && IsNamed(name, Ascii("content-length"))
                                  && forall n: nat :: !ReadsAs(value, n)
  {
    hide SplitOnce, TrimStart, TrimEnd, SameFolded, IsNamed, DigitsValue, ReadsAs;
    LowerTexts();
    forall name, value
      ensures SplitOnce(line, COLON) == Some((name, value)) <==> line == name + [COLON] + value && COLON !in name
    {
      SplitOnceExact(line, name, value, COLON);
    }
    SplitOnceNone(line, COLON);
    if SplitOnce(line, COLON).Some? {
      var (name, value) := SplitOnce(line, COLON).value;
      FoldedIsNamed(name, Ascii("transfer-encoding"));
      FoldedIsNamed(name, Ascii("content-length"));
      assert forall c | c in name :: IsGraphic(c) <==> 0x21 <= c <= 0x7E;
      forall n: nat
        ensures ReadsAs(value, n) <==>
                var v := TrimEnd(TrimStart(value)); v != [] && |v| <= 8 && AllDigits(v) && DigitsValue(v) == n
      {
        TrimmedReads(value, n);
      }
      var v := TrimEnd(TrimStart(value));
      assert v != [] && |v| <= 8 && AllDigits(v) ==> ReadsAs(value, DigitsValue(v));
      assert IsNamed(name, Ascii("content-length")) ==> !IsNamed(name, Ascii("transfer-encoding")) by {
        OneName(name);
      }
      assert IsHeader(line, name, value) <==> name != [] && forall c | c in name :: IsGraphic(c);
    }
  }

  lemma {:induction false} SplitOnceNone(s: Bytes, sep: u8)
    ensures SplitOnce(s, sep).None? <==> sep !in s
  {
    if s != [] {
      SplitOnceNone(s[1..], sep);
      assert s == [s[0]] + s[1..];
    }
  }

  /** Every line is a header, none is a transfer encoding, and those that give a length all give `n`. */
  ghost predicate LinesDeclare(lines: seq<Bytes>, n: nat) {
    forall k | 0 <= k < |lines| :: SaysNothing(lines[k]) || SaysLength(lines[k], n)
  }

  ghost predicate DeclaresNone(lines: seq<Bytes>) {
    forall k | 0 <= k < |lines| :: SaysNothing(lines[k])
  }

  lemma {:induction false} HeadersExact(lines: seq<Bytes>, length: Option<nat>)
    ensures forall n: nat :: HeadersLength(lines, length) == Ok(Some(n)) <==>
              LinesDeclare(lines, n) && length in {None, Some(n)} && (length.None? ==> !DeclaresNone(lines))
    ensures HeadersLength(lines, length) == Ok(None) <==> length.None? && DeclaresNone(lines)
  {
    hide HeaderLength, SaysNothing, SaysLength;
    if lines != [] {
      HeaderLengthIff(lines[0]);
      var tail := lines[1..];
      assert forall k | 0 < k < |lines| :: lines[k] == tail[k - 1];
      assert forall k | 0 <= k < |tail| :: tail[k] == lines[k + 1];
      var first := HeaderLength(lines[0]);
      if first.Ok? {
        var next := if first.value.Some? then first.value else length;
        HeadersExact(tail, next);
        forall n: nat
          ensures LinesDeclare(lines, n) <==> first.value in {None, Some(n)} && LinesDeclare(tail, n)
        {
        }
        assert DeclaresNone(lines) <==> first.value.None? && DeclaresNone(tail);
      }
    }
  }

  /** `b` starts with the request `r` in `n` bytes: a request line and header lines before the first
      blank line, and after it a body of exactly the length the headers give, or none. */
  ghost predicate StartsWith(b: Bytes, r: Request, n: nat) {
    var end := FirstBlank(b);
    && end.Some? && end.value <= HEAD_MAX && end.value + 4 <= n <= |b|
    && IsUtf8(b[..end.value])
    && var lines := SplitLines(b[..end.value]);
    && SplitOn(lines[0], SP) in {[r.verb, r.path, Ascii("HTTP/1.1")], [r.verb, r.path, Ascii("HTTP/1.0")]}
    && r.verb != [] && (forall c | c in r.verb :: 65 <= c <= 90)
    && r.body == b[end.value + 4..n] && |r.body| <= BODY_MAX
    && (LinesDeclare(lines[1..], |r.body|) && (DeclaresNone(lines[1..]) ==> r.body == []))
  }

  /** The parser yields a request exactly when the bytes start with it. */
  lemma ParseExact(b: Bytes, r: Request, n: nat)
    ensures Parse(b) == Ok(Some((r, n))) <==> StartsWith(b, r, n)
  {
    hide FirstBlank, SplitLines, HeaderLength, HeadersLength, DigitsValue, SaysNothing, SaysLength;
    BlankFits(b);
    var end := FirstBlank(b);
    if end.Some? {
      var lines := SplitLines(b[..end.value]);
      HeadersExact(lines[1..], None);
      RequestLineExact(lines[0], r.verb, r.path);
      assert DeclaresNone(lines[1..]) ==> LinesDeclare(lines[1..], 0);
    }
  }

  lemma RequestLineExact(line: Bytes, verb: Bytes, path: Bytes)
    ensures RequestLine(line) == Ok((verb, path)) <==>
            && SplitOn(line, SP) in {[verb, path, Ascii("HTTP/1.1")], [verb, path, Ascii("HTTP/1.0")]}
            && verb != [] && (forall c | c in verb :: 65 <= c <= 90)
  {
    var parts := SplitOn(line, SP);
    if |parts| == 3 {
      assert parts == [parts[0], parts[1], parts[2]];
    }
  }

  /** Up to line `k` every line is read, and those that give a length give one. */
  ghost predicate GoodUpTo(lines: seq<Bytes>, length: Option<nat>, k: nat) {
    k <= |lines| && exists n: nat :: Agree(lines[..k], length, n)
  }

  ghost predicate Agree(lines: seq<Bytes>, length: Option<nat>, n: nat) {
    length in {None, Some(n)} && LinesDeclare(lines, n)
  }

  /** The header lines are refused for the first that is not read, or that gives another length than one
      before it. */
  lemma {:induction false} HeadersRefusal(lines: seq<Bytes>, length: Option<nat>)
    returns (k: nat)
    requires HeadersLength(lines, length).Err?
    ensures k < |lines| && GoodUpTo(lines, length, k)
    ensures || HeaderLength(lines[k]) == Err(HeadersLength(lines, length).error)
            || (HeadersLength(lines, length) == Err(ConflictingLength) && !GoodUpTo(lines, length, k + 1)
                && exists n: nat :: SaysLength(lines[k], n))
  {
    hide HeaderLength, SaysNothing, SaysLength;
    HeaderLengthIff(lines[0]);
    var first := HeaderLength(lines[0]);
    var given := if length.Some? then length.value else 0;
    assert lines[..0] == [] && Agree([], length, given);
    if first.Err? {
      k := 0;
    } else if first.value.Some? && length.Some? && length != first.value {
      k := 0;
      assert lines[..1] == [lines[0]] && [lines[0]][0] == lines[0];
    } else {
      var next := if first.value.Some? then first.value else length;
      var j := HeadersRefusal(lines[1..], next);
      k := j + 1;
      OneLineMore(lines, length, next, j);
      OneLineMore(lines, length, next, j + 1);
    }
  }

  lemma OneLineMore(lines: seq<Bytes>, length: Option<nat>, next: Option<nat>, j: nat)
    requires lines != [] && j <= |lines| - 1
    requires HeaderLength(lines[0]).Ok? && (length.Some? ==> HeaderLength(lines[0]).value in {None, length})
    requires next == if HeaderLength(lines[0]).value.Some? then HeaderLength(lines[0]).value else length
    ensures GoodUpTo(lines[1..], next, j) <==> GoodUpTo(lines, length, j + 1)
  {
    hide HeaderLength, SaysNothing, SaysLength;
    HeaderLengthIff(lines[0]);
    forall n: nat
      ensures LinesDeclare(lines[..j + 1], n) <==>
              (SaysNothing(lines[0]) || SaysLength(lines[0], n)) && LinesDeclare(lines[1..][..j], n)
    {
      var all, tail := lines[..j + 1], lines[1..][..j];
      assert all == [lines[0]] + tail;
      assert forall i | 0 <= i < j :: tail[i] == all[i + 1];
      assert forall i | 0 < i < |all| :: all[i] == tail[i - 1];
    }
    if GoodUpTo(lines[1..], next, j) {
      var n: nat :| Agree(lines[1..][..j], next, n);
      assert Agree(lines[..j + 1], length, n);
    }
    if GoodUpTo(lines, length, j + 1) {
      var n: nat :| Agree(lines[..j + 1], length, n);
      assert Agree(lines[1..][..j], next, n);
    }
  }

  /** What is asked of a head, in order. */
  ghost predicate HeadCheck(k: nat, head: Bytes) {
    var parts := SplitOn(SplitLines(head)[0], SP);
    var length := HeadersLength(SplitLines(head)[1..], None);
    match k
    case 1 => IsUtf8(head)
    case 2 => |parts| == 3
    case 3 => |parts| == 3 ==> parts[2] in {Ascii("HTTP/1.1"), Ascii("HTTP/1.0")}
    case 4 => parts[0] != [] && forall c | c in parts[0] :: 65 <= c <= 90
    case 5 => length.Ok?
    case 6 => length.Ok? && length.value.Some? ==> length.value.value <= BODY_MAX
    case _ => true
  }

  function HeadRefusalAt(k: nat, head: Bytes): HttpError {
    match k
    case 1 => NotUtf8
    case 2 => BadRequestLine
    case 3 => BadVersion
    case 4 => BadMethod
    case 5 =>
      var length := HeadersLength(SplitLines(head)[1..], None);
      if length.Err? then length.error else BadHeaderLine
    case _ => BodyTooLong
  }

  /** A head is refused for the first of these that fails, and taken when none does. */
  lemma HeadRefusalIsFirstFailure(head: Bytes, k: nat)
    requires 1 <= k <= 6 && forall j | 1 <= j < k :: HeadCheck(j, head)
    ensures !HeadCheck(k, head) ==> ParseHead(head) == Err(HeadRefusalAt(k, head))
    ensures k == 6 && HeadCheck(k, head) ==> ParseHead(head).Ok?
  {
    hide IsUtf8, SplitLines, SplitOn, HeadersLength;
    assert 1 < k ==> HeadCheck(1, head);
    assert 2 < k ==> HeadCheck(2, head);
    assert 3 < k ==> HeadCheck(3, head);
    assert 4 < k ==> HeadCheck(4, head);
    assert 5 < k ==> HeadCheck(5, head);
  }

  // ------------------------------------------------------- what the pieces are

  ghost function JoinLines(lines: seq<Bytes>): Bytes {
    if lines == [] then [] else if |lines| == 1 then lines[0] else lines[0] + CRLF + JoinLines(lines[1..])
  }

  lemma JoinLonger(c: u8, rest: seq<Bytes>)
    requires rest != []
    ensures JoinLines([[c] + rest[0]] + rest[1..]) == [c] + JoinLines(rest)
  {
    var lines := [[c] + rest[0]] + rest[1..];
    assert lines[1..] == rest[1..];
    if |rest| > 1 {
      var tail := JoinLines(rest[1..]);
      assert ([c] + rest[0]) + CRLF + tail == [c] + (rest[0] + CRLF + tail);
    }
  }

  /** The lines of a head, joined again, are the head. */
  lemma {:induction false} LinesJoin(s: Bytes)
    ensures JoinLines(SplitLines(s)) == s
  {
    if s != [] {
      if CRLF <= s {
        LinesJoin(s[2..]);
        assert s == [] + CRLF + s[2..];
        assert SplitLines(s)[1..] == SplitLines(s[2..]);
      } else {
        LinesJoin(s[1..]);
        JoinLonger(s[0], SplitLines(s[1..]));
        assert s == [s[0]] + s[1..];
      }
    }
  }

  /** The name of a header ends at the first colon. */
  lemma {:induction false} SplitOnceExact(s: Bytes, k: Bytes, v: Bytes, sep: u8)
    ensures SplitOnce(s, sep) == Some((k, v)) <==> s == k + [sep] + v && sep !in k
  {
    if s != [] {
      assert s == [s[0]] + s[1..];
      if k == [] {
        assert k + [sep] + v == [sep] + v;
        assert s == [sep] + v <==> s[0] == sep && s[1..] == v;
      } else {
        assert k == [k[0]] + k[1..];
        SplitOnceExact(s[1..], k[1..], v, sep);
        assert k + [sep] + v == [k[0]] + (k[1..] + [sep] + v);
        assert s == k + [sep] + v <==> s[0] == k[0] && s[1..] == k[1..] + [sep] + v;
      }
    }
  }

  /** No CR is directly followed by LF. */
  predicate NoCrLf(s: Bytes) {
    forall i | 0 <= i < |s| - 1 :: !(s[i] == 13 && s[i + 1] == 10)
  }

  lemma CrLfPrefix(s: Bytes)
    ensures CRLF <= s <==> |s| >= 2 && s[0] == 13 && s[1] == 10
  {
    assert |s| >= 2 ==> s[..2] == [s[0], s[1]];
  }

  /** The lines hold no line end themselves, and the first is the start of the head. */
  lemma {:induction false} LinesHaveNoCrLf(s: Bytes)
    ensures forall k | 0 <= k < |SplitLines(s)| :: NoCrLf(SplitLines(s)[k])
    ensures SplitLines(s)[0] <= s
  {
    if s != [] {
      if CRLF <= s {
        LinesHaveNoCrLf(s[2..]);
      } else {
        LinesHaveNoCrLf(s[1..]);
        var first := SplitLines(s[1..])[0];
        CrLfPrefix(s);
        assert NoCrLf([s[0]] + first);
      }
    }
  }

  // ---------------------------------------------------------------- stability

  /** Once a request is parsed, bytes that arrive later do not change it; and a refusal made with the
      blank line in sight is final. */
  lemma ParseIsStable(b: Bytes, more: Bytes)
    ensures Parse(b).Ok? && Parse(b).value.Some? ==> Parse(b + more) == Parse(b)
    ensures Parse(b).Err? && FirstBlank(b).Some? ==> Parse(b + more) == Parse(b)
  {
    hide ParseHead, FirstBlank;
    FindIsStable(b, more, BLANK);
    BlankFits(b);
    BlankIsFind(b);
    BlankIsFind(b + more);
    if FirstBlank(b).Some? {
      var e := FirstBlank(b).value;
      assert (b + more)[..e] == b[..e];
      var h := ParseHead(b[..e]);
      if h.Ok? && |b| >= e + 4 + h.value.length {
        assert (b + more)[e + 4..e + 4 + h.value.length] == b[e + 4..e + 4 + h.value.length];
      }
    }
  }

  /** With the blank line in sight the parser asks for more exactly when more can still make a request of
      what is not one yet; everything else is refused. Without it, exactly while a head may be so long. */
  lemma AsksForMoreIff(b: Bytes)
    ensures FirstBlank(b).None? ==> (Parse(b) == Ok(None) <==> |b| <= HEAD_MAX)
    ensures FirstBlank(b).Some? ==>
              (Parse(b) == Ok(None) <==>
               && !(exists r: Request, n: nat :: StartsWith(b, r, n))
               && exists more: Bytes, r: Request, n: nat :: StartsWith(b + more, r, n))
  {
    hide ParseHead, FirstBlank, StartsWith;
    if FirstBlank(b).Some? {
      BlankFits(b);
      if Parse(b) == Ok(None) {
        var length := ParseHead(b[..FirstBlank(b).value]).value.length;
        var more := seq(length, _ => 0);
        FindIsStable(b, more, BLANK);
        BlankIsFind(b);
        BlankIsFind(b + more);
        assert (b + more)[..FirstBlank(b).value] == b[..FirstBlank(b).value];
        var found := Parse(b + more).value.value;
        ParseExact(b + more, found.0, found.1);
        forall r: Request, n: nat
          ensures !StartsWith(b, r, n)
        {
          ParseExact(b, r, n);
        }
      }
      if more: Bytes, r: Request, n: nat :| StartsWith(b + more, r, n) {
        ParseExact(b + more, r, n);
        ParseIsStable(b, more);
      }
      if Parse(b).Ok? && Parse(b).value.Some? {
        ParseExact(b, Parse(b).value.value.0, Parse(b).value.value.1);
      }
    }
  }

  lemma BlankIsFind(b: Bytes)
    ensures FirstBlank(b) == FindFrom(b, BLANK, 0)
  {
  }

  /** The end of `b` from `e` on is a proper part of a blank line that may still be completed. */
  predicate Straddles(b: Bytes, e: nat) {
    e < |b| < e + 4 && b[e..] == BLANK[..|b| - e]
  }

  /** Without a blank line in sight the refusal of a long head is final exactly when no blank line is
      half received at an allowed place: else up to three more bytes can still bring it. */
  lemma HeadTooLongIsFinalIff(b: Bytes)
    requires FirstBlank(b).None? && |b| > HEAD_MAX
    ensures Parse(b) == Err(HeadTooLong)
    ensures (forall more: Bytes :: Parse(b + more) == Err(HeadTooLong)) <==>
              !exists e: nat :: e <= HEAD_MAX && Straddles(b, e)
  {
    hide ParseHead;
    if e: nat :| e <= HEAD_MAX && Straddles(b, e) {
      var more := BLANK[|b| - e..];
      var whole := b + more;
      assert whole[e..e + 4] == BLANK by {
        assert whole[e..e + 4] == b[e..] + more;
      }
      assert OccursAt(whole, BLANK, e);
      FindExact(whole, BLANK, 0);
      ParseHeadIsNotTooLong(whole[..FirstBlank(whole).value]);
      assert Parse(b + more) != Err(HeadTooLong);
    } else {
      forall more: Bytes
        ensures Parse(b + more) == Err(HeadTooLong)
      {
        if FirstBlank(b + more).Some? && FirstBlank(b + more).value <= HEAD_MAX {
          LateBlankStraddles(b, more);
        }
      }
    }
  }

  lemma LateBlankStraddles(b: Bytes, more: Bytes)
    requires FirstBlank(b).None? && FirstBlank(b + more).Some? && FirstBlank(b + more).value < |b|
    ensures Straddles(b, FirstBlank(b + more).value)
  {
    FindIsStable(b, more, BLANK);
    FindExact(b + more, BLANK, 0);
    var e := FirstBlank(b + more).value;
    assert (b + more)[e..e + 4] == BLANK;
    assert b[e..] == (b + more)[e..e + 4][..|b| - e];
  }

  lemma ParseHeadIsNotTooLong(head: Bytes)
    ensures ParseHead(head) != Err(HeadTooLong)
  {
    var lines := SplitLines(head);
    HeadersNotTooLong(lines[1..], None);
  }

  lemma {:induction false} HeadersNotTooLong(lines: seq<Bytes>, length: Option<nat>)
    ensures HeadersLength(lines, length) != Err(HeadTooLong)
  {
    if lines != [] {
      var n := HeaderLength(lines[0]);
      HeadersNotTooLong(lines[1..], length);
      if n.Ok? {
        HeadersNotTooLong(lines[1..], n.value);
      }
    }
  }

  // ------------------------------------------------------------------ reading

  /** What one wait on the connection gives: the deadline, an error, or a chunk, empty at its end. */
  datatype Event = DeadlinePassed | Failure | Chunk(bytes: Bytes)

  const CHUNK_MAX := 4096

  /** The connection: what it will still deliver. */
  class Stream {
    var events: seq<Event>

    constructor (events: seq<Event>)
      ensures this.events == events
    {
      this.events := events;
    }

    /** A connection with nothing more to say runs into the deadline. */
    method Next() returns (e: Event)
      modifies this
      ensures e == (if old(events) == [] then DeadlinePassed else old(events)[0])
      ensures events == if old(events) == [] then [] else old(events)[1..]
    {
      if events == [] {
        return DeadlinePassed;
      }
      e := events[0];
      events := events[1..];
    }
  }

  /** What reading comes to, with `buf` received and `events` to come. */
  function Reading(buf: Bytes, events: seq<Event>): Result<Request, HttpError>
    decreases |events|
  {
    var parsed :- Parse(buf);
    match parsed
    case Some((req, used)) => if used != |buf| then Err(Trailing) else Ok(req)
    case None =>
      if events == [] then Err(Deadline) else
        match events[0]
        case DeadlinePassed => Err(Deadline)
        case Failure => Err(ReadFailed)
        case Chunk(bytes) =>
          if bytes == [] then Err(Closed)
          else if |buf + bytes| > HEAD_MAX + BODY_MAX + 4 then Err(TooLarge)
          else Reading(buf + bytes, events[1..])
  }

  method ReadRequest(s: Stream) returns (r: Result<Request, HttpError>)
    modifies s
    ensures r == Reading([], old(s.events))
  {
    hide Parse;
    var buf: Bytes := [];
    while true
      invariant Reading(buf, s.events) == Reading([], old(s.events))
      decreases |s.events|
    {
      var parsed := ParseRequest(buf);
      if parsed.Err? {
        return Err(parsed.error);
      }
      if parsed.value.Some? {
        var (req, used) := parsed.value.value;
        return if used != |buf| then Err(Trailing) else Ok(req);
      }
      var e := s.Next();
      match e {
        case DeadlinePassed =>
          return Err(Deadline);
        case Failure =>
          return Err(ReadFailed);
        case Chunk(bytes) =>
          if bytes == [] {
            return Err(Closed);
          }
          buf := buf + bytes;
          if |buf| > HEAD_MAX + BODY_MAX + 4 {
            return Err(TooLarge);
          }
      }
    }
  }

  /** All events carry bytes, no more than fit the buffer of one read. */
  ghost predicate Delivers(events: seq<Event>) {
    forall k | 0 <= k < |events| :: events[k].Chunk? && 0 < |events[k].bytes| <= CHUNK_MAX
  }

  ghost function Received(events: seq<Event>): Bytes {
    if events == [] then []
    else if events[0].Chunk? then events[0].bytes + Received(events[1..])
    else Received(events[1..])
  }

  /** Whatever the chunks, a request is returned only when the bytes received are exactly that one
      request, the first `k` chunks, with nothing after it. */
  lemma {:induction false} ReadIsOneRequest(buf: Bytes, events: seq<Event>) returns (k: nat)
    requires Reading(buf, events).Ok?
    requires forall j | 0 <= j < |events| && events[j].Chunk? :: |events[j].bytes| <= CHUNK_MAX
    ensures k <= |events| && Delivers(events[..k])
    ensures var whole := buf + Received(events[..k]);
            StartsWith(whole, Reading(buf, events).value, |whole|)
    decreases |events|
  {
    hide Parse, StartsWith;
    if Parse(buf).value.Some? {
      k := 0;
      ParseExact(buf, Parse(buf).value.value.0, |buf|);
      assert buf + Received(events[..0]) == buf;
    } else {
      var bytes := events[0].bytes;
      var j := ReadIsOneRequest(buf + bytes, events[1..]);
      k := j + 1;
      assert events[..k][1..] == events[1..][..j] && events[..k][0] == events[0];
      assert forall i | 0 < i < k :: events[..k][i] == events[1..][..j][i - 1];
      assert buf + Received(events[..k]) == (buf + bytes) + Received(events[1..][..j]);
    }
  }

  /** Why reading may stop after the first `k` chunks, with `b` received. */
  ghost predicate StopsWith(e: HttpError, b: Bytes, events: seq<Event>, k: nat)
    requires k <= |events|
  {
    match Parse(b)
    case Err(why) => e == why
    case Ok(Some((_, used))) => used != |b| && e == Trailing
    case Ok(None) =>
      if k == |events| || events[k].DeadlinePassed? then e == Deadline
      else if events[k].Failure? then e == ReadFailed
      else if events[k].bytes == [] then e == Closed
      else |b + events[k].bytes| > HEAD_MAX + BODY_MAX + 4 && e == TooLarge
  }

  /** Reading that is refused stops at the first chunk after which it has a reason to. */
  lemma {:induction false} RefusalHasAReason(buf: Bytes, events: seq<Event>) returns (k: nat)
    requires Reading(buf, events).Err?
    ensures k <= |events| && StopsWith(Reading(buf, events).error, buf + Received(events[..k]), events, k)
    ensures forall j | 0 <= j < k ::
              events[j].Chunk? && events[j].bytes != [] && Parse(buf + Received(events[..j])) == Ok(None)
    decreases |events|
  {
    hide Parse;
    k := 0;
    assert events[..0] == [] && buf + Received([]) == buf;
    if Parse(buf) == Ok(None) && events != [] && events[0].Chunk? && events[0].bytes != []
       && |buf + events[0].bytes| <= HEAD_MAX + BODY_MAX + 4 {
      var bytes := events[0].bytes;
      var i := RefusalHasAReason(buf + bytes, events[1..]);
      k := i + 1;
      forall j | 0 < j <= k
        ensures buf + Received(events[..j]) == (buf + bytes) + Received(events[1..][..j - 1])
      {
        assert events[..j][1..] == events[1..][..j - 1];
      }
      assert forall j | 0 < j < k :: events[j] == events[1..][j - 1];
    }
  }

  /** Having `n` bytes of a request whose head ends at `e` is no reason to refuse it. */
  predicate Lands(e: nat, n: nat) {
    n <= HEAD_MAX || e + 4 <= n
  }

  /** So wherever one of these chunks ends. */
  ghost predicate AllLand(e: nat, buf: Bytes, events: seq<Event>) {
    forall k | 0 <= k <= |events| :: Lands(e, |buf + Received(events[..k])|)
  }

  lemma LandsFirst(e: nat, buf: Bytes, events: seq<Event>)
    requires events != [] && events[0].Chunk?
    ensures AllLand(e, buf, events) <==> Lands(e, |buf|) && AllLand(e, buf + events[0].bytes, events[1..])
  {
    var bytes, rest := events[0].bytes, events[1..];
    forall k: nat | k <= |rest|
      ensures (buf + bytes) + Received(rest[..k]) == buf + Received(events[..k + 1])
    {
      assert events[..k + 1][1..] == rest[..k];
    }
    assert buf + Received(events[..0]) == buf;
    if Lands(e, |buf|) && AllLand(e, buf + bytes, rest) {
      forall k | 0 <= k <= |events|
        ensures Lands(e, |buf + Received(events[..k])|)
      {
        assert k > 0 ==> Lands(e, |(buf + bytes) + Received(rest[..k - 1])|);
      }
    }
  }

  /** Exactly which chunkings of one request are read: those without a chunk that ends past the head limit
      and before the end of the blank line. The others are refused. */
  lemma {:induction false} ChunkingReadsIff(buf: Bytes, events: seq<Event>, r: Request)
    requires Delivers(events)
    requires var whole := buf + Received(events); StartsWith(whole, r, |whole|)
    ensures Reading(buf, events) ==
            if AllLand(FirstBlank(buf + Received(events)).value, buf, events) then Ok(r) else Err(HeadTooLong)
    decreases |events|
  {
    hide Parse, StartsWith, FirstBlank;
    var whole := buf + Received(events);
    WithinLimits(whole, r);
    var e := FirstBlank(whole).value;
    ParseExact(whole, r, |whole|);
    assert buf + Received(events[..0]) == buf;
    if !Lands(e, |buf|) {
      PartBeforeBlank(buf, Received(events));
    } else if events == [] {
      assert whole == buf;
      assert forall k | 0 <= k <= |events| :: events[..k] == [];
    } else {
      assert whole == (buf + events[0].bytes) + Received(events[1..]);
      PartOfARequest(buf, Received(events), r);
      ChunkingReadsIff(buf + events[0].bytes, events[1..], r);
      LandsFirst(e, buf, events);
    }
  }

  /** One request delivered in any chunks is returned, if its head leaves three bytes of the limit. */
  lemma AnyChunkingReads(buf: Bytes, events: seq<Event>, r: Request)
    requires Delivers(events)
    requires var whole := buf + Received(events);
             StartsWith(whole, r, |whole|) && FirstBlank(whole).value + 3 <= HEAD_MAX
    ensures Reading(buf, events) == Ok(r)
  {
    hide Reading, StartsWith, FirstBlank;
    ChunkingReadsIff(buf, events, r);
  }

  /** A part that ends before the blank line does, and past the limit. */
  lemma PartBeforeBlank(buf: Bytes, rest: Bytes)
    requires FirstBlank(buf + rest).Some? && HEAD_MAX < |buf| < FirstBlank(buf + rest).value + 4
    ensures Parse(buf) == Err(HeadTooLong)
  {
    FindIsStable(buf, rest, BLANK);
    BlankIsFind(buf);
    BlankIsFind(buf + rest);
    BlankFits(buf);
    hide FirstBlank, FindFrom, ParseHead;
  }

  lemma WithinLimits(whole: Bytes, r: Request)
    requires StartsWith(whole, r, |whole|)
    ensures |whole| <= HEAD_MAX + BODY_MAX + 4
    ensures FirstBlank(whole).Some? && FirstBlank(whole).value <= HEAD_MAX && FirstBlank(whole).value + 4 <= |whole|
  {
    BlankFits(whole);
    hide FirstBlank, SplitLines, SplitOn;
  }

  /** A proper part of one request is read as incomplete. */
  lemma PartOfARequest(buf: Bytes, rest: Bytes, r: Request)
    requires rest != [] && StartsWith(buf + rest, r, |buf + rest|) && Lands(FirstBlank(buf + rest).value, |buf|)
    ensures Parse(buf) == Ok(None)
  {
    ParseExact(buf + rest, r, |buf + rest|);
    ParseIsStable(buf, rest);
    FindIsStable(buf, rest, BLANK);
    BlankIsFind(buf);
    BlankIsFind(buf + rest);
    BlankFits(buf);
    hide ParseHead, FirstBlank, FindFrom, StartsWith;
    if Parse(buf).Ok? && Parse(buf).value.Some? {
      UsedFits(buf);
    }
  }

  lemma UsedFits(buf: Bytes)
    requires Parse(buf).Ok? && Parse(buf).value.Some?
    ensures Parse(buf).value.value.1 <= |buf|
  {
    hide ParseHead, FirstBlank;
  }

  /** The bytes in full chunks. */
  ghost function ChunksOf(b: Bytes): seq<Event>
    decreases |b|
  {
    if b == [] then [] else if |b| <= CHUNK_MAX then [Chunk(b)] else [Chunk(b[..CHUNK_MAX])] + ChunksOf(b[CHUNK_MAX..])
  }

  lemma {:induction false} ChunksDeliver(b: Bytes)
    ensures Delivers(ChunksOf(b)) && Received(ChunksOf(b)) == b
    decreases |b|
  {
    if |b| > CHUNK_MAX {
      var rest := ChunksOf(b[CHUNK_MAX..]);
      ChunksDeliver(b[CHUNK_MAX..]);
      assert ChunksOf(b)[1..] == rest;
      assert forall k | 0 < k < |ChunksOf(b)| :: ChunksOf(b)[k] == rest[k - 1];
      assert b == b[..CHUNK_MAX] + b[CHUNK_MAX..];
    } else if b != [] {
      assert ChunksOf(b)[1..] == [];
    }
  }

  lemma {:induction false} ReceivedConcat(a: seq<Event>, b: seq<Event>)
    ensures Received(a + b) == Received(a) + Received(b)
  {
    if a == [] {
      assert a + b == b;
    } else {
      assert (a + b)[1..] == a[1..] + b;
      ReceivedConcat(a[1..], b);
    }
  }

  /** Bytes without a blank line, more of them than a head may have, end the reading wherever they are cut. */
  lemma {:induction false} LongHeadStops(buf: Bytes, p: Bytes, rest: seq<Event>)
    requires FirstBlank(buf + p).None? && |buf + p| > HEAD_MAX
    ensures Reading(buf, ChunksOf(p) + rest) == Err(HeadTooLong)
    decreases |p|
  {
    FindIsStable(buf, p, BLANK);
    BlankIsFind(buf);
    BlankIsFind(buf + p);
    hide FirstBlank, FindFrom, ParseHead;
    if |buf| <= HEAD_MAX {
      var n := if |p| <= CHUNK_MAX then |p| else CHUNK_MAX;
      var events := ChunksOf(p) + rest;
      assert events[0] == Chunk(p[..n]) && events[1..] == ChunksOf(p[n..]) + rest;
      assert (buf + p[..n]) + p[n..] == buf + p;
      LongHeadStops(buf + p[..n], p[n..], rest);
    }
  }

  lemma {:induction false} ReceivedOfChunks(b: Bytes, k: nat)
    requires k <= |ChunksOf(b)|
    ensures |Received(ChunksOf(b)[..k])| == if k * CHUNK_MAX < |b| then k * CHUNK_MAX else |b|
    decreases k
  {
    var c := ChunksOf(b);
    if k == 0 {
      assert c[..0] == [];
    } else if |b| <= CHUNK_MAX {
      assert c[..1][1..] == [];
    } else {
      ReceivedOfChunks(b[CHUNK_MAX..], k - 1);
      assert c[..k][1..] == ChunksOf(b[CHUNK_MAX..])[..k - 1];
    }
  }

  /** Every request there is comes through if each read fills the buffer: the limit is a number of whole
      buffers. */
  lemma FullChunksRead(whole: Bytes, r: Request)
    requires StartsWith(whole, r, |whole|)
    ensures Delivers(ChunksOf(whole)) && Received(ChunksOf(whole)) == whole
    ensures Reading([], ChunksOf(whole)) == Ok(r)
  {
    hide Reading, FirstBlank, ChunksOf, StartsWith, Received, Delivers;
    WithinLimits(whole, r);
    ChunksDeliver(whole);
    var e, events := FirstBlank(whole).value, ChunksOf(whole);
    forall k | 0 <= k <= |events|
      ensures Lands(e, |[] + Received(events[..k])|)
    {
      ReceivedOfChunks(whole, k);
      ChunkLands(e, whole, k);
    }
    assert [] + Received(events) == whole;
    ChunkingReadsIff([], events, r);
  }

  lemma ChunkLands(e: nat, whole: Bytes, k: nat)
    requires e <= HEAD_MAX && e + 4 <= |whole|
    ensures Lands(e, if k * CHUNK_MAX < |whole| then k * CHUNK_MAX else |whole|)
  {
    assert HEAD_MAX == 4 * CHUNK_MAX;
  }

  /** A head whose blank line reaches past the limit: some chunking ends inside that blank line, and is
      refused. */
  lemma SomeChunkingIsRefused(whole: Bytes, r: Request) returns (events: seq<Event>)
    requires StartsWith(whole, r, |whole|) && FirstBlank(whole).value + 3 > HEAD_MAX
    ensures Delivers(events) && Received(events) == whole && Reading([], events) == Err(HeadTooLong)
  {
    hide Reading, ChunksOf, StartsWith, Received, OccursAt;
    WithinLimits(whole, r);
    var e := FirstBlank(whole).value;
    var front, back := whole[..e + 3], whole[e + 3..];
    events := ChunksOf(front) + ChunksOf(back);
    ChunksDeliver(front);
    ChunksDeliver(back);
    ReceivedConcat(ChunksOf(front), ChunksOf(back));
    assert front + back == whole;
    FindIsStable(front, back, BLANK);
    BlankIsFind(front);
    BlankIsFind(whole);
    BlankFits(front);
    hide FindFrom;
    assert [] + front == front;
    LongHeadStops([], front, ChunksOf(back));
  }

  /** One request is returned however it is cut into chunks exactly when its head leaves three bytes of the
      limit to the blank line. */
  lemma EveryChunkingReadsIff(whole: Bytes, r: Request)
    requires StartsWith(whole, r, |whole|)
    ensures (forall events: seq<Event> | Delivers(events) && Received(events) == whole :: Reading([], events) == Ok(r))
            <==> FirstBlank(whole).value + 3 <= HEAD_MAX
  {
    hide Reading, FirstBlank, Received;
    if FirstBlank(whole).value + 3 <= HEAD_MAX {
      forall events: seq<Event> | Delivers(events) && Received(events) == whole
        ensures Reading([], events) == Ok(r)
      {
        assert [] + Received(events) == whole;
        AnyChunkingReads([], events, r);
      }
    } else {
      var events := SomeChunkingIsRefused(whole, r);
    }
  }
}
