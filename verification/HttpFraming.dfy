/** The Content-Length framing of the game socket server (section 8.6 of RFC 9110, section 6 of RFC 9112):
    write_response prints a frame, read_header and read_body put one together again from chunks.
    A char stands for a byte. */
module HttpFraming {
  import opened Wrappers
  import opened Strings

  const CRLF := "\r\n"
  const BLANK := "\r\n\r\n"
  const CL := "Content-Length: "
  const STATUS_LINE := "HTTP/1.1 200 OK"
  const TYPE_LINE := "Content-Type: application/json"
  const KEEP_LINE := "Connection: keep-alive"
  const SIZE_LIMIT: nat := 0x1_0000_0000_0000_0000

  // ---------- Decimal numbers ----------

  function Digit(d: nat): (c: char)
    requires d < 10
    ensures IsDigit(c) && DigitValue(c) == d
  {
    ('0' as int + d) as char
  }

  predicate IsDigit(c: char) { '0' <= c <= '9' }

  function DigitValue(c: char): nat
    requires IsDigit(c)
  {
    c as int - '0' as int
  }

  /** std::to_string. */
  function Decimal(n: nat): (s: string)
    ensures s != [] && forall i :: 0 <= i < |s| ==> IsDigit(s[i])
  {
    if n < 10 then [Digit(n)] else Decimal(n / 10) + [Digit(n % 10)]
  }

  function Number(s: string): nat
    requires forall i :: 0 <= i < |s| ==> IsDigit(s[i])
  {
    if s == [] then 0 else Number(s[..|s| - 1]) * 10 + DigitValue(s[|s| - 1])
  }

  lemma {:induction false} NumberInvertsDecimal(n: nat)
    ensures Number(Decimal(n)) == n
  {
    if n >= 10 {
      NumberInvertsDecimal(n / 10);
      var s := Decimal(n);
      assert s[..|s| - 1] == Decimal(n / 10);
    }
  }

  function DigitCount(s: string): (k: nat)
    ensures k <= |s| && (forall i :: 0 <= i < k ==> IsDigit(s[i])) && (k < |s| ==> !IsDigit(s[k]))
  {
    if s == [] || !IsDigit(s[0]) then 0 else 1 + DigitCount(s[1..])
  }

  /** std::stoul on decimal digits: the leading digits count; None stands for its exceptions. */
  function Stoul(s: string): Option<nat> {
    var k := DigitCount(s);
    if k == 0 || Number(s[..k]) >= SIZE_LIMIT then None else Some(Number(s[..k]))
  }

  lemma StoulInvertsDecimal(n: nat)
    requires n < SIZE_LIMIT
    ensures Stoul(Decimal(n)) == Some(n)
  {
    var s := Decimal(n);
    assert DigitCount(s) == |s|;
    assert s[..|s|] == s;
    NumberInvertsDecimal(n);
  }

  lemma EndFollowsLength(h: string, pos: nat, end: nat)
    requires OccursAt(h, CL, pos) && OccursAt(h, CRLF, end) && pos <= end
    ensures end >= pos + |CL|
  {
    OccurrenceChars(h, CL, pos);
    OccurrenceChars(h, CRLF, end);
    assert forall k :: 0 <= k < |CL| ==> CL[k] != '\r';
    forall x | pos <= x < pos + |CL| ensures h[x] != '\r' {
      assert h[pos + (x - pos)] == CL[x - pos];
    }
    assert h[end + 0] == '\r';
  }

  // ---------- The frame ----------

  function LengthLine(body: string): string { CL + Decimal(|body|) }

  function Header(body: string): string {
    STATUS_LINE + CRLF + (TYPE_LINE + CRLF + (LengthLine(body) + CRLF + (KEEP_LINE + BLANK)))
  }

  /** write_response. */
  function Frame(body: string): string { Header(body) + body }

  datatype Head = Ignored | Failed | Complete(body: string) | Partial(part: string, remaining: nat)

  /** read_header on the first chunk. */
  function ParseHead(chunk: string): Head {
    var pos := Find(chunk, CL, 0);
    var end := if pos.Some? then Find(chunk, CRLF, pos.value) else None;
    assert end.Some? ==> end.value >= pos.value + |CL| by {
      if end.Some? {
        EndFollowsLength(chunk, pos.value, end.value);
      }
    }
    var length := if end.Some? then Stoul(chunk[pos.value + |CL|..end.value]) else Some(0);
    var blank := Find(chunk, BLANK, 0);
    if length.None? then Failed
    else if blank.None? then Ignored
    else
      var part := chunk[blank.value + |BLANK|..];
      if |part| >= length.value then Complete(part[..length.value])
      else Partial(part, length.value - |part|)
  }

  /** read_body: whole chunks are appended until the remaining count is met. */
  function ReadBody(message: string, remaining: nat, chunks: seq<string>): Option<string>
    decreases |chunks|
  {
    if chunks == [] then None
    else if |chunks[0]| >= remaining then Some(message + chunks[0])
    else ReadBody(message + chunks[0], remaining - |chunks[0]|, chunks[1..])
  }

  /** The request a connection delivers from its first chunks, if it delivers one. */
  function ReadFrame(chunks: seq<string>): Option<string> {
    if chunks == [] then None
    else
      match ParseHead(chunks[0])
      case Complete(body) => Some(body)
      case Partial(part, remaining) => ReadBody(part, remaining, chunks[1..])
      case _ => None
  }

  function Concat(chunks: seq<string>): string {
    if chunks == [] then "" else chunks[0] + Concat(chunks[1..])
  }

  // ---------- First occurrences in the header ----------

  predicate NoReturn(s: string) { forall i :: 0 <= i < |s| ==> s[i] != '\r' }

  /** A line of h: it starts at a and a line end follows. */
  predicate LineAt(h: string, a: nat, line: string) {
    OccursAt(h, line + CRLF, a) && NoReturn(line)
  }

  lemma LineChars(h: string, a: nat, line: string)
    requires LineAt(h, a, line)
    ensures a + |line| + 2 <= |h| && h[a + |line|] == '\r' && h[a + |line| + 1] == '\n'
    ensures forall i :: a <= i < a + |line| ==> h[i] == line[i - a]
  {
    var lc := line + CRLF;
    assert h[a..a + |lc|] == lc;
    assert forall k :: 0 <= k < |lc| ==> h[a + k] == lc[k];
    assert forall i :: a <= i < a + |line| ==> h[i] == lc[i - a];
    assert lc[|line|] == '\r' && lc[|line| + 1] == '\n';
    assert h[a + |line|] == lc[|line|] && h[a + |line| + 1] == lc[|line| + 1];
  }

  /** The length header does not start in a line that does not contain it. */
  lemma NoLengthIn(h: string, a: nat, line: string)
    requires LineAt(h, a, line)
    requires forall k :: 0 <= k < |line| && line[k] == 'C' ==> k + 8 < |line| && line[k + 8] != 'L'
    ensures forall i :: a <= i < a + |line| + 2 ==> !OccursAt(h, CL, i)
  {
    LineChars(h, a, line);
    assert CL[0] == 'C' && CL[8] == 'L';
    forall i | a <= i < a + |line| + 2 ensures !OccursAt(h, CL, i) {
      if i < a + |line| && line[i - a] == 'C' {
        assert h[i + 8] == line[i - a + 8];
        Mismatch(h, CL, i, 8);
      } else {
        assert i < a + |line| ==> h[i] == line[i - a];
        Mismatch(h, CL, i, 0);
      }
    }
  }

  /** No line end starts inside a line. */
  lemma NoEndIn(h: string, a: nat, line: string)
    requires LineAt(h, a, line)
    ensures forall i :: a <= i < a + |line| ==> !OccursAt(h, CRLF, i)
    ensures OccursAt(h, CRLF, a + |line|)
  {
    LineChars(h, a, line);
    forall i | a <= i < a + |line| ensures !OccursAt(h, CRLF, i) {
      assert h[i] == line[i - a];
      Mismatch(h, CRLF, i, 0);
    }
    assert h[a + |line|..a + |line| + 2] == CRLF;
  }

  /** No blank line starts in a line that is followed by something other than a line end. */
  lemma NoBlankIn(h: string, a: nat, line: string)
    requires LineAt(h, a, line) && a + |line| + 2 < |h| && h[a + |line| + 2] != '\r'
    ensures forall i :: a <= i < a + |line| + 2 ==> !OccursAt(h, BLANK, i)
  {
    LineChars(h, a, line);
    forall i | a <= i < a + |line| + 2 ensures !OccursAt(h, BLANK, i) {
      if i == a + |line| {
        Mismatch(h, BLANK, i, 2);
      } else {
        assert i < a + |line| ==> h[i] == line[i - a];
        Mismatch(h, BLANK, i, 0);
      }
    }
  }

  lemma FixedLines()
    ensures |STATUS_LINE| == 15 && |TYPE_LINE| == 30 && |KEEP_LINE| == 22 && |CL| == 16 && |BLANK| == 4
    ensures NoReturn(STATUS_LINE) && NoReturn(TYPE_LINE) && NoReturn(KEEP_LINE) && NoReturn(CL)
    ensures forall k :: 0 <= k < |STATUS_LINE| ==> STATUS_LINE[k] != 'C'
    ensures forall k :: 0 <= k < |TYPE_LINE| && TYPE_LINE[k] == 'C' ==> k == 0
    ensures TYPE_LINE[8] == 'T' && TYPE_LINE[0] == 'C' && KEEP_LINE[0] == 'C'
  {
  }

  // ---------- The round trip ----------

  /** Where the lines of the header start in any bytes that begin with it. */
  lemma HeaderLines(h: string, body: string)
    requires Header(body) <= h
    ensures LineAt(h, 0, STATUS_LINE) && LineAt(h, 17, TYPE_LINE) && LineAt(h, 49, LengthLine(body))
    ensures var k := 51 + |LengthLine(body)|;
            LineAt(h, k, KEEP_LINE) && OccursAt(h, BLANK, k + 22) && |Header(body)| == k + 26
  {
    FixedLines();
    var l := LengthLine(body);
    var d := Decimal(|body|);
    assert NoReturn(l) by {
      assert forall i :: 0 <= i < |d| ==> IsDigit(d[i]);
      assert forall i :: 0 <= i < |l| ==> l[i] == if i < |CL| then CL[i] else d[i - |CL|];
    }
    assert h[..|Header(body)|] == Header(body);
    SplitLine(h, 0, STATUS_LINE, TYPE_LINE + CRLF + (l + CRLF + (KEEP_LINE + BLANK)));
    SplitLine(h, 17, TYPE_LINE, l + CRLF + (KEEP_LINE + BLANK));
    SplitLine(h, 49, l, KEEP_LINE + BLANK);
    SplitLast(h, 51 + |l|, KEEP_LINE);
  }

  lemma SplitLine(h: string, a: nat, line: string, rest: string)
    requires OccursAt(h, line + CRLF + rest, a)
    ensures OccursAt(h, line + CRLF, a) && OccursAt(h, rest, a + |line| + 2)
  {
    var w := line + CRLF + rest;
    assert h[a..a + |line| + 2] == w[..|line| + 2];
    assert h[a + |line| + 2..a + |w|] == w[|line| + 2..];
  }

  lemma SplitLast(h: string, a: nat, line: string)
    requires OccursAt(h, line + BLANK, a)
    ensures OccursAt(h, line + CRLF, a) && OccursAt(h, BLANK, a + |line|)
  {
    var w := line + BLANK;
    assert h[a..a + |line| + 2] == w[..|line| + 2] == line + CRLF;
    assert h[a + |line|..a + |w|] == w[|line|..];
  }

  /** The first occurrences in bytes that begin with a header are the ones in the header. */
  lemma HeaderFinds(h: string, body: string)
    requires Header(body) <= h
    ensures Find(h, CL, 0) == Some(49)
    ensures Find(h, CRLF, 49) == Some(49 + |LengthLine(body)|)
    ensures Find(h, BLANK, 0) == Some(|Header(body)| - 4)
  {
    LengthFound(h, body);
    HeaderLines(h, body);
    NoEndIn(h, 49, LengthLine(body));
    FindIs(h, CRLF, 49, 49 + |LengthLine(body)|);
    BlankFound(h, body);
  }

  lemma LengthFound(h: string, body: string)
    requires Header(body) <= h
    ensures Find(h, CL, 0) == Some(49)
  {
    FixedLines();
    HeaderLines(h, body);
    NoLengthIn(h, 0, STATUS_LINE);
    NoLengthIn(h, 17, TYPE_LINE);
    LineChars(h, 49, LengthLine(body));
    assert h[49..49 + |CL|] == CL;
    FindIs(h, CL, 0, 49);
  }

  lemma BlankFound(h: string, body: string)
    requires Header(body) <= h
    ensures Find(h, BLANK, 0) == Some(|Header(body)| - 4)
  {
    NoBlankInStatus(h, body);
    NoBlankInType(h, body);
    NoBlankInLength(h, body);
    NoBlankInKeep(h, body);
    FindIs(h, BLANK, 0, 73 + |LengthLine(body)|);
  }

  lemma NoBlankInStatus(h: string, body: string)
    requires Header(body) <= h
    ensures forall i :: 0 <= i < 17 ==> !OccursAt(h, BLANK, i)
  {
    FixedLines();
    HeaderLines(h, body);
    LineChars(h, 17, TYPE_LINE);
    assert h[17] == 'C';
    NoBlankIn(h, 0, STATUS_LINE);
  }

  lemma NoBlankInType(h: string, body: string)
    requires Header(body) <= h
    ensures forall i :: 17 <= i < 49 ==> !OccursAt(h, BLANK, i)
  {
    FixedLines();
    HeaderLines(h, body);
    LineChars(h, 49, LengthLine(body));
    assert h[49] == 'C';
    NoBlankIn(h, 17, TYPE_LINE);
  }

  lemma NoBlankInLength(h: string, body: string)
    requires Header(body) <= h
    ensures forall i :: 49 <= i < 51 + |LengthLine(body)| ==> !OccursAt(h, BLANK, i)
  {
    FixedLines();
    HeaderLines(h, body);
    LineChars(h, 51 + |LengthLine(body)|, KEEP_LINE);
    assert h[51 + |LengthLine(body)|] == 'C';
    NoBlankIn(h, 49, LengthLine(body));
  }

  lemma NoBlankInKeep(h: string, body: string)
    requires Header(body) <= h
    ensures var k := 51 + |LengthLine(body)|;
            && (forall i :: k <= i < k + 22 ==> !OccursAt(h, BLANK, i))
            && OccursAt(h, BLANK, k + 22) && |Header(body)| == k + 26
  {
    FixedLines();
    HeaderLines(h, body);
    NoBlankInLast(h, 51 + |LengthLine(body)|, KEEP_LINE);
  }

  lemma NoBlankInLast(h: string, a: nat, line: string)
    requires LineAt(h, a, line)
    ensures forall i :: a <= i < a + |line| ==> !OccursAt(h, BLANK, i)
  {
    LineChars(h, a, line);
    forall i | a <= i < a + |line| ensures !OccursAt(h, BLANK, i) {
      assert h[i] == line[i - a];
      Mismatch(h, BLANK, i, 0);
    }
  }

  /** The bytes between the length header and its line end are the printed length. */
  lemma LengthDigits(h: string, body: string)
    requires Header(body) <= h
    ensures 49 + |CL| <= 49 + |LengthLine(body)| <= |h|
    ensures h[49 + |CL|..49 + |LengthLine(body)|] == Decimal(|body|)
  {
    HeaderLines(h, body);
    LineChars(h, 49, LengthLine(body));
    var l := LengthLine(body);
    assert h[49..49 + |l|] == l;
    assert l[|CL|..] == Decimal(|body|);
  }

  /** The head of a frame is read back: its length, and what came with it. */
  lemma HeadOfFrame(body: string, rest: string)
    requires |body| < SIZE_LIMIT
    ensures ParseHead(Header(body) + rest)
         == if |rest| >= |body| then Complete(rest[..|body|]) else Partial(rest, |body| - |rest|)
  {
    var h, n := Header(body) + rest, |Header(body)|;
    HeaderFinds(h, body);
    LengthDigits(h, body);
    StoulInvertsDecimal(|body|);
    assert h[n..] == rest;
    HeadFrom(h, 49, 49 + |LengthLine(body)|, n - 4, |body|);
  }

  lemma HeadFrom(h: string, pos: nat, end: nat, blank: nat, length: nat)
    requires Find(h, CL, 0) == Some(pos) && Find(h, CRLF, pos) == Some(end) && Find(h, BLANK, 0) == Some(blank)
    requires pos + |CL| <= end && Stoul(h[pos + |CL|..end]) == Some(length)
    ensures var part := h[blank + 4..];
            ParseHead(h) == if |part| >= length then Complete(part[..length]) else Partial(part, length - |part|)
  {
  }

  /** read_body stops after the first chunk that completes the count, and keeps all of that chunk. */
  lemma {:induction false} BodyOfChunks(message: string, remaining: nat, chunks: seq<string>) returns (j: nat)
    requires 0 < remaining <= |Concat(chunks)|
    ensures 0 < j <= |chunks| && |Concat(chunks[..j - 1])| < remaining <= |Concat(chunks[..j])|
    ensures ReadBody(message, remaining, chunks) == Some(message + Concat(chunks[..j]))
    decreases |chunks|
  {
    var c, rest := chunks[0], chunks[1..];
    if |c| >= remaining {
      j := 1;
      assert chunks[..1] == [c] && chunks[..0] == [];
      assert Concat([c]) == c + Concat([]) == c;
      assert message + c == message + Concat(chunks[..j]);
    } else {
      var k := BodyOfChunks(message + c, remaining - |c|, rest);
      j := k + 1;
      assert chunks[..j] == [c] + rest[..k] && chunks[..k] == [c] + rest[..k - 1];
      assert message + (c + Concat(rest[..k])) == message + c + Concat(rest[..k]);
    }
  }

  /** However a frame and what follows it are cut, with the header inside the first chunk: the body arrives,
      plus whatever of the following bytes shares the chunk that completes it in read_body. */
  lemma DeliveredBody(body: string, extra: string, chunks: seq<string>) returns (j: nat)
    requires |body| < SIZE_LIMIT && chunks != [] && Concat(chunks) == Frame(body) + extra
    requires |chunks[0]| >= |Header(body)|
    ensures 0 < j <= |chunks| && |Frame(body)| <= |Concat(chunks[..j])| && Concat(chunks[..j]) <= Frame(body) + extra
    ensures j > 1 ==> |Concat(chunks[..j - 1])| < |Frame(body)|
    ensures ReadFrame(chunks)
         == Some(if j == 1 then body else Concat(chunks[..j])[|Header(body)|..])
  {
    if |chunks[0]| >= |Frame(body)| {
      j := 1;
      DeliveredAtOnce(body, extra, chunks);
      FirstAndMore(chunks, 0);
    } else {
      j := DeliveredLater(body, extra, chunks);
    }
    ConcatPrefix(chunks, j);
  }

  lemma DeliveredAtOnce(body: string, extra: string, chunks: seq<string>)
    requires |body| < SIZE_LIMIT && chunks != [] && Concat(chunks) == Frame(body) + extra
    requires |chunks[0]| >= |Frame(body)|
    ensures ReadFrame(chunks) == Some(body)
  {
    FirstChunk(body, extra, chunks);
    FirstRead(body, chunks[0][|Header(body)|..], chunks);
  }

  lemma DeliveredLater(body: string, extra: string, chunks: seq<string>) returns (j: nat)
    requires |body| < SIZE_LIMIT && chunks != [] && Concat(chunks) == Frame(body) + extra
    requires |Header(body)| <= |chunks[0]| < |Frame(body)|
    ensures 1 < j <= |chunks| && |Concat(chunks[..j - 1])| < |Frame(body)| <= |Concat(chunks[..j])|
    ensures ReadFrame(chunks) == Some(Concat(chunks[..j])[|Header(body)|..])
  {
    LaterLengths(body, extra, chunks);
    LaterRead(body, extra, chunks);
    j := RestOfBody(Header(body), chunks[0][|Header(body)|..], |body|, chunks);
  }

  lemma LaterLengths(body: string, extra: string, chunks: seq<string>)
    requires chunks != [] && Concat(chunks) == Frame(body) + extra && |Header(body)| <= |chunks[0]| < |Frame(body)|
    ensures |Frame(body)| == |Header(body)| + |body| <= |Concat(chunks)|
    ensures chunks[0] == Header(body) + chunks[0][|Header(body)|..] && |chunks[0][|Header(body)|..]| < |body|
  {
    FirstChunk(body, extra, chunks);
  }

  lemma LaterRead(body: string, extra: string, chunks: seq<string>)
    requires |body| < SIZE_LIMIT && chunks != [] && Concat(chunks) == Frame(body) + extra
    requires |Header(body)| <= |chunks[0]| < |Frame(body)|
    ensures var rest := chunks[0][|Header(body)|..];
            |rest| < |body| && ReadFrame(chunks) == ReadBody(rest, |body| - |rest|, chunks[1..])
  {
    LaterLengths(body, extra, chunks);
    FirstRead(body, chunks[0][|Header(body)|..], chunks);
  }

  lemma RestOfBody(hd: string, rest: string, need: nat, chunks: seq<string>) returns (j: nat)
    requires chunks != [] && chunks[0] == hd + rest && |rest| < need && |hd| + need <= |Concat(chunks)|
    ensures 1 < j <= |chunks| && |Concat(chunks[..j - 1])| < |hd| + need <= |Concat(chunks[..j])|
    ensures ReadBody(rest, need - |rest|, chunks[1..]) == Some(Concat(chunks[..j])[|hd|..])
  {
    var k := BodyOfChunks(rest, need - |rest|, chunks[1..]);
    j := k + 1;
    FirstAndMore(chunks, k);
    FirstAndMore(chunks, k - 1);
    assert (hd + rest + Concat(chunks[1..][..k]))[|hd|..] == rest + Concat(chunks[1..][..k]);
  }

  lemma {:induction false} ConcatPrefix(chunks: seq<string>, j: nat)
    requires j <= |chunks|
    ensures Concat(chunks[..j]) <= Concat(chunks)
    decreases |chunks|
  {
    if j > 0 {
      ConcatPrefix(chunks[1..], j - 1);
      FirstAndMore(chunks, j - 1);
    }
  }

  lemma FirstRead(body: string, rest: string, chunks: seq<string>)
    requires |body| < SIZE_LIMIT && chunks != [] && chunks[0] == Header(body) + rest
    requires |rest| >= |body| ==> rest[..|body|] == body
    ensures ReadFrame(chunks)
         == if |rest| >= |body| then Some(body) else ReadBody(rest, |body| - |rest|, chunks[1..])
  {
    HeadOfFrame(body, rest);
  }

  lemma FirstAndMore(chunks: seq<string>, k: nat)
    requires k < |chunks|
    ensures Concat(chunks[..k + 1]) == chunks[0] + Concat(chunks[1..][..k])
  {
    assert chunks[..k + 1] == [chunks[0]] + chunks[1..][..k];
  }

  /** The first chunk is the header and the beginning of what follows it. */
  lemma FirstChunk(body: string, extra: string, chunks: seq<string>)
    requires chunks != [] && Concat(chunks) == Frame(body) + extra && |chunks[0]| >= |Header(body)|
    ensures var rest := chunks[0][|Header(body)|..];
            && chunks[0] == Header(body) + rest
            && rest + Concat(chunks[1..]) == body + extra
            && (|rest| >= |body| ==> rest[..|body|] == body)
  {
    var hd, first, tail := Header(body), chunks[0], Concat(chunks[1..]);
    var all := body + extra;
    assert first + tail == hd + all;
    assert hd == (hd + all)[..|hd|] == (first + tail)[..|hd|] == first[..|hd|];
    assert all == (hd + all)[|hd|..] == (first + tail)[|hd|..] == first[|hd|..] + tail;
    assert |first[|hd|..]| >= |body| ==> first[|hd|..][..|body|] == all[..|body|] == body;
  }

  lemma ConcatGrows(chunks: seq<string>, i: nat, j: nat)
    requires i <= j <= |chunks|
    ensures |Concat(chunks[..i])| <= |Concat(chunks[..j])|
  {
    ConcatPrefix(chunks[..j], i);
    assert chunks[..j][..i] == chunks[..i];
  }

  /** A first chunk that breaks off inside the header holds no blank line, so no further read is issued. */
  lemma ShortFirstChunkStalls(body: string, extra: string, chunks: seq<string>)
    requires chunks != [] && Concat(chunks) == Frame(body) + extra && |chunks[0]| < |Header(body)|
    ensures ReadFrame(chunks) == None
  {
    var h, c := Frame(body) + extra, chunks[0];
    assert h == c + Concat(chunks[1..]) && h[..|Header(body)|] == Header(body);
    BlankFound(h, body);
    NothingFoundBefore(h, c, BLANK, |Header(body)| - 4);
  }

  /** What is first found in h beyond the end of one of its prefixes is not found in the prefix. */
  lemma NothingFoundBefore(h: string, c: string, n: string, k: nat)
    requires c <= h && Find(h, n, 0) == Some(k) && |c| < k + |n|
    ensures Find(c, n, 0) == None
  {
    if Find(c, n, 0).Some? {
      OccursInLonger(c, h, n, Find(c, n, 0).value);
    }
  }

  lemma OccursInLonger(c: string, h: string, n: string, i: nat)
    requires c <= h && OccursAt(c, n, i)
    ensures OccursAt(h, n, i)
  {
    assert h[..|c|][i..i + |n|] == h[i..i + |n|];
  }

  /** When more bytes follow the frame, the body arrives unspoilt exactly when the first chunk covers the header
      and it holds the whole frame or some chunk ends where the frame ends. */
  lemma BodyArrivesExactly(body: string, extra: string, chunks: seq<string>)
    requires |body| < SIZE_LIMIT && chunks != [] && Concat(chunks) == Frame(body) + extra
    ensures ReadFrame(chunks) == Some(body) <==>
              && |chunks[0]| >= |Header(body)|
              && (|chunks[0]| >= |Frame(body)| || EndsAt(chunks, |Frame(body)|))
  {
    if |chunks[0]| < |Header(body)| {
      ShortFirstChunkStalls(body, extra, chunks);
    } else {
      CoveredBodyArrives(body, extra, chunks);
    }
  }

  ghost predicate EndsAt(chunks: seq<string>, n: nat) {
    exists j :: 0 < j <= |chunks| && |Concat(chunks[..j])| == n
  }

  lemma CoveredBodyArrives(body: string, extra: string, chunks: seq<string>)
    requires |body| < SIZE_LIMIT && chunks != [] && Concat(chunks) == Frame(body) + extra
    requires |chunks[0]| >= |Header(body)|
    ensures ReadFrame(chunks) == Some(body) <==> |chunks[0]| >= |Frame(body)| || EndsAt(chunks, |Frame(body)|)
  {
    var j := DeliveredBody(body, extra, chunks);
    FirstAndMore(chunks, 0);
    CutsAt(chunks, j, |Frame(body)|);
    if j > 1 {
      TailIsBody(body, extra, Concat(chunks[..j]));
    }
  }

  /** If j chunks are the first to reach n bytes, a chunk ends at n exactly when the j-th does. */
  lemma CutsAt(chunks: seq<string>, j: nat, n: nat)
    requires 0 < j <= |chunks| && n <= |Concat(chunks[..j])|
    requires j > 1 ==> |Concat(chunks[..j - 1])| < n
    ensures |Concat(chunks[..1])| >= n <==> j == 1
    ensures j > 1 ==> (|Concat(chunks[..j])| == n <==> exists i :: 0 < i <= |chunks| && |Concat(chunks[..i])| == n)
  {
    if j > 1 {
      ConcatGrows(chunks, 1, j - 1);
      forall i | 0 < i <= |chunks| && |Concat(chunks[..i])| == n ensures |Concat(chunks[..j])| == n {
        if i <= j - 1 {
          ConcatGrows(chunks, i, j - 1);
        } else {
          ConcatGrows(chunks, j, i);
        }
      }
    }
  }

  lemma TailIsBody(body: string, extra: string, got: string)
    requires got <= Frame(body) + extra && |got| >= |Frame(body)|
    ensures got[|Header(body)|..] == body <==> |got| == |Frame(body)|
  {
    assert (Frame(body) + extra)[..|Frame(body)|] == Frame(body);
    assert Frame(body)[|Header(body)|..] == body;
  }

  /** Printing a frame, cutting it into chunks and reading it back gives exactly the body, whatever the body
      contains, if and only if the first chunk covers the header. */
  lemma FrameRoundTrip(body: string, chunks: seq<string>)
    requires |body| < SIZE_LIMIT && chunks != [] && Concat(chunks) == Frame(body)
    ensures ReadFrame(chunks) == Some(body) <==> |chunks[0]| >= |Header(body)|
  {
    assert Frame(body) + "" == Frame(body);
    BodyArrivesExactly(body, "", chunks);
    assert chunks[..|chunks|] == chunks;
  }

  // ---------- The session ----------

  /** Stalled: no further read is issued. Escaped: an exception of stoul left the handler. */
  datatype Phase = AwaitingHeader | AwaitingBody | Stalled | Escaped | Delivered

  class HttpSession {
    var message: string
    var remaining: nat
    var phase: Phase
    var request: string

    constructor ()
      ensures phase == AwaitingHeader && message == ""
    {
      message, remaining, phase, request := "", 0, AwaitingHeader, "";
    }

    method WriteResponse(response: string) returns (full: string)
      ensures full == Frame(response)
    {
      var last := CL + Decimal(|response|) + CRLF + (KEEP_LINE + BLANK);
      var header := STATUS_LINE + CRLF + (TYPE_LINE + CRLF + last);
      full := header + response;
    }

    /** The read handler of read_header. */
    method OnHeader(chunk: string)
      requires phase == AwaitingHeader
      modifies this
      ensures match ParseHead(chunk)
              case Complete(body) => phase == Delivered && request == body
              case Partial(part, rest) => phase == AwaitingBody && message == part && remaining == rest > 0
              case Ignored => phase == Stalled
              case Failed => phase == Escaped
    {
      var length := 0;
      var pos := Find(chunk, CL, 0);
      if pos.Some? {
        var end := Find(chunk, CRLF, pos.value);
        if end.Some? {
          EndFollowsLength(chunk, pos.value, end.value);
          var parsed := Stoul(chunk[pos.value + |CL|..end.value]);
          if parsed.None? {
            phase := Escaped;
            return;
          }
          length := parsed.value;
        }
      }
      var blank := Find(chunk, BLANK, 0);
      if blank.None? {
        // no further read is issued
        phase := Stalled;
        return;
      }
      var part := chunk[blank.value + |BLANK|..];
      if |part| >= length {
        request := part[..length];
        phase := Delivered;
      } else {
        message := part;
        remaining := length - |part|;
        phase := AwaitingBody;
      }
    }

    /** The read handler of read_body; what was read and what is missing always make up the content length. */
    method OnBody(chunk: string)
      requires phase == AwaitingBody
      modifies this
      ensures message == old(message) + chunk
      ensures |chunk| >= old(remaining) ==> phase == Delivered && request == message
      ensures |chunk| < old(remaining) ==>
                phase == AwaitingBody && 0 < remaining && |message| + remaining == |old(message)| + old(remaining)
    {
      message := message + chunk;
      if |chunk| >= remaining {
        request := message;
        phase := Delivered;
      } else {
        remaining := remaining - |chunk|;
      }
    }

    /** The chunks of one connection up to its first request. */
    method Receive(chunks: seq<string>)
      requires phase == AwaitingHeader
      modifies this
      ensures phase == Delivered <==> ReadFrame(chunks).Some?
      ensures phase == Delivered ==> Some(request) == ReadFrame(chunks)
    {
      if chunks == [] {
        return;
      }
      OnHeader(chunks[0]);
      var i := 1;
      while i < |chunks| && phase == AwaitingBody
        invariant 1 <= i <= |chunks| && phase != AwaitingHeader
        invariant phase == AwaitingBody ==> ReadFrame(chunks) == ReadBody(message, remaining, chunks[i..])
        invariant phase == Delivered ==> ReadFrame(chunks) == Some(request)
        invariant phase in {Stalled, Escaped} ==> ReadFrame(chunks) == None
      {
        assert chunks[i..][0] == chunks[i] && chunks[i..][1..] == chunks[i + 1..];
        OnBody(chunks[i]);
        i := i + 1;
      }
    }
  }
}
