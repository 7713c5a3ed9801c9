/** The pure part of `handle_connection` in src/bin/main.rs: the request line
    taken from the first line read, the route chosen for it, and the bytes of
    the response written back.  Reading the socket and the file system are
    inputs; the response is a sequence of bytes because Rust's `String::len`,
    which supplies Content-Length, counts UTF-8 bytes. */
module Server {

  newtype byte = b: int | 0 <= b < 256

  datatype Option<T> = None | Some(value: T)

  /** What `buffer.lines().next()` produced. */
  datatype FirstLine =
    | NoLine                   // the stream ended before any line
    | Line(text: string)       // a line was read
    | LineError(text: string)  // reading failed; `text` is the error's `to_string`

  /** What `fs::read_to_string(filename)` produced: the file's UTF-8 bytes,
      or the bytes of the error's display text. */
  datatype FileRead = Contents(bytes: seq<byte>) | ReadError(message: seq<byte>)

  /** The outcome of the route `match`: status line, file to serve, and the
      seconds slept before answering. */
  datatype Route = Route(status: string, filename: string, delaySeconds: nat)

  const RootLine := "GET / HTTP/1.1"
  const SleepLine := "GET /sleep HTTP/1.1"
  const StatusOk := "HTTP/1.1 200 OK"
  const StatusNotFound := "HTTP/1.1 404 NOT FOUND"
  const HelloFile := "hello.html"
  const NotFoundFile := "404.html"
  const SleepSeconds := 5

  const CR: byte := 13
  const LF: byte := 10
  const Zero: byte := 48

  predicate IsAscii(s: string)
  {
    forall i :: 0 <= i < |s| ==> s[i] as int < 128
  }

  /** The bytes of an ASCII string. */
  function Ascii(s: string): seq<byte>
    requires IsAscii(s)
  {
    seq(|s|, i requires 0 <= i < |s| => s[i] as int as byte)
  }

  function Crlf(): seq<byte> { [CR, LF] }

  function LengthHeader(): seq<byte> { Ascii("Content-Length: ") }

  // ---------------------------------------------------------------------------
  // Routing

  /** The request line: the first line, the error's text when reading it
      failed, and the empty string when there was no line. */
  function RequestLine(first: FirstLine): (line: string)
    ensures first.NoLine? ==> line == ""
    ensures !first.NoLine? ==> line == first.text
  {
    match first
    case NoLine => ""
    case Line(text) => text
    case LineError(text) => text
  }

  /** The route `match`: exact, case-sensitive comparison of the whole line
      with two request lines; the sleep route serves the same status and file
      as the root after a delay, and everything else is 404. */
  function RouteOf(line: string): (r: Route)
    ensures r.status == StatusOk <==> (line == RootLine || line == SleepLine)
    ensures r.status == StatusOk <==> r.filename == HelloFile
    ensures r.status != StatusOk ==> r.status == StatusNotFound && r.filename == NotFoundFile
    ensures r.delaySeconds == (if line == SleepLine then SleepSeconds else 0)
  {
    match line
    case "GET / HTTP/1.1" => Route(StatusOk, HelloFile, 0)
    case "GET /sleep HTTP/1.1" => Route(StatusOk, HelloFile, SleepSeconds)
    case _ => Route(StatusNotFound, NotFoundFile, 0)
  }

  /** A connection that sends no line at all is answered with 404. */
  lemma MissingLineIsNotFound()
    ensures RequestLine(NoLine) == ""
    ensures RouteOf(RequestLine(NoLine)) == Route(StatusNotFound, NotFoundFile, 0)
  {
  }

  /** The sleep route differs from the root route only in its delay. */
  lemma SleepServesRoot()
    ensures RouteOf(SleepLine).(delaySeconds := 0) == RouteOf(RootLine)
    ensures RouteOf(SleepLine).delaySeconds == SleepSeconds
  {
  }

  predicate IsPrintable(s: string)
  {
    forall i :: 0 <= i < |s| ==> 32 <= s[i] as int < 128
  }

  /** Printable ASCII text becomes bytes with no carriage return among them. */
  lemma {:induction false} PrintableHasNoCr(s: string)
    requires IsPrintable(s)
    ensures IsAscii(s) && CR !in Ascii(s)
  {
    forall i | 0 <= i < |s|
      ensures Ascii(s)[i] != CR
    {
      assert Ascii(s)[i] as int == s[i] as int >= 32;
    }
  }

  /** Both status lines a route can carry are ASCII and contain no carriage
      return, so each ends where the first CRLF of the response begins. */
  lemma {:induction false} StatusLineBytes(line: string)
    ensures IsAscii(RouteOf(line).status)
    ensures CR !in Ascii(RouteOf(line).status)
  {
    var s := RouteOf(line).status;
    if s == StatusOk {
      assert IsPrintable(StatusOk);
    } else {
      assert IsPrintable(StatusNotFound);
    }
    PrintableHasNoCr(s);
  }

  // ---------------------------------------------------------------------------
  // Decimal numbers

  predicate IsDigit(b: byte) { Zero <= b <= Zero + 9 }

  predicate AllDigits(ds: seq<byte>)
  {
    forall i :: 0 <= i < |ds| ==> IsDigit(ds[i])
  }

  /** A non-empty digit string with no leading zero, as `{}` prints a `usize`. */
  predicate Canonical(ds: seq<byte>)
  {
    |ds| > 0 && AllDigits(ds) && (|ds| > 1 ==> ds[0] != Zero)
  }

  /** The decimal text of `n`. */
  function Decimal(n: nat): (ds: seq<byte>)
    ensures Canonical(ds)
    ensures n > 0 ==> ds[0] != Zero
    ensures |ds| == 1 <==> n < 10
  {
    if n < 10 then [Zero + n as byte]
    else Decimal(n / 10) + [Zero + (n % 10) as byte]
  }

  /** The number a digit string denotes. */
  function DigitsValue(ds: seq<byte>): nat
    requires AllDigits(ds)
  {
    if ds == [] then 0
    else DigitsValue(ds[..|ds| - 1]) * 10 + (ds[|ds| - 1] - Zero) as int
  }

  /** Reading back the decimal text of `n` gives `n`. */
  lemma {:induction false} DecimalValue(n: nat)
    ensures DigitsValue(Decimal(n)) == n
  {
    if n >= 10 {
      var ds := Decimal(n);
      DecimalValue(n / 10);
      assert ds[..|ds| - 1] == Decimal(n / 10);
    }
  }

  /** Digits with a non-zero leading digit denote a positive number. */
  lemma {:induction false} ZeroValue(ds: seq<byte>)
    requires AllDigits(ds) && |ds| > 0 && ds[0] != Zero
    ensures DigitsValue(ds) > 0
  {
    if |ds| > 1 {
      ZeroValue(ds[..|ds| - 1]);
    }
  }

  /** Every canonical digit string is the decimal text of its value. */
  lemma {:induction false} ValueDecimal(ds: seq<byte>)
    requires Canonical(ds)
    ensures Decimal(DigitsValue(ds)) == ds
  {
    var n := DigitsValue(ds);
    if |ds| > 1 {
      var prefix := ds[..|ds| - 1];
      ZeroValue(prefix);
      ValueDecimal(prefix);
      assert n / 10 == DigitsValue(prefix);
      assert n % 10 == (ds[|ds| - 1] - Zero) as int;
    }
  }

  // ---------------------------------------------------------------------------
  // Response framing

  /** The body written: the file's contents, or the error text wrapped as
      `Repsponse error {err} !` (the spelling is the program's). */
  function Body(read: FileRead): (body: seq<byte>)
    ensures read.Contents? ==> body == read.bytes
    ensures read.ReadError? ==>
      |body| == |read.message| + 18 && StartsWith(body, Ascii("Repsponse error ")) &&
      body[16..16 + |read.message|] == read.message
  {
    match read
    case Contents(bytes) => bytes
    case ReadError(message) => Ascii("Repsponse error ") + message + Ascii(" !")
  }

  /** The bytes between the status line and the length value. */
  function FieldStart(): seq<byte> { Crlf() + LengthHeader() }

  /** The bytes between the length value and the body. */
  function BlankLine(): seq<byte> { Crlf() + Crlf() }

  /** `format!("{status}\r\nContent-Length: {length}\r\n\r\n{contents}")`
      where `length` is the byte length of `contents`. */
  function Frame(status: seq<byte>, body: seq<byte>): (m: seq<byte>)
    ensures |m| >= |status| + |body|
    ensures m[..|status|] == status
    ensures m[|m| - |body|..] == body
  {
    status + (FieldStart() + (Decimal(|body|) + (BlankLine() + body)))
  }

  /** A parsed response: status line, Content-Length value and body. */
  datatype Parsed = Parsed(statusLine: seq<byte>, contentLength: nat, body: seq<byte>)

  predicate StartsWith(m: seq<byte>, p: seq<byte>)
  {
    |m| >= |p| && m[..|p|] == p
  }

  /** Index of the first carriage return, or `|m|` when there is none. */
  function IndexOfCr(m: seq<byte>): (i: nat)
    ensures i <= |m|
    ensures i < |m| ==> m[i] == CR
    ensures forall k :: 0 <= k < i ==> m[k] != CR
  {
    if m == [] || m[0] == CR then 0 else 1 + IndexOfCr(m[1..])
  }

  /** Length of the longest run of digits at the start of `m`. */
  function DigitRun(m: seq<byte>): (j: nat)
    ensures j <= |m|
    ensures AllDigits(m[..j])
    ensures j < |m| ==> !IsDigit(m[j])
  {
    if m == [] || !IsDigit(m[0]) then 0 else 1 + DigitRun(m[1..])
  }

  /** The length value, the blank line and the body. */
  function ParseLength(m: seq<byte>): (r: Option<(nat, seq<byte>)>)
    ensures r.Some? ==> r.value.0 == |r.value.1|
  {
    var j := DigitRun(m);
    if !Canonical(m[..j]) || !StartsWith(m[j..], BlankLine()) then None
    else
      var body := m[j + |BlankLine()|..];
      var n := DigitsValue(m[..j]);
      if n != |body| then None else Some((n, body))
  }

  /** Reads back the framing this program writes: a line without CR ended
      by CRLF, the one field `Content-Length: ` whose canonical decimal value
      must be the number of body octets, an empty line, then the body.  It
      checks no status-line grammar and accepts no other header field. */
  function ParseResponse(m: seq<byte>): (r: Option<Parsed>)
    ensures r.Some? ==> r.value.contentLength == |r.value.body|
    ensures r.Some? ==> CR !in r.value.statusLine
  {
    var i := IndexOfCr(m);
    if !StartsWith(m[i..], FieldStart()) then None
    else match ParseLength(m[i + |FieldStart()|..]) {
      case None => None
      case Some((n, body)) => Some(Parsed(m[..i], n, body))
    }
  }

  /** `DigitRun` stops at the first non-digit. */
  lemma {:induction false} DigitRunIsMaximal(m: seq<byte>, j: nat)
    requires j < |m| && AllDigits(m[..j]) && !IsDigit(m[j])
    ensures DigitRun(m) == j
  {
    if j > 0 {
      assert m[1..][..j - 1] == m[..j][1..];
      DigitRunIsMaximal(m[1..], j - 1);
    }
  }

  /** The length field of a framed body reads back as that body's length. */
  lemma {:induction false} ParseLengthOf(body: seq<byte>)
    ensures ParseLength(Decimal(|body|) + (BlankLine() + body)) == Some((|body|, body))
  {
    var ds := Decimal(|body|);
    var m := ds + (BlankLine() + body);
    assert m[..|ds|] == ds;
    assert m[|ds|..] == BlankLine() + body;
    DigitRunIsMaximal(m, |ds|);
    DecimalValue(|body|);
    assert m[|ds| + |BlankLine()|..] == body;
  }

  /** Framing then parsing gives back the status line and the body, with the
      body's length as Content-Length. */
  lemma {:induction false} ParseFrame(status: seq<byte>, body: seq<byte>)
    requires CR !in status
    ensures ParseResponse(Frame(status, body)) == Some(Parsed(status, |body|, body))
  {
    var tail := Decimal(|body|) + (BlankLine() + body);
    var m := Frame(status, body);
    assert m == status + (FieldStart() + tail);
    assert m[|status|] == CR;
    assert IndexOfCr(m) == |status|;
    assert m[|status|..] == FieldStart() + tail;
    assert m[|status| + |FieldStart()|..] == tail;
    ParseLengthOf(body);
    assert m[..|status|] == status;
  }

  /** Whatever `ParseLength` accepts is a canonical length field for its body. */
  lemma {:induction false} LengthParse(m: seq<byte>)
    requires ParseLength(m).Some?
    ensures m == Decimal(|ParseLength(m).value.1|) + (BlankLine() + ParseLength(m).value.1)
  {
    var j := DigitRun(m);
    var body := ParseLength(m).value.1;
    ValueDecimal(m[..j]);
    assert m[j..] == BlankLine() + body;
    assert m == m[..j] + m[j..];
  }

  /** What `ParseResponse` accepted: the status line up to the first CR,
      the field start, and a length field `ParseLength` accepts. */
  lemma ParsedParts(m: seq<byte>)
    requires ParseResponse(m).Some?
    ensures var i := IndexOfCr(m);
      var rest := m[i + |FieldStart()|..];
      StartsWith(m[i..], FieldStart()) && ParseLength(rest).Some? &&
      ParseResponse(m).value.statusLine == m[..i] &&
      ParseResponse(m).value.body == ParseLength(rest).value.1
  {
  }

  /** Whatever parses is exactly the framing of its status line and body. */
  lemma {:induction false} FrameParse(m: seq<byte>)
    requires ParseResponse(m).Some?
    ensures Frame(ParseResponse(m).value.statusLine, ParseResponse(m).value.body) == m
  {
    var p := ParseResponse(m).value;
    var i := IndexOfCr(m);
    var rest := m[i + |FieldStart()|..];
    ParsedParts(m);
    LengthParse(rest);
    SplitAround(m, i, FieldStart());
  }

  /** A sequence that holds `head` at offset `i` is its prefix, `head` and
      the remainder. */
  lemma SplitAround(m: seq<byte>, i: nat, head: seq<byte>)
    requires i <= |m| && StartsWith(m[i..], head)
    ensures m == m[..i] + (head + m[i + |head|..])
  {
    assert m[i..] == head + m[i + |head|..];
    assert m == m[..i] + m[i..];
  }
  // ---------------------------------------------------------------------------
  // The connection handler

  /** The bytes `handle_connection` writes for a first line `first` when the
      file system answers a read of a file name `f` with `files(f)`. */
  function Respond(first: FirstLine, files: string -> FileRead): (response: seq<byte>)
    ensures var route := RouteOf(RequestLine(first));
      var body := Body(files(route.filename));
      IsAscii(route.status) &&
      StartsWith(response, Ascii(route.status) + Crlf()) &&
      |response| >= |body| && response[|response| - |body|..] == body
  {
    var route := RouteOf(RequestLine(first));
    StatusLineBytes(RequestLine(first));
    Frame(Ascii(route.status), Body(files(route.filename)))
  }

  /** Every response starts with the routed status line, ends with the body
      read for the routed file, and declares that body's byte length as its
      Content-Length, on the read-error path as on the success path. */
  lemma RespondFraming(first: FirstLine, files: string -> FileRead)
    ensures var route := RouteOf(RequestLine(first));
      var body := Body(files(route.filename));
      IsAscii(route.status) &&
      ParseResponse(Respond(first, files)) == Some(Parsed(Ascii(route.status), |body|, body))
  {
    var route := RouteOf(RequestLine(first));
    StatusLineBytes(RequestLine(first));
    ParseFrame(Ascii(route.status), Body(files(route.filename)));
  }
}
