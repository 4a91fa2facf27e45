/** The logging wrapper of a session (src/log.rs): every send, write and
    successful read is reported to an optional writer, one line each, as
    `<target> <text>` where the text is the Debug rendering of the bytes:
    a quoted, escaped string when they are UTF-8, a byte list otherwise. */
module Logs {
  import opened Base
  import opened Errors
  import opened Utf8
  import opened ScriptedIo
  import opened Streams
  import Sessions

  // ---------------------------------------------------------------------
  // `{:?}` of a `&str`

  /** The characters Debug writes as they are. Rust consults the Unicode
      printable table; this model knows its Latin-1 part: the C0 and C1
      controls, DEL, the no-break space (a space separator other than the
      plain space) and the soft hyphen are escaped, everything else is
      printed. */
  predicate IsPrintable(c: char) {
    0x20 <= c as int && !(0x7F <= c as int <= 0xA0) && c as int != 0xAD
  }

  function HexDigit(n: nat): (d: char)
    requires n < 16
  {
    if n < 10 then ('0' as int + n) as char else ('a' as int + n - 10) as char
  }

  function HexValue(d: char): Option<nat> {
    if '0' <= d <= '9' then Some(d as int - '0' as int)
    else if 'a' <= d <= 'f' then Some(d as int - 'a' as int + 10)
    else None
  }

  /** Lower-case hexadecimal without leading zeros, as `\u{..}` uses it. */
  function Hex(n: nat): (digits: string)
    requires n < 256
    ensures 1 <= |digits| <= 2
  {
    if n < 16 then [HexDigit(n)] else [HexDigit(n / 16), HexDigit(n % 16)]
  }

  /** `char::escape_debug` inside a string literal: the single quote stays
      as it is, the double quote is escaped. */
  function EscapeChar(c: char): (e: string)
    ensures |e| >= 1
  {
    if c == '\0' then "\\0"
    else if c == '\t' then "\\t"
    else if c == '\r' then "\\r"
    else if c == '\n' then "\\n"
    else if c == '\\' then "\\\\"
    else if c == '"' then "\\\""
    else if IsPrintable(c) then [c]
    else "\\u{" + Hex(c as int) + "}"
  }

  function Escape(s: string): string {
    if |s| == 0 then "" else EscapeChar(s[0]) + Escape(s[1..])
  }

  /** `format!("{:?}", s)` for a string slice. */
  function Quote(s: string): string {
    "\"" + Escape(s) + "\""
  }

  /** The character at the front of an escaped text and how many
      characters spell it; None for a bare quote, a stray backslash or an
      unprintable character. */
  function UnescapeFirst(t: string): (r: Option<(char, nat)>)
    requires |t| > 0
    ensures r.Some? ==> 1 <= r.value.1 <= |t|
  {
    if t[0] == '"' then None
    else if t[0] != '\\' then (if IsPrintable(t[0]) then Some((t[0], 1)) else None)
    else if |t| < 2 then None
    else if t[1] == '0' then Some(('\0', 2))
    else if t[1] == 't' then Some(('\t', 2))
    else if t[1] == 'r' then Some(('\r', 2))
    else if t[1] == 'n' then Some(('\n', 2))
    else if t[1] == '\\' then Some(('\\', 2))
    else if t[1] == '"' then Some(('"', 2))
    else if t[1] != 'u' || |t| < 5 || t[2] != '{' || HexValue(t[3]).None? then None
    else if t[4] == '}' then Some((HexValue(t[3]).value as char, 5))
    else if |t| >= 6 && HexValue(t[4]).Some? && t[5] == '}' then
      Some(((HexValue(t[3]).value * 16 + HexValue(t[4]).value) as char, 6))
    else None
  }

  /** Reads the inside of a Debug string literal back to the string. */
  function Unescape(t: string): Option<string>
    decreases |t|
  {
    if |t| == 0 then Some("")
    else match UnescapeFirst(t)
      case None => None
      case Some((c, k)) =>
        match Unescape(t[k..])
        case None => None
        case Some(rest) => Some([c] + rest)
  }

  /** The no-break space is written as an escape, the plain space and the
      first printable character after it as they are. */
  lemma NoBreakSpaceEscaped()
    ensures Quote("a\U{A0}") == "\"a\\u{a0}\""
    ensures Quote(" \U{A1}") == "\" \U{A1}\""
  {
  }

  lemma HexRoundTrip(n: nat)
    requires n < 16
    ensures HexValue(HexDigit(n)) == Some(n)
  {
  }

  lemma UnescapeFirstEscapeChar(c: char, rest: string)
    ensures UnescapeFirst(EscapeChar(c) + rest) == Some((c, |EscapeChar(c)|))
  {
    var t := EscapeChar(c) + rest;
    if c == '\0' || c == '\t' || c == '\r' || c == '\n' || c == '\\' || c == '"' {
      assert t[0] == '\\';
    } else if IsPrintable(c) {
      assert t[0] == c;
    } else {
      var n := c as int;
      assert n < 256;
      assert t[..3] == "\\u{";
      if n < 16 {
        HexRoundTrip(n);
        assert t[3] == HexDigit(n) && t[4] == '}';
      } else {
        HexRoundTrip(n / 16);
        HexRoundTrip(n % 16);
        assert t[3] == HexDigit(n / 16) && t[4] == HexDigit(n % 16) && t[5] == '}';
      }
    }
  }

  /** Round trip: the Debug text of a string reads back to the string. */
  lemma {:induction false} UnescapeEscape(s: string)
    ensures Unescape(Escape(s)) == Some(s)
  {
    if |s| > 0 {
      var head := EscapeChar(s[0]);
      var tail := Escape(s[1..]);
      UnescapeFirstEscapeChar(s[0], tail);
      assert (head + tail)[|head|..] == tail;
      UnescapeEscape(s[1..]);
      assert [s[0]] + s[1..] == s;
    }
  }

  /** Text without characters Debug escapes is written as it is. */
  lemma {:induction false} EscapePlain(s: string)
    requires forall i :: 0 <= i < |s| ==> IsPrintable(s[i]) && s[i] != '\\' && s[i] != '"'
    ensures Escape(s) == s
  {
    if |s| > 0 {
      EscapePlain(s[1..]);
      assert [s[0]] + s[1..] == s;
    }
  }

  lemma {:induction false} EscapeAppend(a: string, b: string)
    ensures Escape(a + b) == Escape(a) + Escape(b)
  {
    if |a| == 0 {
      assert a + b == b;
    } else {
      assert (a + b)[0] == a[0] && (a + b)[1..] == a[1..] + b;
      EscapeAppend(a[1..], b);
    }
  }

  // ---------------------------------------------------------------------
  // `{:?}` of a `&[u8]`

  function DecimalDigit(n: nat): (d: char)
    requires n < 10
  {
    ('0' as int + n) as char
  }

  function DigitValue(d: char): Option<nat> {
    if '0' <= d <= '9' then Some(d as int - '0' as int) else None
  }

  /** A byte in decimal, without leading zeros. */
  function Decimal(b: u8): (digits: string)
    ensures 1 <= |digits| <= 3
  {
    var n := b as int;
    if n < 10 then [DecimalDigit(n)]
    else if n < 100 then [DecimalDigit(n / 10), DecimalDigit(n % 10)]
    else [DecimalDigit(n / 100), DecimalDigit(n / 10 % 10), DecimalDigit(n % 10)]
  }

  function Items(data: seq<u8>): string {
    if |data| == 0 then ""
    else if |data| == 1 then Decimal(data[0])
    else Decimal(data[0]) + ", " + Items(data[1..])
  }

  /** `format!("{:?}", data)` for a byte slice: `[1, 2, 3]`. */
  function ByteList(data: seq<u8>): string {
    "[" + Items(data) + "]"
  }

  /** How many decimal digits `t` starts with. */
  function LeadingDigits(t: string): (n: nat)
    ensures n <= |t|
  {
    if |t| == 0 || DigitValue(t[0]).None? then 0 else 1 + LeadingDigits(t[1..])
  }

  /** The value of a run of decimal digits. */
  function DigitsValue(t: string): Option<nat> {
    if |t| == 0 then Some(0)
    else match (DigitsValue(t[..|t| - 1]), DigitValue(t[|t| - 1]))
      case (Some(v), Some(d)) => Some(v * 10 + d)
      case _ => None
  }

  /** The value of one to three decimal digits, when it fits a byte. */
  function ParseDecimal(t: string): Option<u8> {
    if 1 <= |t| <= 3 && DigitsValue(t).Some? && DigitsValue(t).value < 256 then
      Some(DigitsValue(t).value as u8)
    else None
  }

  function ParseItems(t: string): Option<seq<u8>>
    decreases |t|
  {
    if |t| == 0 then Some([])
    else
      var n := LeadingDigits(t);
      match ParseDecimal(t[..n])
      case None => None
      case Some(b) =>
        if n == |t| then Some([b])
        else if |t| - n > 2 && t[n..n + 2] == ", " then
          match ParseItems(t[n + 2..])
          case None => None
          case Some(rest) => Some([b] + rest)
        else None
  }

  /** Reads a Debug byte list back to the bytes. */
  function ParseByteList(t: string): Option<seq<u8>> {
    if |t| >= 2 && t[0] == '[' && t[|t| - 1] == ']' then ParseItems(t[1..|t| - 1]) else None
  }

  lemma DigitsValueSnoc(t: string, d: char)
    ensures DigitsValue(t + [d]) ==
      if DigitsValue(t).Some? && DigitValue(d).Some? then Some(DigitsValue(t).value * 10 + DigitValue(d).value)
      else None
  {
    assert (t + [d])[..|t|] == t;
  }

  lemma DigitRoundTrip(k: nat)
    requires k < 10
    ensures DigitValue(DecimalDigit(k)) == Some(k)
  {
  }

  lemma DecimalValue(b: u8)
    ensures ParseDecimal(Decimal(b)) == Some(b)
  {
    if b < 10 {
      OneDigitValue(b);
    } else if b < 100 {
      TwoDigitValue(b);
    } else {
      ThreeDigitValue(b);
    }
  }

  lemma OneDigitValue(b: u8)
    requires b < 10
    ensures DigitsValue(Decimal(b)) == Some(b as nat)
  {
    var d := DecimalDigit(b as nat);
    DigitRoundTrip(b as nat);
    assert Decimal(b) == [d] && [d][..0] == [];
  }

  lemma TwoDigitValue(b: u8)
    requires 10 <= b < 100
    ensures DigitsValue(Decimal(b)) == Some(b as nat)
  {
    var n := b as int;
    var x := DecimalDigit(n / 10);
    var empty: string := "";
    DigitRoundTrip(n / 10);
    DigitRoundTrip(n % 10);
    DigitsValueSnoc(empty, x);
    assert empty + [x] == [x];
    DigitsValueSnoc([x], DecimalDigit(n % 10));
    assert n / 10 * 10 + n % 10 == n;
    assert Decimal(b) == [x] + [DecimalDigit(n % 10)];
  }

  lemma ThreeDigitValue(b: u8)
    requires 100 <= b
    ensures DigitsValue(Decimal(b)) == Some(b as nat)
  {
    var n := b as int;
    var x := DecimalDigit(n / 100);
    var y := DecimalDigit(n / 10 % 10);
    var empty: string := "";
    DigitRoundTrip(n / 100);
    DigitRoundTrip(n / 10 % 10);
    DigitRoundTrip(n % 10);
    DigitsValueSnoc(empty, x);
    assert empty + [x] == [x];
    DigitsValueSnoc([x], y);
    DigitsValueSnoc([x] + [y], DecimalDigit(n % 10));
    assert (n / 100 * 10 + n / 10 % 10) * 10 + n % 10 == n;
    assert Decimal(b) == [x] + [y] + [DecimalDigit(n % 10)];
  }

  lemma DecimalRun(b: u8, rest: string)
    requires |rest| == 0 || rest[0] == ','
    ensures LeadingDigits(Decimal(b) + rest) == |Decimal(b)|
  {
    var d := Decimal(b);
    var t := d + rest;
    assert LeadingDigits(t[|d|..]) == 0 by { assert t[|d|..] == rest; }
    if |d| == 1 {
      assert LeadingDigits(t) == 1 + LeadingDigits(t[1..]);
    } else if |d| == 2 {
      assert LeadingDigits(t) == 1 + LeadingDigits(t[1..]);
      assert t[1..][1..] == t[2..];
    } else {
      assert LeadingDigits(t) == 1 + LeadingDigits(t[1..]);
      assert t[1..][1..] == t[2..];
      assert LeadingDigits(t[2..]) == 1 + LeadingDigits(t[2..][1..]);
      assert t[2..][1..] == t[3..];
    }
  }

  /** One step of `ParseItems` on a number followed by more items. */
  lemma ParseItemsCons(t: string, n: nat, b: u8)
    requires n == LeadingDigits(t) && ParseDecimal(t[..n]) == Some(b)
    requires |t| - n > 2 && t[n..n + 2] == ", " && ParseItems(t[n + 2..]).Some?
    ensures ParseItems(t) == Some([b] + ParseItems(t[n + 2..]).value)
  {
  }

  lemma ParseItemsSingle(b: u8)
    ensures ParseItems(Decimal(b)) == Some([b])
  {
    var d := Decimal(b);
    var none: string := "";
    assert d + none == d;
    DecimalRun(b, none);
    DecimalValue(b);
    assert d[..|d|] == d;
  }

  lemma ParseItemsFront(b: u8, tail: string)
    requires |tail| > 0 && ParseItems(tail).Some?
    ensures ParseItems(Decimal(b) + ", " + tail) == Some([b] + ParseItems(tail).value)
  {
    var d := Decimal(b);
    var rest := ", " + tail;
    var t := d + rest;
    assert t == Decimal(b) + ", " + tail;
    DecimalRun(b, rest);
    DecimalValue(b);
    var n := |d|;
    assert t[..n] == d;
    assert t[n..n + 2] == ", ";
    assert t[n + 2..] == tail;
    ParseItemsCons(t, n, b);
  }

  lemma {:induction false} ParseItemsRoundTrip(data: seq<u8>)
    ensures ParseItems(Items(data)) == Some(data)
  {
    if |data| == 1 {
      ParseItemsSingle(data[0]);
      assert Items(data) == Decimal(data[0]) && data == [data[0]];
    } else if |data| > 1 {
      ParseItemsRoundTrip(data[1..]);
      ParseItemsFront(data[0], Items(data[1..]));
      assert [data[0]] + data[1..] == data;
    }
  }

  /** Round trip: the Debug text of a byte slice reads back to it. */
  lemma ByteListRoundTrip(data: seq<u8>)
    ensures ParseByteList(ByteList(data)) == Some(data)
  {
    var t := ByteList(data);
    assert t[1..|t| - 1] == Items(data);
    ParseItemsRoundTrip(data);
  }

  // ---------------------------------------------------------------------
  // The log line

  /** The rendering of `data` that follows the target: the quoted text
      when the bytes are UTF-8, otherwise `(bytes) ` and the byte list. */
  function Body(data: seq<u8>): string {
    match Decode(data)
    case Some(text) => Quote(text)
    case None => "(bytes) " + ByteList(data)
  }

  /** What `log` writes for `target` and `data`. */
  function Line(target: string, data: seq<u8>): string {
    target + " " + Body(data) + "\n"
  }

  /** Reads the rendering after the target back to the bytes. */
  function ParseBody(body: string): Option<seq<u8>> {
    if |body| >= 2 && body[0] == '"' && body[|body| - 1] == '"' then
      match Unescape(body[1..|body| - 1])
      case None => None
      case Some(text) => Some(Encode(text))
    else if |body| >= 8 && body[..8] == "(bytes) " then ParseByteList(body[8..])
    else None
  }

  /** Reads a log line of `target` back to the bytes it reports. */
  function ParseLine(line: string, target: string): Option<seq<u8>> {
    if |line| < |target| + 2 || line[..|target| + 1] != target + " " || line[|line| - 1] != '\n' then None
    else ParseBody(line[|target| + 1..|line| - 1])
  }

  lemma ParseLineOf(target: string, body: string)
    requires |body| > 0
    ensures ParseLine(target + " " + body + "\n", target) == ParseBody(body)
  {
    var line := target + " " + body + "\n";
    assert line[..|target| + 1] == target + " ";
    assert line[|target| + 1..|line| - 1] == body;
  }

  lemma TextRoundTrip(data: seq<u8>, text: string)
    requires Decode(data) == Some(text)
    ensures ParseBody(Quote(text)) == Some(data)
  {
    var body := Quote(text);
    assert body[1..|body| - 1] == Escape(text);
    UnescapeEscape(text);
    EncodeDecode(data);
  }

  lemma BytesRoundTrip(data: seq<u8>)
    ensures ParseBody("(bytes) " + ByteList(data)) == Some(data)
  {
    var body := "(bytes) " + ByteList(data);
    assert body[0] == '(' && body[..8] == "(bytes) " && body[8..] == ByteList(data);
    ByteListRoundTrip(data);
  }

  /** Nothing is lost in the log: each line gives back exactly the bytes
      it was written for, whether they were rendered as text or as a list. */
  lemma LineRoundTrip(target: string, data: seq<u8>)
    ensures ParseLine(Line(target, data), target) == Some(data)
  {
    ParseLineOf(target, Body(data));
    if Decode(data).Some? {
      TextRoundTrip(data, Decode(data).value);
    } else {
      BytesRoundTrip(data);
    }
  }

  // ---------------------------------------------------------------------
  // The wrapper

  /** The writer the log goes to. Its write errors are discarded by `log`,
      so it is modelled as accepting everything. */
  datatype Sink = Sink(written: seq<u8>)

  /** `SessionWithLog`: the session and, once `set_log` was called, the
      writer every operation is reported to. */
  datatype SessionWithLog = SessionWithLog(inner: Sessions.Session, logger: Option<Sink>)

  /** `spawn` / `spawn_cmd` once the inner session is up: nothing is
      logged until a writer is set. */
  function Wrap(inner: Sessions.Session): (s: SessionWithLog)
    ensures s.inner == inner && s.logger.None?
  {
    SessionWithLog(inner, None)
  }

  /** `set_log`: the writer replaces any earlier one. */
  function SetLog(s: SessionWithLog, w: Sink): (s': SessionWithLog)
    ensures s'.inner == s.inner && s'.logger == Some(w)
  {
    s.(logger := Some(w))
  }

  /** The writer `after` holds `line`, encoded, after whatever `before`
      held; without a writer nothing is recorded. */
  predicate Appended(before: Option<Sink>, after: Option<Sink>, line: string) {
    match before
    case None => after.None?
    case Some(w) => after == Some(Sink(w.written + Encode(line)))
  }

  /** `SessionWithLog::log`. */
  function Log(s: SessionWithLog, target: string, data: seq<u8>): (s': SessionWithLog)
    ensures s'.inner == s.inner
    ensures Appended(s.logger, s'.logger, Line(target, data))
  {
    match s.logger
    case None => s
    case Some(w) => s.(logger := Some(Sink(w.written + Encode(Line(target, data)))))
  }

  /** The line a string-typed operation logs: the text, quoted. */
  lemma LineOfText(target: string, text: string)
    ensures Line(target, Encode(text)) == target + " " + Quote(text) + "\n"
  {
    DecodeEncode(text);
  }

  /** `SessionWithLog::send`: the text is logged, then sent. */
  function Send(s: SessionWithLog, text: string): (res: (Result<(), IoError>, SessionWithLog))
    ensures res.0.Ok? <==> s.inner.stream.input.fault.None? || |text| == 0
    ensures res.1.inner.stream.input.sent == s.inner.stream.input.sent + (if res.0.Ok? then Encode(text) else [])
    ensures res.1.inner.stream.output == s.inner.stream.output
    ensures Appended(s.logger, res.1.logger, "send" + " " + Quote(text) + "\n")
  {
    var s1 := Log(s, "send", Encode(text));
    LineOfText("send", text);
    var (result, inner') := Sessions.Send(s1.inner, text);
    (result, s1.(inner := inner'))
  }

  /** `SessionWithLog::send_line`: the text (without the line ending) is
      logged, then sent as a line. */
  function SendLine(s: SessionWithLog, text: string, p: Sessions.Platform): (res: (Result<(), IoError>, SessionWithLog))
    ensures res.0.Ok? <==> s.inner.stream.input.fault.None?
    ensures res.1.inner.stream.input.sent
         == s.inner.stream.input.sent + (if res.0.Ok? then Encode(text) + Sessions.LineEnding(p) else [])
    ensures res.1.inner.stream.output == s.inner.stream.output
    ensures Appended(s.logger, res.1.logger, "send_line" + " " + Quote(text) + "\n")
  {
    var s1 := Log(s, "send_line", Encode(text));
    LineOfText("send_line", text);
    var (result, inner') := Sessions.SendLine(s1.inner, text, p);
    (result, s1.(inner := inner'))
  }

  /** `Write::write`: the bytes are logged before the write is tried, so a
      failed write is logged too. */
  function Write(s: SessionWithLog, buf: seq<u8>): (res: (Result<nat, IoError>, SessionWithLog))
    ensures res.0.Ok? <==> s.inner.stream.input.fault.None?
    ensures res.0.Ok? ==> res.0.value == |buf|
    ensures res.1.inner.stream.input.sent == s.inner.stream.input.sent + (if res.0.Ok? then buf else [])
    ensures res.1.inner.stream.output == s.inner.stream.output
    ensures Appended(s.logger, res.1.logger, Line("write", buf))
  {
    var s1 := Log(s, "write", buf);
    var (result, w) := ScriptedIo.Write(s1.inner.stream.input, buf);
    (result, s1.(inner := s1.inner.(stream := s1.inner.stream.(input := w))))
  }

  /** `Write::flush`: passed through, not logged. */
  function Flush(s: SessionWithLog): (r: Result<(), IoError>)
    ensures r.Ok? <==> s.inner.stream.input.fault.None?
  {
    ScriptedIo.Flush(s.inner.stream.input)
  }

  /** `Read::read`: a successful read logs exactly the bytes it returns;
      a failed one logs nothing. */
  function Read(s: SessionWithLog, cap: nat): (res: (Result<seq<u8>, IoError>, SessionWithLog))
    ensures res.0.Ok? ==> |res.0.value| <= cap && res.0.value + res.1.inner.stream.Delivery() == s.inner.stream.Delivery()
    ensures res.0.Err? ==> res.1.inner.stream.Delivery() == s.inner.stream.Delivery()
    ensures res.1.inner.stream.input == s.inner.stream.input
    ensures res.0.Ok? ==> Appended(s.logger, res.1.logger, Line("read", res.0.value))
    ensures res.0.Err? ==> res.1.logger == s.logger
  {
    var (result, stream') := Streams.Read(s.inner.stream, cap);
    var s1 := s.(inner := s.inner.(stream := stream'));
    if result.Ok? then (result, Log(s1, "read", result.value)) else (result, s1)
  }

  /** `BufRead::fill_buf`: passed through, not logged. */
  function FillBuf(s: SessionWithLog): (res: (Result<seq<u8>, IoError>, SessionWithLog))
    ensures res.1.logger == s.logger
    ensures res.1.inner.stream.Delivery() == s.inner.stream.Delivery()
    ensures res.0.Ok? ==> HasPrefix(s.inner.stream.Delivery(), res.0.value)
  {
    var (result, stream') := StreamFillBuf(s.inner.stream);
    (result, s.(inner := s.inner.(stream := stream')))
  }

  /** `BufRead::consume`: passed through, not logged. */
  function Consume(s: SessionWithLog, amt: nat): (s': SessionWithLog)
    ensures s'.logger == s.logger
    ensures var p := s.inner.stream.Pending();
      p[..Min(amt, |p|)] + s'.inner.stream.Delivery() == s.inner.stream.Delivery()
  {
    StreamConsumeDelivery(s.inner.stream, amt);
    s.(inner := s.inner.(stream := StreamConsume(s.inner.stream, amt)))
  }

  // ---------------------------------------------------------------------
  // std's `read_until` and `read_line` over the session's fill_buf/consume

  /** `memchr`: the first position of `delim` in `data`. */
  function IndexOf(data: seq<u8>, delim: u8): (r: Option<nat>)
    ensures r.Some? ==> r.value < |data| && data[r.value] == delim && NoDelim(data[..r.value], delim)
    ensures r.None? ==> NoDelim(data, delim)
  {
    if |data| == 0 then None
    else if data[0] == delim then Some(0)
    else match IndexOf(data[1..], delim)
      case None => None
      case Some(i) =>
        assert data[..i + 1] == [data[0]] + data[1..][..i];
        Some(i + 1)
  }

  predicate NoDelim(bytes: seq<u8>, delim: u8) {
    forall k :: 0 <= k < |bytes| ==> bytes[k] != delim
  }

  /** What `read_until` is allowed to have appended: no delimiter except
      possibly as the very last byte. */
  predicate UpToDelim(got: seq<u8>, delim: u8) {
    |got| == 0 || NoDelim(got[..|got| - 1], delim)
  }

  lemma UpToDelimExtend(a: seq<u8>, b: seq<u8>, delim: u8)
    requires NoDelim(a, delim) && UpToDelim(b, delim)
    ensures UpToDelim(a + b, delim)
    ensures NoDelim(b, delim) ==> NoDelim(a + b, delim)
  {
    if |b| > 0 {
      assert (a + b)[..|a + b| - 1] == a + b[..|b| - 1];
    }
  }

  /** Reference definition of what `read_until` takes from `st` when no
      delimiter stops it: the read-ahead, the look-aside buffer, then what
      the child gives until end of file or an error other than Interrupted
      (std retries those). */
  function ToEnd(st: Stream): seq<u8> {
    st.Pending() + st.Available() + ReadToEnd(st.Script(), RetriesInterrupted).data
  }

  /** How reading `st` to the end that way stops. */
  function EndOf(st: Stream): Stop {
    ReadToEnd(st.Script(), RetriesInterrupted).stop
  }

  predicate EndsAt(got: seq<u8>, delim: u8) {
    |got| > 0 && got[|got| - 1] == delim
  }

  /** A successful `read_until` stops at the delimiter, or at end of file
      having taken everything before it. */
  predicate StopsAt(got: seq<u8>, st: Stream, delim: u8) {
    EndsAt(got, delim) || (got == ToEnd(st) && EndOf(st) == AtEof)
  }

  /** A failed `read_until` fails at the child's first error other than
      Interrupted, having taken everything before it. */
  predicate FailsAt(got: seq<u8>, st: Stream, err: IoError) {
    got == ToEnd(st) && EndOf(st) == FailedStop(err)
  }

  /** What a run of `read_until` from stream `st`, with the caller's
      buffer `acc` and `read` bytes already appended, leaves behind: what
      it took, and where it stopped. */
  predicate ReadUntilOutcome(st: Stream, delim: u8, acc: seq<u8>, read: nat,
                             res: (Result<nat, IoError>, seq<u8>, Stream)) {
    ReadUntilTakes(st, delim, acc, read, res) && ReadUntilStops(st, delim, acc, res)
  }

  /** The buffer only grew, by bytes taken in order from the front of what
      the stream would deliver, ending at the first delimiter if at all; an
      error is never Interrupted and comes before any delimiter. */
  predicate ReadUntilTakes(st: Stream, delim: u8, acc: seq<u8>, read: nat,
                           res: (Result<nat, IoError>, seq<u8>, Stream)) {
    && |acc| <= |res.1| && res.1[..|acc|] == acc
    && res.1[|acc|..] + res.2.Delivery() == st.Delivery()
    && res.2.input == st.input
    && UpToDelim(res.1[|acc|..], delim)
    && (res.0.Ok? ==> res.0.value == read + (|res.1| - |acc|))
    && (res.0.Err? ==> NoDelim(res.1[|acc|..], delim) && res.0.error.kind != Interrupted)
  }

  /** The run stopped at the delimiter or at end of file; an error comes
      after every byte the child gave. */
  predicate ReadUntilStops(st: Stream, delim: u8, acc: seq<u8>, res: (Result<nat, IoError>, seq<u8>, Stream)) {
    && |acc| <= |res.1|
    && (res.0.Ok? ==> StopsAt(res.1[|acc|..], st, delim))
    && (res.0.Err? ==> FailsAt(res.1[|acc|..], st, res.0.error))
  }

  /** One `fill_buf` leaves what reading to the end yields unchanged, or
      is where reading to the end stops. */
  lemma FillToEnd(st: Stream)
    ensures var (result, st1) := StreamFillBuf(st);
      (result.Ok? && |result.value| > 0) || (result.Err? && result.error.kind == Interrupted) ==>
        ToEnd(st1) == ToEnd(st) && EndOf(st1) == EndOf(st)
    ensures var result := StreamFillBuf(st).0;
      result == Ok([]) ==> ToEnd(st) == [] && EndOf(st) == AtEof
    ensures var result := StreamFillBuf(st).0;
      result.Err? && result.error.kind != Interrupted ==>
        ToEnd(st) == [] && EndOf(st) == FailedStop(result.error)
  {
    if |st.Pending()| == 0 {
      if |st.Available()| == 0 {
        FillFromChild(st);
      } else {
        FillFromLookAside(st);
      }
    }
  }

  /** A fill from the look-aside buffer moves its front into the
      read-ahead, which reading to the end takes first either way. */
  lemma FillFromLookAside(st: Stream)
    requires |st.Pending()| == 0 && |st.Available()| > 0
    ensures var (result, st1) := StreamFillBuf(st);
      result.Ok? && |result.value| > 0 && ToEnd(st1) == ToEnd(st) && EndOf(st1) == EndOf(st)
  {
    var st1 := StreamFillBuf(st).1;
    var n := Min(BufReaderCapacity, |st.Available()|);
    assert st1.Pending() == st.Available()[..n] && st1.Available() == st.Available()[n..];
    ToEndSplit(st, st1, n);
  }

  /** Splitting the look-aside buffer between the two buffers leaves
      reading to the end as it was. */
  lemma ToEndSplit(st: Stream, st1: Stream, n: nat)
    requires n <= |st.Available()| && st.Pending() == [] && st1.Script() == st.Script()
    requires st1.Pending() == st.Available()[..n] && st1.Available() == st.Available()[n..]
    ensures ToEnd(st1) == ToEnd(st) && EndOf(st1) == EndOf(st)
  {
    var a := st.Available();
    var later := ReadToEnd(st.Script(), RetriesInterrupted).data;
    assert a[..n] + a[n..] == a;
    assert ToEnd(st1) == a[..n] + a[n..] + later;
    assert ToEnd(st) == [] + a + later;
  }

  /** With both buffers empty the fill is one read of the child. */
  lemma FillFromChild(st: Stream)
    requires |st.Pending()| == 0 && |st.Available()| == 0
    ensures var (result, st1) := StreamFillBuf(st);
      (result.Ok? && |result.value| > 0) || (result.Err? && result.error.kind == Interrupted) ==>
        ToEnd(st1) == ToEnd(st) && EndOf(st1) == EndOf(st)
    ensures var result := StreamFillBuf(st).0;
      result == Ok([]) ==> ToEnd(st) == [] && EndOf(st) == AtEof
    ensures var result := StreamFillBuf(st).0;
      result.Err? && result.error.kind != Interrupted ==>
        ToEnd(st) == [] && EndOf(st) == FailedStop(result.error)
  {
    ReadToEndAfterRead(st.Script(), BufReaderCapacity, RetriesInterrupted);
  }

  /** What the loop of `read_until` relies on about one `fill_buf` of `st`
      that answered `fill`. */
  predicate FillFacts(st: Stream, fill: (Result<seq<u8>, IoError>, Stream)) {
    && fill.1.Delivery() == st.Delivery() && fill.1.input == st.input
    && (fill.0.Ok? ==> fill.0.value == fill.1.Pending())
    && (fill.0.Err? && fill.0.error.kind == Interrupted ==> |fill.1.Script()| < |st.Script()|)
  }

  /** What the loop relies on about one `fill_buf` to know where it stops. */
  predicate FillEnds(st: Stream, fill: (Result<seq<u8>, IoError>, Stream)) {
    && ((fill.0.Ok? && |fill.0.value| > 0) || (fill.0.Err? && fill.0.error.kind == Interrupted) ==>
          ToEnd(fill.1) == ToEnd(st) && EndOf(fill.1) == EndOf(st))
    && (fill.0 == Ok([]) ==> ToEnd(st) == [] && EndOf(st) == AtEof)
    && (fill.0.Err? && fill.0.error.kind != Interrupted ==>
          ToEnd(st) == [] && EndOf(st) == FailedStop(fill.0.error))
  }

  /** The loop of std's `read_until`: fill, append up to and including the
      first delimiter, consume what was appended; retry on Interrupted;
      stop at the delimiter or at an empty fill (end of file). */
  function ReadUntilFrom(st: Stream, delim: u8, acc: seq<u8>, read: nat): (res: (Result<nat, IoError>, seq<u8>, Stream))
    ensures ReadUntilOutcome(st, delim, acc, read, res)
    decreases |st.Delivery()|, |st.Script()|, 1
  {
    var fill := StreamFillBuf(st);
    StreamFillBufFacts(st);
    FillToEnd(st);
    ReadUntilAfterFill(st, fill, delim, acc, read)
  }

  /** One turn of the loop once `fill_buf` has answered. */
  function ReadUntilAfterFill(st: Stream, fill: (Result<seq<u8>, IoError>, Stream), delim: u8, acc: seq<u8>, read: nat)
    : (res: (Result<nat, IoError>, seq<u8>, Stream))
    requires FillFacts(st, fill) && FillEnds(st, fill)
    ensures ReadUntilOutcome(st, delim, acc, read, res)
    decreases |st.Delivery()|, |st.Script()|, 0
  {
    var st1 := fill.1;
    if fill.0.Err? then
      if fill.0.error.kind == Interrupted then
        var res := ReadUntilFrom(st1, delim, acc, read);
        RetryStep(st, fill, delim, acc, read, res);
        res
      else
        StopStep(st, fill, delim, acc, read);
        (Err(fill.0.error), acc, st1)
    else
      var available := fill.0.value;
      var found := IndexOf(available, delim);
      if found.Some? then
        DelimStep(st, fill, found.value, delim, acc, read);
        (Ok(read + found.value + 1), acc + available[..found.value + 1], StreamConsume(st1, found.value + 1))
      else if |available| == 0 then
        EndStep(st, fill, delim, acc, read);
        (Ok(read), acc, StreamConsume(st1, 0))
      else
        ConsumeShrinks(st, fill);
        var res := ReadUntilFrom(StreamConsume(st1, |available|), delim, acc + available, read + |available|);
        ChunkStep(st, fill, delim, acc, read, res);
        res
  }

  lemma RetryStep(st: Stream, fill: (Result<seq<u8>, IoError>, Stream), delim: u8, acc: seq<u8>, read: nat,
                  res: (Result<nat, IoError>, seq<u8>, Stream))
    requires FillFacts(st, fill) && FillEnds(st, fill) && fill.0.Err? && fill.0.error.kind == Interrupted
    requires ReadUntilOutcome(fill.1, delim, acc, read, res)
    ensures ReadUntilOutcome(st, delim, acc, read, res)
  {
  }

  lemma StopStep(st: Stream, fill: (Result<seq<u8>, IoError>, Stream), delim: u8, acc: seq<u8>, read: nat)
    requires FillFacts(st, fill) && FillEnds(st, fill) && fill.0.Err? && fill.0.error.kind != Interrupted
    ensures ReadUntilOutcome(st, delim, acc, read, (Err(fill.0.error), acc, fill.1))
  {
    assert acc[|acc|..] == [];
  }

  lemma EndStep(st: Stream, fill: (Result<seq<u8>, IoError>, Stream), delim: u8, acc: seq<u8>, read: nat)
    requires FillFacts(st, fill) && FillEnds(st, fill) && fill.0 == Ok([])
    ensures ReadUntilOutcome(st, delim, acc, read, (Ok(read), acc, StreamConsume(fill.1, 0)))
  {
    assert acc[|acc|..] == [];
    StreamConsumeDelivery(fill.1, 0);
    assert fill.1.Pending()[..0] == [];
  }

  lemma DelimStep(st: Stream, fill: (Result<seq<u8>, IoError>, Stream), i: nat, delim: u8, acc: seq<u8>, read: nat)
    requires FillFacts(st, fill) && fill.0.Ok?
    requires IndexOf(fill.0.value, delim) == Some(i)
    ensures i < |fill.0.value|
    ensures ReadUntilOutcome(st, delim, acc, read,
                             (Ok(read + i + 1), acc + fill.0.value[..i + 1], StreamConsume(fill.1, i + 1)))
  {
    var available := fill.0.value;
    StreamConsumeDelivery(fill.1, i + 1);
    var out := acc + available[..i + 1];
    assert out[..|acc|] == acc;
    assert out[|acc|..] == available[..i + 1];
    assert available[..i + 1][..i] == available[..i];
  }

  lemma ConsumeShrinks(st: Stream, fill: (Result<seq<u8>, IoError>, Stream))
    requires FillFacts(st, fill) && fill.0.Ok? && |fill.0.value| > 0
    ensures |StreamConsume(fill.1, |fill.0.value|).Delivery()| < |st.Delivery()|
  {
    StreamConsumeDelivery(fill.1, |fill.0.value|);
  }

  lemma ChunkStep(st: Stream, fill: (Result<seq<u8>, IoError>, Stream), delim: u8, acc: seq<u8>, read: nat,
                  res: (Result<nat, IoError>, seq<u8>, Stream))
    requires FillFacts(st, fill) && FillEnds(st, fill) && fill.0.Ok? && |fill.0.value| > 0
    requires IndexOf(fill.0.value, delim).None?
    requires ReadUntilOutcome(StreamConsume(fill.1, |fill.0.value|), delim, acc + fill.0.value,
                              read + |fill.0.value|, res)
    ensures ReadUntilOutcome(st, delim, acc, read, res)
  {
    ChunkTakes(st, fill, delim, acc, read, res);
    ChunkStops(st, fill, delim, acc, read, res);
  }

  lemma ChunkStops(st: Stream, fill: (Result<seq<u8>, IoError>, Stream), delim: u8, acc: seq<u8>, read: nat,
                   res: (Result<nat, IoError>, seq<u8>, Stream))
    requires FillFacts(st, fill) && FillEnds(st, fill) && fill.0.Ok? && |fill.0.value| > 0
    requires ReadUntilTakes(StreamConsume(fill.1, |fill.0.value|), delim, acc + fill.0.value,
                            read + |fill.0.value|, res)
    requires ReadUntilStops(StreamConsume(fill.1, |fill.0.value|), delim, acc + fill.0.value, res)
    ensures ReadUntilStops(st, delim, acc, res)
  {
    var available := fill.0.value;
    var rest := res.1[|acc + available|..];
    var got := res.1[|acc|..];
    assert res.1[..|acc + available|] == acc + available;
    assert got == available + rest;
    ConsumeToEnd(fill.1);
    ChunkEnds(st, fill.1, StreamConsume(fill.1, |available|), available, rest, got, delim, res.0);
  }

  lemma ChunkTakes(st: Stream, fill: (Result<seq<u8>, IoError>, Stream), delim: u8, acc: seq<u8>, read: nat,
                   res: (Result<nat, IoError>, seq<u8>, Stream))
    requires FillFacts(st, fill) && fill.0.Ok? && |fill.0.value| > 0
    requires IndexOf(fill.0.value, delim).None?
    requires ReadUntilTakes(StreamConsume(fill.1, |fill.0.value|), delim, acc + fill.0.value,
                            read + |fill.0.value|, res)
    ensures ReadUntilTakes(st, delim, acc, read, res)
  {
    var available := fill.0.value;
    StreamConsumeDelivery(fill.1, |available|);
    var out := res.1;
    var rest := out[|acc + available|..];
    assert out[..|acc|] == (acc + available)[..|acc|] == acc;
    assert out[|acc|..] == available + rest;
    assert available[..|available|] == available;
    UpToDelimExtend(available, rest, delim);
  }

  /** A chunk without the delimiter in front of where the rest of the run
      stopped: the whole run stops there too. */
  lemma ChunkEnds(st: Stream, st1: Stream, consumed: Stream, chunk: seq<u8>, rest: seq<u8>, got: seq<u8>,
                  delim: u8, result: Result<nat, IoError>)
    requires got == chunk + rest
    requires ToEnd(st1) == ToEnd(st) && EndOf(st1) == EndOf(st)
    requires ToEnd(st1) == chunk + ToEnd(consumed) && EndOf(consumed) == EndOf(st1)
    requires result.Ok? ==> StopsAt(rest, consumed, delim)
    requires result.Err? ==> FailsAt(rest, consumed, result.error)
    ensures result.Ok? ==> StopsAt(got, st, delim)
    ensures result.Err? ==> FailsAt(got, st, result.error)
  {
    if result.Ok? && EndsAt(rest, delim) {
      assert got[|got| - 1] == rest[|rest| - 1];
    }
  }

  /** Consuming the whole read-ahead moves it out of what reading to the
      end yields. */
  lemma ConsumeToEnd(st: Stream)
    ensures ToEnd(st) == st.Pending() + ToEnd(StreamConsume(st, |st.Pending()|))
    ensures EndOf(StreamConsume(st, |st.Pending()|)) == EndOf(st)
  {
    var st' := StreamConsume(st, |st.Pending()|);
    assert st'.Pending() == [] && st'.Available() == st.Available() && st'.Script() == st.Script();
  }

  /** std's `read_until` on the session: the caller's buffer and what the
      session's `fill_buf`/`consume` hand out. */
  function SessionReadUntil(s: Sessions.Session, delim: u8, buf: seq<u8>)
    : (res: (Result<nat, IoError>, seq<u8>, Sessions.Session))
    ensures ReadUntilOutcome(s.stream, delim, buf, 0, (res.0, res.1, res.2.stream))
    ensures res.2.expectTimeout == s.expectTimeout
  {
    var (result, buf', stream') := ReadUntilFrom(s.stream, delim, buf, 0);
    (result, buf', s.(stream := stream'))
  }

  /** The first `n` bytes of the buffer `buf'` were logged as read. */
  predicate LoggedFront(buf': seq<u8>, n: nat, log: Option<Sink>, log': Option<Sink>) {
    n <= |buf'| && Appended(log, log', Line("read", buf'[..n]))
  }

  /** What a successful `read_until` did: the buffer grew by the next `n`
      bytes of `d`, the bytes the stream would deliver, ending at the first
      delimiter if at all; `rest` is what is left of them, and exactly the
      appended bytes were logged. */
  predicate LoggedUntil(d: seq<u8>, n: nat, delim: u8, buf: seq<u8>, buf': seq<u8>, rest: seq<u8>,
                        log: Option<Sink>, log': Option<Sink>)
  {
    && n <= |d| && buf' == buf + d[..n] && rest == d[n..]
    && UpToDelim(d[..n], delim)
    && Appended(log, log', Line("read", d[..n]))
  }

  /** What a failed `read_until` did: the buffer grew by some of the next
      bytes of `d`, none of them the delimiter, and the error is not
      Interrupted (std retries those). */
  predicate FailedUntil(d: seq<u8>, delim: u8, buf: seq<u8>, buf': seq<u8>, err: IoError) {
    && err.kind != Interrupted
    && |buf| <= |buf'| && |buf'| - |buf| <= |d| && buf' == buf + d[..|buf'| - |buf|]
    && NoDelim(buf'[|buf|..], delim)
  }

  /** `BufRead::read_until` of the wrapper as written: it logs the first
      `size` bytes of the buffer, which are the appended bytes only when
      the buffer started out empty. */
  function ReadUntilAsWritten(s: SessionWithLog, delim: u8, buf: seq<u8>)
    : (res: (Result<nat, IoError>, seq<u8>, SessionWithLog))
    ensures res.0.Ok? ==> LoggedFront(res.1, res.0.value, s.logger, res.2.logger)
    ensures res.0.Err? ==> res.2.logger == s.logger
  {
    var (result, buf', inner') := SessionReadUntil(s.inner, delim, buf);
    var s1 := s.(inner := inner');
    if result.Err? then (result, buf', s1)
    else (result, buf', Log(s1, "read", buf'[..result.value]))
  }

  /** The evidently intended `read_until` of the wrapper: the bytes this
      call appended are the ones logged. */
  function ReadUntil(s: SessionWithLog, delim: u8, buf: seq<u8>)
    : (res: (Result<nat, IoError>, seq<u8>, SessionWithLog))
    ensures res.0.Ok? ==>
      LoggedUntil(s.inner.stream.Delivery(), res.0.value, delim, buf, res.1, res.2.inner.stream.Delivery(),
                  s.logger, res.2.logger)
    ensures res.0.Err? ==>
      FailedUntil(s.inner.stream.Delivery(), delim, buf, res.1, res.0.error) && res.2.logger == s.logger
    // it stops at the delimiter or end of file, and fails only where the child's output does
    ensures ReadUntilStops(s.inner.stream, delim, buf, (res.0, res.1, res.2.inner.stream))
    ensures res.2.inner.stream.input == s.inner.stream.input
  {
    var (result, buf', inner') := SessionReadUntil(s.inner, delim, buf);
    ReadUntilAppends(s.inner.stream.Delivery(), buf, buf', inner'.stream.Delivery());
    var s1 := s.(inner := inner');
    if result.Err? then (result, buf', s1)
    else (result, buf', Log(s1, "read", buf'[|buf|..]))
  }

  lemma ReadUntilAppends(d: seq<u8>, buf: seq<u8>, buf': seq<u8>, d': seq<u8>)
    requires |buf| <= |buf'| && buf'[..|buf|] == buf && buf'[|buf|..] + d' == d
    ensures |buf'| - |buf| <= |d|
    ensures buf' == buf + d[..|buf'| - |buf|] && d' == d[|buf'| - |buf|..]
    ensures buf'[|buf|..] == d[..|buf'| - |buf|]
  {
    assert buf' == buf'[..|buf|] + buf'[|buf|..];
  }

  /** With an empty buffer the wrapper as written logs the right bytes. */
  lemma ReadUntilAsWrittenAgreesOnEmptyBuffer(s: SessionWithLog, delim: u8)
    ensures ReadUntilAsWritten(s, delim, []) == ReadUntil(s, delim, [])
  {
    var res := SessionReadUntil(s.inner, delim, []);
    assert res.1[..|res.1|] == res.1[0..];
  }

  /** The session of the counterexample: a logger is set and the child
      has printed "c\n". */
  function PrintsCNewline(): SessionWithLog {
    SessionWithLog(
      Sessions.Spawned(Stream(Writer([], None), BufReader([], ReaderWithBuffer([Data([0x63, 0x0A])], [])))),
      Some(Sink([])))
  }

  lemma ReadUntilOnPrintsCNewline()
    ensures SessionReadUntil(PrintsCNewline().inner, 0x0A, [0x61, 0x62]).0 == Ok(2)
    ensures SessionReadUntil(PrintsCNewline().inner, 0x0A, [0x61, 0x62]).1 == [0x61, 0x62, 0x63, 0x0A]
  {
    var st := PrintsCNewline().inner.stream;
    var fill := StreamFillBuf(st);
    assert fill.0 == Ok([0x63, 0x0A]);
    assert IndexOf([0x63, 0x0A], 0x0A) == Some(1);
    assert ReadUntilFrom(st, 0x0A, [0x61, 0x62], 0) == ReadUntilAfterFill(st, fill, 0x0A, [0x61, 0x62], 0);
  }

  /** A buffer that already holds "ab" and a child that prints "c\n": the
      wrapper as written logs `read "ab"`, the corrected one `read "c\n"`. */
  lemma ReadUntilAsWrittenLogsOldBytes()
    ensures Appended(PrintsCNewline().logger, ReadUntilAsWritten(PrintsCNewline(), 0x0A, [0x61, 0x62]).2.logger,
                     Line("read", [0x61, 0x62]))
    ensures Appended(PrintsCNewline().logger, ReadUntil(PrintsCNewline(), 0x0A, [0x61, 0x62]).2.logger,
                     Line("read", [0x63, 0x0A]))
    ensures Line("read", [0x61, 0x62]) != Line("read", [0x63, 0x0A])
  {
    var s := PrintsCNewline();
    var buf: seq<u8> := [0x61, 0x62];
    ReadUntilOnPrintsCNewline();
    var res := SessionReadUntil(s.inner, 0x0A, buf);
    var asWritten := ReadUntilAsWritten(s, 0x0A, buf);
    assert asWritten.0 == Ok(2);
    assert res.1[..2] == buf;
    var corrected := ReadUntil(s, 0x0A, buf);
    assert corrected.0 == Ok(2);
    assert s.inner.stream.Delivery()[..2] == [0x63, 0x0A];
    LineRoundTrip("read", [0x61, 0x62]);
    LineRoundTrip("read", [0x63, 0x0A]);
  }

  /** The error std's `read_line` reports for bytes that are not UTF-8. */
  const InvalidUtf8: IoError := IoError(InvalidData, "stream did not contain " + "valid UTF-8")

  /** std's `read_line` on the session: `read_until` a line feed into the
      string's bytes, then keep what was appended only if it is UTF-8;
      otherwise the string is cut back and, unless the read itself failed,
      InvalidData is reported. */
  function SessionReadLine(s: Sessions.Session, buf: string): (res: (Result<nat, IoError>, string, Sessions.Session))
    ensures var d := s.stream.Delivery();
      var taken := |d| - |res.2.stream.Delivery()|;
      && 0 <= taken && res.2.stream.Delivery() == d[taken..]
      && (Decode(d[..taken]).Some? ==> Encode(res.1) == Encode(buf) + d[..taken])
      && (Decode(d[..taken]).None? ==> res.1 == buf && res.0.Err?)
      && (res.0.Ok? ==> res.0.value == taken && Decode(d[..taken]).Some?)
    // the line taken ends at the first line feed, or at end of file ...
    ensures var taken := |s.stream.Delivery()| - |res.2.stream.Delivery()|;
      && UpToDelim(s.stream.Delivery()[..taken], 0x0A)
      && (res.0.Ok? ==> StopsAt(s.stream.Delivery()[..taken], s.stream, 0x0A))
    // ... and a failure is the child's, or a whole line that is not UTF-8
    ensures var taken := |s.stream.Delivery()| - |res.2.stream.Delivery()|;
      res.0.Err? ==>
        || FailsAt(s.stream.Delivery()[..taken], s.stream, res.0.error)
        || (res.0.error == InvalidUtf8 && StopsAt(s.stream.Delivery()[..taken], s.stream, 0x0A))
    ensures res.2.stream.input == s.stream.input
    ensures res.0.Err? ==> res.0.error.kind != Interrupted
  {
    var bytes := Encode(buf);
    var (result, bytes', inner') := SessionReadUntil(s, 0x0A, bytes);
    ReadUntilAppends(s.stream.Delivery(), bytes, bytes', inner'.stream.Delivery());
    match Decode(bytes'[|bytes|..])
    case None =>
      (if result.Err? then result else Err(InvalidUtf8), buf, inner')
    case Some(text) =>
      EncodeAppend(buf, text);
      EncodeDecode(bytes'[|bytes|..]);
      (result, buf + text, inner')
  }

  /** The string grew by the next `n` bytes of `d`, the bytes the stream
      would deliver, and `rest` is what is left of them. */
  predicate GrewBy(d: seq<u8>, n: nat, before: string, after: string, rest: seq<u8>) {
    && n <= |d|
    && Encode(after) == Encode(before) + d[..n]
    && rest == d[n..]
  }

  /** What a successful `read_line` of the wrapper did: the string grew by
      the next bytes of the delivery and exactly those were logged. */
  predicate LoggedLine(d: seq<u8>, n: nat, before: string, after: string, rest: seq<u8>,
                       log: Option<Sink>, log': Option<Sink>)
  {
    GrewBy(d, n, before, after, rest) && Appended(log, log', Line("read", d[..n]))
  }

  /** `BufRead::read_line` of the wrapper: the bytes the call added to the
      string are logged. */
  function ReadLine(s: SessionWithLog, buf: string): (res: (Result<nat, IoError>, string, SessionWithLog))
    ensures res.0.Ok? ==>
      LoggedLine(s.inner.stream.Delivery(), res.0.value, buf, res.1, res.2.inner.stream.Delivery(),
                 s.logger, res.2.logger)
    ensures res.0.Err? ==> res.2.logger == s.logger
    ensures res.2.inner.stream.input == s.inner.stream.input
  {
    SessionReadLineOk(s.inner, buf);
    LogReadLine(s, buf, SessionReadLine(s.inner, buf))
  }

  /** The logging half of `read_line`, given what the inner session's
      `read_line` returned: on success, the bytes it appended to the
      string are cut out of the string's bytes and logged. */
  function LogReadLine(s: SessionWithLog, buf: string, inner: (Result<nat, IoError>, string, Sessions.Session))
    : (res: (Result<nat, IoError>, string, SessionWithLog))
    requires inner.0.Ok? ==>
      GrewBy(s.inner.stream.Delivery(), inner.0.value, buf, inner.1, inner.2.stream.Delivery())
    ensures res.0 == inner.0 && res.1 == inner.1 && res.2.inner == inner.2
    ensures res.0.Ok? ==>
      LoggedLine(s.inner.stream.Delivery(), res.0.value, buf, res.1, res.2.inner.stream.Delivery(),
                 s.logger, res.2.logger)
    ensures res.0.Err? ==> res.2.logger == s.logger
  {
    var (result, buf', inner') := inner;
    var s1 := s.(inner := inner');
    if result.Err? then (result, buf', s1)
    else
      var start := |Encode(buf)|;
      var d := s.inner.stream.Delivery();
      AppendedSlice(Encode(buf), Encode(buf'), d, result.value);
      var got := Encode(buf')[start..start + result.value];
      var s2 := Log(s1, "read", got);
      LoggedLineOf(d, result.value, buf, buf', inner'.stream.Delivery(), s.logger, s2.logger, got);
      (result, buf', s2)
  }

  lemma LoggedLineOf(d: seq<u8>, n: nat, before: string, after: string, rest: seq<u8>,
                     log: Option<Sink>, log': Option<Sink>, got: seq<u8>)
    requires GrewBy(d, n, before, after, rest) && got == d[..n]
    requires Appended(log, log', Line("read", got))
    ensures LoggedLine(d, n, before, after, rest, log, log')
  {
  }

  /** A successful `read_line` took `n` bytes of the delivery into the
      string's bytes, and the rest is still to come. */
  lemma SessionReadLineOk(s: Sessions.Session, buf: string)
    ensures var (result, buf', inner') := SessionReadLine(s, buf);
      result.Ok? ==> GrewBy(s.stream.Delivery(), result.value, buf, buf', inner'.stream.Delivery())
  {
  }

  /** The bytes a call appended, cut back out of the result. */
  lemma AppendedSlice(before: seq<u8>, after: seq<u8>, d: seq<u8>, n: nat)
    requires n <= |d| && after == before + d[..n]
    ensures |before| + n <= |after| && after[|before|..|before| + n] == d[..n]
  {
  }

  // ---------------------------------------------------------------------
  // The two logging scenarios of the unit tests, for any plain line of
  // text in place of their "Hello World"

  /** Text Debug prints without escapes. */
  predicate PlainText(t: string) {
    forall i :: 0 <= i < |t| ==> IsPrintable(t[i]) && t[i] != '\\' && t[i] != '"'
  }

  /** What `cat` on a terminal echoes for the line `text`. */
  function Echo(text: string): string {
    text + "\r\n"
  }

  /** The log both tests expect: `send_line "<text>"` and
      `read "<text>\\r\\n"`, one per line. */
  function ExpectedLog(text: string): string {
    "send_line" + " " + ("\"" + text + "\"") + "\n"
    + ("read" + " " + ("\"" + (text + "\\r\\n") + "\"") + "\n")
  }

  /** A session with a fresh logger whose child will echo the line. */
  function EchoSession(text: string): SessionWithLog {
    SessionWithLog(
      Sessions.Spawned(Stream(Writer([], None), BufReader([], ReaderWithBuffer([Data(Encode(Echo(text)))], [])))),
      Some(Sink([])))
  }

  lemma QuotePlain(text: string)
    requires PlainText(text)
    ensures Quote(text) == "\"" + text + "\""
    ensures Quote(Echo(text)) == "\"" + (text + "\\r\\n") + "\""
  {
    EscapePlain(text);
    EscapeAppend(text, "\r\n");
    EscapeLineEnd();
  }

  /** The echo's line ending is written as the four characters `\r\n`. */
  lemma EscapeLineEnd()
    ensures Escape("\r\n") == "\\r\\n"
  {
    assert "\r\n"[1..] == "\n";
    assert Escape("\r\n") == "\\r" + Escape("\n");
    assert Escape("\n") == "\\n";
  }

  /** Text without a line feed encodes to bytes without one. */
  lemma {:induction false} EncodeWithoutNewline(t: string)
    requires forall i :: 0 <= i < |t| ==> t[i] != '\n'
    ensures NoDelim(Encode(t), 0x0A)
  {
    if |t| > 0 {
      EncodeWithoutNewline(t[1..]);
      assert Encode(t) == EncodeChar(t[0]) + Encode(t[1..]);
    }
  }

  /** The echoed line is text without a line feed, then the line feed. */
  lemma EchoBytes(text: string)
    requires PlainText(text)
    ensures Encode(Echo(text)) == Encode(text + "\r") + [0x0A]
    ensures NoDelim(Encode(text + "\r"), 0x0A)
  {
    assert Echo(text) == (text + "\r") + "\n";
    EncodeAppend(text + "\r", "\n");
    assert forall i :: 0 <= i < |text + "\r"| ==> (text + "\r")[i] != '\n' by {
      forall i | 0 <= i < |text + "\r"|
        ensures (text + "\r")[i] != '\n'
      {
        if i < |text| {
          assert (text + "\r")[i] == text[i] && IsPrintable(text[i]);
        }
      }
    }
    EncodeWithoutNewline(text + "\r");
  }

  lemma {:induction false} IndexOfAfter(x: seq<u8>, delim: u8)
    requires NoDelim(x, delim)
    ensures IndexOf(x + [delim], delim) == Some(|x|)
  {
    if |x| > 0 {
      assert (x + [delim])[1..] == x[1..] + [delim];
      IndexOfAfter(x[1..], delim);
    }
  }

  /** When the first fill holds a whole line, `read_until` takes exactly it. */
  lemma ReadUntilOneLine(st: Stream, x: seq<u8>, delim: u8, acc: seq<u8>)
    requires StreamFillBuf(st).0 == Ok(x + [delim]) && NoDelim(x, delim)
    ensures ReadUntilFrom(st, delim, acc, 0).0 == Ok(|x| + 1)
    ensures ReadUntilFrom(st, delim, acc, 0).1 == acc + (x + [delim])
  {
    IndexOfAfter(x, delim);
    var fill := StreamFillBuf(st);
    StreamFillBufFacts(st);
    FillToEnd(st);
    assert FillFacts(st, fill) && FillEnds(st, fill);
    assert ReadUntilFrom(st, delim, acc, 0) == ReadUntilAfterFill(st, fill, delim, acc, 0);
    assert (x + [delim])[..|x| + 1] == x + [delim];
  }

  /** The echo is there in one piece at the first fill, and one read of
      1024 bytes takes all of it. */
  lemma EchoFill(text: string, st: Stream)
    requires |text| <= 254
    requires st.output == EchoSession(text).inner.stream.output
    ensures StreamFillBuf(st).0 == Ok(Encode(Echo(text)))
    ensures Streams.Read(st, 1024).0 == Ok(Encode(Echo(text)))
  {
    var hw := Encode(Echo(text));
    assert 2 <= |hw| <= 1024;
    assert InnerRead([Data(hw)], BufReaderCapacity).0 == Ok(hw);
    assert Streams.FillBuf(st.output).0 == Ok(hw);
    assert hw[..|hw|] == hw;
  }

  /** `read_line` on the echo takes the whole line into the string. */
  lemma EchoReadLine(text: string, inner: Sessions.Session)
    requires PlainText(text)
    requires StreamFillBuf(inner.stream).0 == Ok(Encode(Echo(text)))
    ensures SessionReadLine(inner, "").0 == Ok(|Encode(Echo(text))|)
    ensures SessionReadLine(inner, "").1 == Echo(text)
  {
    EchoBytes(text);
    SessionReadLineOneLine(inner, Echo(text), Encode(text + "\r"));
  }

  /** When the first fill holds a whole line that is UTF-8, `read_line`
      into an empty string yields exactly that line. */
  lemma SessionReadLineOneLine(s: Sessions.Session, line: string, x: seq<u8>)
    requires Encode(line) == x + [0x0A] && NoDelim(x, 0x0A)
    requires StreamFillBuf(s.stream).0 == Ok(Encode(line))
    ensures SessionReadLine(s, "").0 == Ok(|Encode(line)|)
    ensures SessionReadLine(s, "").1 == line
  {
    SessionReadUntilOneLine(s, x, 0x0A);
    SessionReadLineWhole(s, line);
  }

  /** When `read_until` takes exactly the bytes of a string, `read_line`
      into an empty string yields that string. */
  lemma SessionReadLineWhole(s: Sessions.Session, line: string)
    requires SessionReadUntil(s, 0x0A, []).0 == Ok(|Encode(line)|)
    requires SessionReadUntil(s, 0x0A, []).1 == Encode(line)
    ensures SessionReadLine(s, "").0 == Ok(|Encode(line)|)
    ensures SessionReadLine(s, "").1 == line
  {
    var empty: string := "";
    assert Encode(empty) == [];
    var bytes' := SessionReadUntil(s, 0x0A, []).1;
    assert bytes'[0..] == Encode(line);
    DecodeEncode(line);
    assert empty + line == line;
  }

  lemma SessionReadUntilOneLine(s: Sessions.Session, x: seq<u8>, delim: u8)
    requires StreamFillBuf(s.stream).0 == Ok(x + [delim]) && NoDelim(x, delim)
    ensures SessionReadUntil(s, delim, []).0 == Ok(|x| + 1)
    ensures SessionReadUntil(s, delim, []).1 == x + [delim]
  {
    ReadUntilOneLine(s.stream, x, delim, []);
    assert [] + (x + [delim]) == x + [delim];
  }

  /** The log after `send_line(text)`: the first expected line. */
  lemma SendLineLogged(text: string)
    requires PlainText(text)
    ensures SendLine(EchoSession(text), text, Sessions.Unix).1.logger
         == Some(Sink(Encode("send_line" + " " + ("\"" + text + "\"") + "\n")))
    ensures SendLine(EchoSession(text), text, Sessions.Unix).1.inner.stream.output
         == EchoSession(text).inner.stream.output
  {
    QuotePlain(text);
    var first := "send_line" + " " + Quote(text) + "\n";
    assert [] + Encode(first) == Encode(first);
  }

  /** Appending the `read` line of the echo completes the expected log. */
  lemma ReadOfEchoLogged(text: string, before: Option<Sink>, after: Option<Sink>)
    requires PlainText(text)
    requires before == Some(Sink(Encode("send_line" + " " + ("\"" + text + "\"") + "\n")))
    requires Appended(before, after, Line("read", Encode(Echo(text))))
    ensures after == Some(Sink(Encode(ExpectedLog(text))))
  {
    QuotePlain(text);
    LineOfText("read", Echo(text));
    var first := "send_line" + " " + ("\"" + text + "\"") + "\n";
    var second := "read" + " " + ("\"" + (text + "\\r\\n") + "\"") + "\n";
    assert Line("read", Encode(Echo(text))) == second;
    EncodeAppend(first, second);
  }

  /** The `log` test: `send_line(text)` and one `read` of up to 1024 bytes
      leave exactly the two expected lines in the log. */
  lemma LogOfSendLineAndRead(text: string)
    requires PlainText(text) && |text| <= 254
    ensures var s1 := SendLine(EchoSession(text), text, Sessions.Unix).1;
      var r := Read(s1, 1024);
      && r.0 == Ok(Encode(Echo(text)))
      && r.1.logger == Some(Sink(Encode(ExpectedLog(text))))
  {
    var s1 := SendLine(EchoSession(text), text, Sessions.Unix).1;
    SendLineLogged(text);
    EchoFill(text, s1.inner.stream);
    var r := Read(s1, 1024);
    ReadOfEchoLogged(text, s1.logger, r.1.logger);
  }

  /** The `log_read_line` test: after `send_line(text)`, `read_line` fills
      the string with the echoed line and the log holds the same two
      lines. */
  lemma LogOfSendLineAndReadLine(text: string)
    requires PlainText(text) && |text| <= 254
    ensures var s1 := SendLine(EchoSession(text), text, Sessions.Unix).1;
      var r := ReadLine(s1, "");
      && r.0 == Ok(|Encode(Echo(text))|)
      && r.1 == Echo(text)
      && r.2.logger == Some(Sink(Encode(ExpectedLog(text))))
  {
    var s1 := SendLine(EchoSession(text), text, Sessions.Unix).1;
    SendLineLogged(text);
    EchoFill(text, s1.inner.stream);
    EchoReadLine(text, s1.inner);
    var r := ReadLine(s1, "");
    var hw := Encode(Echo(text));
    assert r.0 == Ok(|hw|);
    EchoDelivery(text, s1.inner.stream);
    assert s1.inner.stream.Delivery()[..|hw|] == hw;
    ReadOfEchoLogged(text, s1.logger, r.2.logger);
  }

  /** All the child of the echo session will ever deliver is the echo. */
  lemma EchoDelivery(text: string, st: Stream)
    requires st.output == EchoSession(text).inner.stream.output
    ensures st.Delivery() == Encode(Echo(text))
  {
    var hw := Encode(Echo(text));
    assert Flat([Data(hw)]) == hw + Flat([]);
  }

  /** The test's own line is plain text. */
  lemma HelloWorldIsPlain()
    ensures PlainText("Hello World")
  {
  }
}
