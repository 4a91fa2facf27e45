/** The crate's error type (src/error.rs): its variants, the `From`
    conversions into it and the text its `Display` implementation prints. */
module Errors {
  import opened Base

  /** The part of `std::io::ErrorKind` the core branches on: the stream
      layer asks whether an error is `WouldBlock`, std's `read_until`
      retries on `Interrupted`, and `read_line` reports `InvalidData`. */
  datatype ErrorKind = WouldBlock | Interrupted | InvalidData | OtherKind

  /** A `std::io::Error`, reduced to its kind and the text its own
      `Display` prints. */
  datatype IoError = IoError(kind: ErrorKind, description: string)

  /** The error a non-blocking read reports when nothing is ready. */
  const WouldBlockError: IoError := IoError(WouldBlock, "")

  /** `expectrl::Error`. `Nix` exists on unix builds and `Win` on windows
      builds; each carries the display text of the wrapped platform error. */
  datatype Error =
    | IO(io: IoError)
    | Nix(nix: string)
    | Win(win: string)
    | CommandParsing
    | RegexParsing
    | ExpectTimeout
    | Eof
    | Other(message: string)

  // The fixed messages, written in short pieces so that the verifier can
  // index into them.
  const CommandParsingText: string := "Can't parse a " + "command string, " + "please check it out"
  const RegexParsingText: string := "Can't parse a " + "regex expression"
  const ExpectTimeoutText: string := "Reached a " + "timeout for expect " + "type of command"
  const EofText: string := "EOF was reached; " + "the read may " + "successed later"

  /** The text `format!("{}", e)` produces. */
  function Display(e: Error): (text: string)
    ensures |text| > 0
  {
    match e
    case IO(err) => "IO error " + err.description
    case Nix(err) => "Nix error " + err
    case Win(err) => "Win error " + err
    case CommandParsing => CommandParsingText
    case RegexParsing => RegexParsingText
    case ExpectTimeout => ExpectTimeoutText
    case Other(message) => "Error " + message
    case Eof => EofText
  }

  /** `impl From<io::Error> for Error`. */
  function FromIo(err: IoError): Error {
    IO(err)
  }

  /** `impl From<String> for Error`. */
  function FromString(message: string): Error {
    Other(message)
  }

  /** The variant of an error, forgetting its payload. */
  datatype Variant =
    | IOVariant | NixVariant | WinVariant | CommandParsingVariant
    | RegexParsingVariant | ExpectTimeoutVariant | EofVariant | OtherVariant

  function VariantOf(e: Error): Variant {
    match e
    case IO(_) => IOVariant
    case Nix(_) => NixVariant
    case Win(_) => WinVariant
    case CommandParsing => CommandParsingVariant
    case RegexParsing => RegexParsingVariant
    case ExpectTimeout => ExpectTimeoutVariant
    case Eof => EofVariant
    case Other(_) => OtherVariant
  }

  /** Reads a displayed error text back to the variant that printed it:
      the fixed messages by equality, the rest by their leading words. */
  function Classify(text: string): Option<Variant> {
    if HasPrefix(text, "IO error ") then Some(IOVariant)
    else if HasPrefix(text, "Nix error ") then Some(NixVariant)
    else if HasPrefix(text, "Win error ") then Some(WinVariant)
    else if text == CommandParsingText then Some(CommandParsingVariant)
    else if text == RegexParsingText then Some(RegexParsingVariant)
    else if text == ExpectTimeoutText then Some(ExpectTimeoutVariant)
    else if text == EofText then Some(EofVariant)
    else if HasPrefix(text, "Error ") then Some(OtherVariant)
    else None
  }

  /** The message an `Other` error's text carries after its "Error " lead. */
  function MessageOf(text: string): Option<string> {
    if HasPrefix(text, "Error ") then Some(text[6..]) else None
  }

  /** Every variant has its own formatting arm: the displayed text alone
      tells which variant printed it. */
  lemma ClassifyDisplay(e: Error)
    ensures Classify(Display(e)) == Some(VariantOf(e))
  {
    match e
    case Other(m) =>
      var t := "Error " + m;
      assert t[0] == 'E' && t[1] == 'r';
      assert CommandParsingText[0] == 'C' && RegexParsingText[0] == 'C';
      assert ExpectTimeoutText[0] == 'R' && EofText[1] == 'O';
      assert !HasPrefix(t, "IO error ") by { assert "IO error "[0] != t[0]; }
      assert !HasPrefix(t, "Nix error ") by { assert "Nix error "[0] != t[0]; }
      assert !HasPrefix(t, "Win error ") by { assert "Win error "[0] != t[0]; }
      assert t != CommandParsingText by { assert CommandParsingText[0] != t[0]; }
      assert t != RegexParsingText by { assert RegexParsingText[0] != t[0]; }
      assert t != ExpectTimeoutText by { assert ExpectTimeoutText[0] != t[0]; }
      assert t != EofText by { assert EofText[1] != t[1]; }
      assert HasPrefix(t, "Error ");
    case IO(err) =>
      assert HasPrefix("IO error " + err.description, "IO error ");
    case Nix(err) =>
      var t := "Nix error " + err;
      assert !HasPrefix(t, "IO error ") by { assert "IO error "[0] != t[0]; }
      assert HasPrefix(t, "Nix error ");
    case Win(err) =>
      var t := "Win error " + err;
      assert !HasPrefix(t, "IO error ") by { assert "IO error "[0] != t[0]; }
      assert !HasPrefix(t, "Nix error ") by { assert "Nix error "[0] != t[0]; }
      assert HasPrefix(t, "Win error ");
    case CommandParsing =>
      var t := CommandParsingText;
      assert t[0] == 'C';
      assert !HasPrefix(t, "IO error ") by { assert "IO error "[0] != t[0]; }
      assert !HasPrefix(t, "Nix error ") by { assert "Nix error "[0] != t[0]; }
      assert !HasPrefix(t, "Win error ") by { assert "Win error "[0] != t[0]; }
    case RegexParsing =>
      var t := RegexParsingText;
      assert t[0] == 'C' && t[14] == 'r' && CommandParsingText[14] == 'c';
      assert !HasPrefix(t, "IO error ") by { assert "IO error "[0] != t[0]; }
      assert !HasPrefix(t, "Nix error ") by { assert "Nix error "[0] != t[0]; }
      assert !HasPrefix(t, "Win error ") by { assert "Win error "[0] != t[0]; }
      assert t != CommandParsingText;
    case ExpectTimeout =>
      var t := ExpectTimeoutText;
      assert t[0] == 'R' && CommandParsingText[0] == 'C' && RegexParsingText[0] == 'C';
      assert !HasPrefix(t, "IO error ") by { assert "IO error "[0] != t[0]; }
      assert !HasPrefix(t, "Nix error ") by { assert "Nix error "[0] != t[0]; }
      assert !HasPrefix(t, "Win error ") by { assert "Win error "[0] != t[0]; }
    case Eof =>
      var t := EofText;
      assert t[0] == 'E' && CommandParsingText[0] == 'C' && RegexParsingText[0] == 'C';
      assert ExpectTimeoutText[0] == 'R';
      assert !HasPrefix(t, "IO error ") by { assert "IO error "[0] != t[0]; }
      assert !HasPrefix(t, "Nix error ") by { assert "Nix error "[0] != t[0]; }
      assert !HasPrefix(t, "Win error ") by { assert "Win error "[0] != t[0]; }
  }

  /** `From<String>` keeps the message verbatim: it can be read back from
      the displayed text of the converted error. */
  lemma OtherMessageRoundTrip(message: string)
    ensures Classify(Display(FromString(message))) == Some(OtherVariant)
    ensures MessageOf(Display(FromString(message))) == Some(message)
  {
    ClassifyDisplay(FromString(message));
    var t := "Error " + message;
    assert HasPrefix(t, "Error ");
    assert t[6..] == message;
  }

  /** `From<io::Error>` always lands in `IO`, wraps the very error it was
      given (distinct io errors stay distinct) and never collides with a
      `From<String>` conversion. */
  lemma FromConversionsFaithful(a: IoError, b: IoError, message: string)
    ensures VariantOf(FromIo(a)) == IOVariant && FromIo(a).io == a
    ensures FromIo(a) == FromIo(b) ==> a == b
    ensures FromIo(a) != FromString(message)
    ensures VariantOf(FromString(message)) == OtherVariant
  {
  }
}
