/** The delimiter escape compiler of the `produce` command (`parseDelim`, produce.go).
    The flag value is a Go string, that is a byte string, so the input here is a byte
    sequence. Literal bytes are copied; `\t`, `\n`, `\r` and `\xHH` are decoded; any other
    use of a backslash ends the run, modelled as a `Failure`. */
module Delim {
  import opened Wrappers
  import opened Seqs

  const BACKSLASH: byte := 92
  const LOWER_T: byte := 116
  const LOWER_N: byte := 110
  const LOWER_R: byte := 114
  const LOWER_X: byte := 120
  const PLUS: byte := 43
  const MINUS: byte := 45
  const TAB: byte := 9
  const NEWLINE: byte := 10
  const CARRIAGE_RETURN: byte := 13

  datatype DelimError =
    | TrailingSlash              // "invalid slash escape at end of delim string"
    | ShortHex                   // "invalid non-terminated hex escape sequence ..."
    | BadHex(pair: seq<byte>)    // "unable to parse hex escape sequence %q"
    | UnknownEscape(sel: byte)   // "unknown slash escape sequence %q"

  /** The value of one base-16 digit as `strconv` reads it: `0-9`, `a-f`, `A-F`. */
  function HexDigit(c: byte): (r: Option<nat>)
    ensures r.Some? ==> r.value < 16
    ensures r.Some? <==> (48 <= c <= 57 || 97 <= c <= 102 || 65 <= c <= 70)
  {
    if 48 <= c <= 57 then Some((c - 48) as nat)
    else if 97 <= c <= 102 then Some((c - 97) as nat + 10)
    else if 65 <= c <= 70 then Some((c - 65) as nat + 10)
    else None
  }

  /** The unsigned base-16 value of a digit string, or None if some byte is not a digit. */
  function HexValue(ds: seq<byte>): Option<nat>
  {
    if |ds| == 0 then Some(0)
    else
      match (HexValue(ds[..|ds| - 1]), HexDigit(ds[|ds| - 1]))
      case (Some(h), Some(d)) => Some(h * 16 + d)
      case _ => None
  }

  /** `strconv.ParseInt(s, 16, 8)`: an optional `+` or `-`, then at least one hex digit,
      and the value must fit a signed 8-bit integer. `None` stands for the syntax and
      range errors, which the caller treats alike. */
  function ParseInt8Hex(s: seq<byte>): (r: Option<int>)
    ensures r.Some? ==> -128 <= r.value <= 127
  {
    if |s| == 0 then None
    else
      var neg := s[0] == MINUS;
      var body := if s[0] == PLUS || s[0] == MINUS then s[1..] else s;
      if |body| == 0 then None
      else
        match HexValue(body)
        case None => None
        case Some(u) =>
          if (!neg && u >= 128) || (neg && u > 128) then None
          else Some(if neg then -(u as int) else u as int)
  }

  /** Go's conversion `byte(n)`: keep the low eight bits (two's complement). */
  function ToByte(n: int): (b: byte)
    ensures 0 <= n < 256 ==> b as int == n
    ensures -256 <= n < 0 ==> b as int == n + 256
  {
    (n % 256) as byte
  }

  /** One decoded piece of the input: the byte it emits and how many input bytes it uses. */
  datatype Unit = Unit(out: byte, width: nat)

  /** Decodes the piece at the front of `s`, one iteration of the loop in `parseDelim`. */
  function DecodeUnit(s: seq<byte>): (r: Result<Unit, DelimError>)
    requires |s| > 0
    ensures r.Success? ==> 1 <= r.value.width <= |s|
    ensures r.Success? ==> (r.value.width == 1 <==> s[0] != BACKSLASH)
    ensures r.Failure? ==> s[0] == BACKSLASH
  {
    if s[0] != BACKSLASH then Success(Unit(s[0], 1))
    else if |s| == 1 then Failure(TrailingSlash)
    else if s[1] == LOWER_T then Success(Unit(TAB, 2))
    else if s[1] == LOWER_N then Success(Unit(NEWLINE, 2))
    else if s[1] == LOWER_R then Success(Unit(CARRIAGE_RETURN, 2))
    else if s[1] == LOWER_X then
      if |s| < 4 then Failure(ShortHex)
      else
        match ParseInt8Hex(s[2..4])
        case None => Failure(BadHex(s[2..4]))
        case Some(n) => Success(Unit(ToByte(n), 4))
    else Failure(UnknownEscape(s[1]))
  }

  /** Put `b` in front of a successful result; keep a failure. */
  function Prepend(b: byte, r: Result<seq<byte>, DelimError>): Result<seq<byte>, DelimError>
  {
    match r
    case Success(v) => Success([b] + v)
    case Failure(e) => Failure(e)
  }

  /** `parseDelim`: compile a delimiter specification into the bytes to split on. Each
      decoded piece takes at least one input byte and yields exactly one output byte. */
  function ParseDelim(s: seq<byte>): (r: Result<seq<byte>, DelimError>)
    ensures r.Success? ==> |r.value| <= |s|
    ensures r.Success? ==> (|r.value| == 0 <==> |s| == 0)
    decreases |s|
  {
    if |s| == 0 then Success([])
    else
      match DecodeUnit(s)
      case Failure(e) => Failure(e)
      case Success(u) => Prepend(u.out, ParseDelim(s[u.width..]))
  }

  /** A specification without a backslash compiles to exactly its own bytes. */
  lemma {:induction false} LiteralSpec(s: seq<byte>)
    requires BACKSLASH !in s
    ensures ParseDelim(s) == Success(s)
  {
    if |s| > 0 {
      assert BACKSLASH !in s[1..];
      LiteralSpec(s[1..]);
      assert DecodeUnit(s) == Success(Unit(s[0], 1));
      assert [s[0]] + s[1..] == s;
    }
  }

  /** `\t`, `\n` and `\r` use two input bytes and emit 0x09, 0x0A and 0x0D. */
  lemma ControlEscapes(rest: seq<byte>)
    ensures ParseDelim([BACKSLASH, LOWER_T] + rest) == Prepend(TAB, ParseDelim(rest))
    ensures ParseDelim([BACKSLASH, LOWER_N] + rest) == Prepend(NEWLINE, ParseDelim(rest))
    ensures ParseDelim([BACKSLASH, LOWER_R] + rest) == Prepend(CARRIAGE_RETURN, ParseDelim(rest))
  {
    assert ([BACKSLASH, LOWER_T] + rest)[2..] == rest;
    assert ([BACKSLASH, LOWER_N] + rest)[2..] == rest;
    assert ([BACKSLASH, LOWER_R] + rest)[2..] == rest;
  }

  /** `\x` needs two more bytes; with them it uses four input bytes and emits one byte,
      and only when the pair reads as a signed 8-bit base-16 number. */
  lemma HexEscape(rest: seq<byte>)
    ensures |rest| < 2 ==> ParseDelim([BACKSLASH, LOWER_X] + rest) == Failure(ShortHex)
    ensures |rest| >= 2 && ParseInt8Hex(rest[..2]).None? ==>
              ParseDelim([BACKSLASH, LOWER_X] + rest) == Failure(BadHex(rest[..2]))
    ensures |rest| >= 2 && ParseInt8Hex(rest[..2]).Some? ==>
              ParseDelim([BACKSLASH, LOWER_X] + rest)
              == Prepend(ToByte(ParseInt8Hex(rest[..2]).value), ParseDelim(rest[2..]))
  {
    var s := [BACKSLASH, LOWER_X] + rest;
    assert s[0] == BACKSLASH && s[1] == LOWER_X;
    if |rest| < 2 {
      assert DecodeUnit(s) == Failure(ShortHex);
    } else {
      assert s[2..4] == rest[..2];
      assert s[4..] == rest[2..];
      match ParseInt8Hex(rest[..2]) {
        case None =>
          assert DecodeUnit(s) == Failure(BadHex(rest[..2]));
        case Some(n) =>
          assert DecodeUnit(s) == Success(Unit(ToByte(n), 4));
      }
    }
  }

  /** A backslash followed by anything but `t`, `n`, `r` or `x` is refused. */
  lemma UnknownEscapeFails(c: byte, rest: seq<byte>)
    requires c != LOWER_T && c != LOWER_N && c != LOWER_R && c != LOWER_X
    ensures ParseDelim([BACKSLASH, c] + rest) == Failure(UnknownEscape(c))
  {
  }

  /** Two hex digits are accepted exactly when their value is below 0x80. */
  lemma TwoDigitPair(a: byte, b: byte)
    requires HexDigit(a).Some? && HexDigit(b).Some?
    ensures var v := HexDigit(a).value * 16 + HexDigit(b).value;
            ParseInt8Hex([a, b]) == if v < 128 then Some(v) else None
  {
    assert [a, b][..1] == [a];
    assert [a][..0] == [];
    assert HexValue([a]) == Some(HexDigit(a).value);
    assert HexValue([a, b]) == Some(HexDigit(a).value * 16 + HexDigit(b).value);
  }

  /** A sign followed by one hex digit is accepted: `\x-1` gives 0xFF, `\x+7` gives 0x07. */
  lemma SignedPair(b: byte)
    requires HexDigit(b).Some?
    ensures ParseInt8Hex([MINUS, b]) == Some(-(HexDigit(b).value as int))
    ensures ParseInt8Hex([PLUS, b]) == Some(HexDigit(b).value)
  {
    assert [MINUS, b][1..] == [b];
    assert [PLUS, b][1..] == [b];
    assert [b][..0] == [];
    assert HexValue([b]) == Some(HexDigit(b).value);
  }

  /** Which two-byte pairs `strconv.ParseInt(pair, 16, 8)` accepts: two hex digits worth
      less than 0x80, or a sign followed by one hex digit. Any other first byte, `g5`,
      `_1` or `x1` say, is refused. */
  lemma PairAccepted(a: byte, b: byte)
    ensures ParseInt8Hex([a, b]).Some?
            <==> (HexDigit(a).Some? && HexDigit(b).Some? && HexDigit(a).value * 16 + HexDigit(b).value < 128)
                 || ((a == PLUS || a == MINUS) && HexDigit(b).Some?)
  {
    if HexDigit(a).Some? && HexDigit(b).Some? {
      TwoDigitPair(a, b);
    } else if (a == PLUS || a == MINUS) && HexDigit(b).Some? {
      SignedPair(b);
    } else if a == PLUS || a == MINUS {
      assert [a, b][1..] == [b];
      assert [b][..0] == [];
    } else {
      assert [a, b][..1] == [a];
      assert [a][..0] == [];
      assert HexValue([a, b]) == None;
    }
  }

  /** An accepted hex pair ends in a hex digit. */
  lemma ParsedEndsInDigit(s: seq<byte>)
    requires ParseInt8Hex(s).Some?
    ensures |s| > 0 && HexDigit(s[|s| - 1]).Some?
  {
    var body := if s[0] == PLUS || s[0] == MINUS then s[1..] else s;
    assert body[|body| - 1] == s[|s| - 1];
  }

  /** A specification whose last byte is a backslash never compiles: either the
      backslash is left dangling, or an earlier escape swallowed it and failed. */
  lemma {:induction false} TrailingBackslashFails(s: seq<byte>)
    requires |s| > 0 && s[|s| - 1] == BACKSLASH
    ensures ParseDelim(s).Failure?
  {
    var d := DecodeUnit(s);
    if d.Success? {
      var w := d.value.width;
      if w < |s| {
        assert s[w..][|s[w..]| - 1] == BACKSLASH;
        TrailingBackslashFails(s[w..]);
      } else if w == 4 {
        ParsedEndsInDigit(s[2..4]);
      }
    }
  }

  /** The piece at the front of a specification is decoded from its own bytes alone. */
  lemma DecodeUnitExtend(a: seq<byte>, b: seq<byte>)
    requires |a| > 0 && DecodeUnit(a).Success?
    ensures DecodeUnit(a + b) == DecodeUnit(a)
  {
    assert (a + b)[0] == a[0];
    if |a| >= 2 { assert (a + b)[1] == a[1]; }
    if |a| >= 4 { assert (a + b)[2..4] == a[2..4]; }
  }

  /** Compiling a concatenation of two specifications, the first of which compiles on
      its own, is compiling the second after it. */
  lemma {:induction false} ParseDelimAppend(a: seq<byte>, b: seq<byte>)
    requires ParseDelim(a).Success?
    ensures ParseDelim(b).Success? ==>
              ParseDelim(a + b) == Success(ParseDelim(a).value + ParseDelim(b).value)
    ensures ParseDelim(b).Failure? ==> ParseDelim(a + b) == Failure(ParseDelim(b).error)
  {
    if |a| == 0 {
      assert a + b == b;
      if ParseDelim(b).Success? {
        EmptyAppend(ParseDelim(a).value, ParseDelim(b).value);
      }
    } else {
      var u := DecodeUnit(a).value;
      var tail := a[u.width..];
      DecodeUnitExtend(a, b);
      ParseDelimStep(a);
      ParseDelimStep(a + b);
      DropFromAppend(a, b, u.width);
      ParseDelimAppend(tail, b);
      if ParseDelim(b).Success? {
        ConsAssociates(u.out, ParseDelim(tail).value, ParseDelim(b).value);
      }
    }
  }

  /** One turn of the loop: the piece at the front, then the rest. */
  lemma ParseDelimStep(s: seq<byte>)
    requires |s| > 0 && DecodeUnit(s).Success?
    ensures ParseDelim(s) == Prepend(DecodeUnit(s).value.out, ParseDelim(s[DecodeUnit(s).value.width..]))
  {
  }

  /** Appending to nothing. */
  lemma EmptyAppend(e: seq<byte>, q: seq<byte>)
    requires |e| == 0
    ensures e + q == q
  {
  }

  /** Putting a byte in front commutes with appending. */
  lemma ConsAssociates(x: byte, p: seq<byte>, q: seq<byte>)
    ensures [x] + (p + q) == ([x] + p) + q
  {
  }

  /** An escaper for delimiter specifications: a backslash is written `\x5c`, any other
      byte stands for itself. */
  function Escape(bs: seq<byte>): seq<byte>
  {
    if |bs| == 0 then []
    else (if bs[0] == BACKSLASH then [BACKSLASH, LOWER_X, 53, 99] else [bs[0]]) + Escape(bs[1..])
  }

  /** Every byte sequence, the high bytes and the backslash included, is the compilation of
      some specification: compiling `Escape(bs)` gives back `bs`. */
  lemma {:induction false} EscapeRoundTrip(bs: seq<byte>)
    ensures ParseDelim(Escape(bs)) == Success(bs)
  {
    if |bs| > 0 {
      var head: seq<byte> := if bs[0] == BACKSLASH then [BACKSLASH, LOWER_X, 53, 99] else [bs[0]];
      if bs[0] == BACKSLASH {
        TwoDigitPair(53, 99);
        assert head[2..4] == [53, 99];
        assert head[4..] == [];
      } else {
        assert head[1..] == [];
      }
      assert DecodeUnit(head) == Success(Unit(bs[0], |head|));
      var e: seq<byte> := [];
      assert head[|head|..] == e;
      assert [bs[0]] + e == [bs[0]];
      assert ParseDelim(head) == Success([bs[0]]);
      EscapeRoundTrip(bs[1..]);
      ParseDelimAppend(head, Escape(bs[1..]));
      assert Escape(bs) == head + Escape(bs[1..]);
      assert [bs[0]] + bs[1..] == bs;
    }
  }

  /** `\x41` is the byte 0x41. */
  lemma ExampleHexByte()
    ensures ParseDelim([BACKSLASH, LOWER_X, 52, 49]) == Success([0x41])
  {
    var e: seq<byte> := [];
    var rest: seq<byte> := [52, 49];
    TwoDigitPair(52, 49);
    HexEscape(rest);
    assert [BACKSLASH, LOWER_X] + rest == [BACKSLASH, LOWER_X, 52, 49];
    assert rest[..2] == rest && rest[2..] == e;
    assert [0x41 as byte] + e == [0x41];
  }

  /** `\x80` is refused: 128 is out of the signed 8-bit range. */
  lemma ExampleHexTooLarge()
    ensures ParseDelim([BACKSLASH, LOWER_X, 56, 48]) == Failure(BadHex([56, 48]))
  {
    var rest: seq<byte> := [56, 48];
    TwoDigitPair(56, 48);
    HexEscape(rest);
    assert [BACKSLASH, LOWER_X] + rest == [BACKSLASH, LOWER_X, 56, 48];
    assert rest[..2] == rest;
  }

  /** `\x4` at the end of the text is refused: two characters must follow `\x`. */
  lemma ExampleHexShort()
    ensures ParseDelim([BACKSLASH, LOWER_X, 52]) == Failure(ShortHex)
  {
    var rest: seq<byte> := [52];
    HexEscape(rest);
    assert [BACKSLASH, LOWER_X] + rest == [BACKSLASH, LOWER_X, 52];
  }

  /** `\x-1` is accepted as the signed value -1, the byte 0xFF. */
  lemma ExampleHexNegative()
    ensures ParseDelim([BACKSLASH, LOWER_X, MINUS, 49]) == Success([0xFF])
  {
    var e: seq<byte> := [];
    var rest: seq<byte> := [MINUS, 49];
    SignedPair(49);
    HexEscape(rest);
    assert [BACKSLASH, LOWER_X] + rest == [BACKSLASH, LOWER_X, MINUS, 49];
    assert rest[..2] == rest && rest[2..] == e;
    assert [0xFF as byte] + e == [0xFF];
  }
}
