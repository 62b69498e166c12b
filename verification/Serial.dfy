/** Text on the serial port: decimal and hexadecimal numbers and formatted printing. */
module Serial {
  import opened Words

  /** A character of a C string: a byte other than the terminator. */
  type Character = c: char | 0 < c as int < 256 witness '0'

  /** A C string, without its terminator. */
  type cstring = seq<Character>

  /** Printed text. */
  type text = seq<char>

  type i64 = x: int | -0x8000_0000_0000_0000 <= x < 0x8000_0000_0000_0000
  type i32 = x: int | -0x8000_0000 <= x < 0x8000_0000

  // ---- Decimal ---------------------------------------------------------------------------------

  function Digit(d: nat): char
    requires d < 10
  {
    '0' + d as char
  }

  /** The digits of n, most significant first; none for 0. */
  function Digits(n: nat): text {
    if n == 0 then [] else Digits(n / 10) + [Digit(n % 10)]
  }

  lemma LastDigit(n: nat)
    requires n > 0
    ensures Digits(n) == Digits(n / 10) + [Digit(n % 10)]
  {
  }

  /** C's negation of a 64-bit value: the least value has no counterpart and stays as it is. */
  function Negate(n: i64): i64 {
    if n == -0x8000_0000_0000_0000 then n else -n
  }

  /** What print_int_serial writes. */
  function IntText(n: i64): text {
    if n == 0 then "0"
    else if n > 0 then Digits(n)
    else "-" + Digits(Positive(Negate(n)))
  }

  /** The digit loop does nothing for a value that is still negative. */
  function Positive(n: i64): nat {
    if n > 0 then n else 0
  }

  /** An independent reading of a decimal numeral. */
  datatype Parsed = NotANumber | Number(n: int)

  function ParseDigits(s: text): Parsed {
    if s == [] then Number(0)
    else
      var d := s[|s| - 1];
      match ParseDigits(s[..|s| - 1])
      case Number(n) => if '0' <= d <= '9' then Number(10 * n + (d as int - '0' as int)) else NotANumber
      case NotANumber => NotANumber
  }

  function ParseInt(s: text): Parsed {
    if s == [] || s == "-" then NotANumber
    else if s[0] == '-' then
      match ParseDigits(s[1..])
      case Number(n) => Number(-n)
      case NotANumber => NotANumber
    else ParseDigits(s)
  }

  /** Digits, the first of them not '0'. */
  predicate Numeral(s: text) {
    s != [] && '1' <= s[0] <= '9' && forall i :: 0 <= i < |s| ==> '0' <= s[i] <= '9'
  }

  /** A number as one writes it: without leading zeros or a superfluous sign. */
  predicate Canonical(s: text) {
    s == "0" || Numeral(s) || (s != [] && s[0] == '-' && Numeral(s[1..]))
  }

  lemma {:induction false} DigitsParse(n: nat)
    ensures ParseDigits(Digits(n)) == Number(n)
    ensures n > 0 ==> Numeral(Digits(n))
  {
    if n > 0 {
      DigitsParse(n / 10);
      var s, d := Digits(n / 10), n % 10;
      assert Digits(n) == s + [Digit(d)] && 10 * (n / 10) + d == n;
      hide Digits, ParseDigits, Numeral;
      ParseOneMore(s, n / 10, d);
      if n / 10 > 0 {
        NumeralOneMore(s, d);
      } else {
        DigitAlone(s, n, d);
      }
    }
  }

  lemma NumeralOneMore(s: text, d: nat)
    requires d < 10 && Numeral(s)
    ensures Numeral(s + [Digit(d)])
  {
  }

  lemma DigitAlone(s: text, n: nat, d: nat)
    requires 0 < n == d < 10 && s == Digits(n / 10)
    ensures Numeral(s + [Digit(d)])
  {
  }

  lemma ParseOneMore(s: text, n: nat, d: nat)
    requires d < 10 && ParseDigits(s) == Number(n)
    ensures ParseDigits(s + [Digit(d)]) == Number(10 * n + d)
  {
    assert (s + [Digit(d)])[..|s|] == s;
  }

  /** The printed text reads back as the number exactly when the number is not the least 64-bit value,
      for which only a minus sign is printed. */
  lemma IntTextRoundTripsIff(n: i64)
    ensures ParseInt(IntText(n)) == Number(n) <==> n != -0x8000_0000_0000_0000
  {
    if n > 0 {
      DigitsParse(n);
    } else if Negate(n) > 0 {
      DigitsParse(-n);
      var s := IntText(n);
      assert s[1..] == Digits(-n);
    } else if n == 0 {
      assert ParseDigits("0"[..0]) == Number(0);
    }
  }

  /** The text is canonical, with the same exception; for 0 it is the single digit. */
  lemma TextIsCanonicalIff(n: i64)
    ensures Canonical(IntText(n)) <==> n != -0x8000_0000_0000_0000
    ensures IntText(0) == "0" && IntText(-0x8000_0000_0000_0000) == "-"
  {
    if n > 0 {
      DigitsParse(n);
    } else if Negate(n) > 0 {
      DigitsParse(-n);
      assert IntText(n)[1..] == Digits(-n);
    }
  }

  /** So it is the only text that it could be: no other canonical numeral reads as n. */
  lemma OnlyCanonicalText(n: i64, s: text)
    requires n != -0x8000_0000_0000_0000
    ensures Canonical(s) && ParseInt(s) == Number(n) <==> s == IntText(n)
  {
    IntTextRoundTripsIff(n);
    TextIsCanonicalIff(n);
    if Canonical(s) && ParseInt(s) == Number(n) {
      if s == "0" {
        assert ParseDigits("0"[..0]) == Number(0);
      } else if s[0] == '-' {
        NumeralIsDigits(s[1..]);
        assert s == "-" + s[1..];
      } else {
        NumeralIsDigits(s);
      }
    }
  }

  lemma {:induction false} NumeralIsDigits(s: text)
    requires Numeral(s)
    ensures ParseDigits(s).Number? && ParseDigits(s).n > 0 && Digits(ParseDigits(s).n) == s
  {
    var t, d := s[..|s| - 1], s[|s| - 1];
    if t != [] {
      NumeralIsDigits(t);
      var m, k := ParseDigits(t).n, d as int - '0' as int;
      assert (10 * m + k) / 10 == m && (10 * m + k) % 10 == k;
    } else {
      assert Digits(d as int - '0' as int) == Digits(0) + [d];
    }
    assert s == t + [d];
  }

  function Pow10(k: nat): nat {
    if k == 0 then 1 else 10 * Pow10(k - 1)
  }

  lemma {:induction false} DigitCount(n: nat, k: nat)
    requires n < Pow10(k)
    ensures |Digits(n)| <= k
  {
    if n > 0 {
      DigitCount(n / 10, k - 1);
    }
  }

  /** A 64-bit number has at most 19 digits, well within the 32 bytes of the buffer. */
  lemma DigitsFitBuffer(n: nat)
    requires n <= 0x8000_0000_0000_0000
    ensures |Digits(n)| <= 19
  {
    assert Pow10(5) == 100_000;
    assert Pow10(10) == 10_000_000_000;
    assert Pow10(15) == 1_000_000_000_000_000;
    assert Pow10(19) == 10_000_000_000_000_000_000;
    DigitCount(n, 19);
  }

  // ---- Hexadecimal -----------------------------------------------------------------------------

  const HEX_CHARS: text := "0123456789ABCDEF"

  /** The k low hexadecimal digits of n. */
  function HexDigits(n: nat, k: nat): (r: text)
    ensures |r| == k
  {
    if k == 0 then [] else HexDigits(n / 16, k - 1) + [HEX_CHARS[n % 16]]
  }

  function HexValue(c: char): Parsed {
    if '0' <= c <= '9' then Number(c as int - '0' as int)
    else if 'A' <= c <= 'F' then Number(c as int - 'A' as int + 10)
    else NotANumber
  }

  function ParseHex(s: text): Parsed {
    if s == [] then Number(0)
    else
      match (ParseHex(s[..|s| - 1]), HexValue(s[|s| - 1]))
      case (Number(n), Number(d)) => Number(16 * n + d)
      case _ => NotANumber
  }

  /** k hexadecimal digits read back as the number they print, if it is below 16^k. */
  lemma {:induction false} HexRoundTrips(n: nat, k: nat)
    requires n < Shl(1, 4 * k)
    ensures ParseHex(HexDigits(n, k)) == Number(n)
  {
    if k > 0 {
      ShlSplits(1, 4 * (k - 1), 4);
      ShlByFour(Shl(1, 4 * (k - 1)));
      HexRoundTrips(n / 16, k - 1);
      var s := HexDigits(n, k);
      assert s[..k - 1] == HexDigits(n / 16, k - 1);
      HexCharValue(n % 16);
    }
  }

  lemma ShlByFour(x: nat)
    ensures Shl(x, 4) == 16 * x
  {
    ShlByThree(x);
    assert Shl(x, 4) == 2 * Shl(x, 3);
  }

  lemma HexCharValue(d: nat)
    requires d < 16
    ensures HexValue(HEX_CHARS[d]) == Number(d)
  {
  }

  /** Sixteen digits carry every 64-bit value. */
  lemma HexTextRoundTrips(n: u64)
    ensures ParseHex(HexDigits(n, 16)) == Number(n)
  {
    ShlBySixtyFour();
    HexRoundTrips(n, 16);
  }

  // ---- Formatted printing ----------------------------------------------------------------------

  /** `%c` prints any byte, a zero included. */
  type ByteChar = c: char | c as int < 256

  datatype Arg = Str(s: cstring) | Null | Int(d: i32) | Chr(c: ByteChar) | Hex(x: u64)

  datatype Rendered = Undefined | Text(s: text)

  function Then(head: text, tail: Rendered): Rendered {
    match tail
    case Undefined => Undefined
    case Text(s) => Text(head + s)
  }

  /** What the front of a format prints, and how many characters and arguments it uses up. */
  datatype Piece = Stop | Emit(s: text, chars: nat, args: nat)

  /** What a conversion prints for an argument of the type it reads; any other character is printed
      after its percent sign. */
  function Conversion(spec: Character, args: seq<Arg>): (p: Piece)
    ensures p.Emit? ==> p.chars == 2 && p.args <= |args|
  {
    if spec == '%' then Emit("%", 2, 0)
    else if spec !in {'s', 'd', 'c', 'x'} then Emit(['%', spec], 2, 0)
    else if args == [] then Stop
    else
      match (spec, args[0])
      case ('s', Str(s)) => Emit(s, 2, 1)
      case ('s', Null) => Emit("(null)", 2, 1)
      case ('d', Int(d)) => Emit(IntText(d), 2, 1)
      case ('c', Chr(c)) => Emit([c], 2, 1)
      case ('x', Hex(x)) => Emit("0x" + HexDigits(x, 16), 2, 1)
      case _ => Stop
  }

  /** A `%` at the very end has no meaning: the source then steps over the terminator. */
  function Front(fmt: cstring, args: seq<Arg>): (p: Piece)
    requires fmt != []
    ensures p.Emit? ==> 1 <= p.chars <= |fmt| && p.args <= |args|
  {
    if fmt[0] != '%' then Emit([fmt[0]], 1, 0)
    else if |fmt| == 1 then Stop
    else Conversion(fmt[1], args)
  }

  /** The meaning of a format, piece by piece; undefined if an argument is missing or has another type
      than its conversion reads. */
  function Render(fmt: cstring, args: seq<Arg>): Rendered
    decreases |fmt|
  {
    if fmt == [] then Text([])
    else
      match Front(fmt, args)
      case Stop => Undefined
      case Emit(s, c, a) => Then(s, Render(fmt[c..], args[a..]))
  }

  function Doubled(s: cstring): cstring {
    if s == [] then [] else (if s[0] == '%' then "%%" else [s[0]]) + Doubled(s[1..])
  }

  /** How many arguments a format reads. */
  function ArgsRead(fmt: cstring, args: seq<Arg>): nat
    decreases |fmt|
  {
    if fmt == [] || Front(fmt, args).Stop? then 0
    else Front(fmt, args).args + ArgsRead(fmt[Front(fmt, args).chars..], args[Front(fmt, args).args..])
  }

  /** Doubling every `%` quotes a string. */
  lemma {:induction false} DoubledPrintsItself(s: cstring)
    ensures Render(Doubled(s), []) == Text(s) && ArgsRead(Doubled(s), []) == 0
  {
    if s != [] {
      DoubledPrintsItself(s[1..]);
      var d := Doubled(s);
      if s[0] == '%' {
        assert d[2..] == Doubled(s[1..]);
      } else {
        assert d[1..] == Doubled(s[1..]);
      }
      assert s == [s[0]] + s[1..];
    }
  }

  lemma FrontOfConcatenation(f: cstring, fargs: seq<Arg>, g: cstring, gargs: seq<Arg>)
    requires f != [] && Front(f, fargs).Emit?
    ensures Front(f + g, fargs + gargs) == Front(f, fargs)
  {
  }

  /** Printing one format after another is printing their concatenation, if the first reads all of its
      arguments. */
  lemma {:induction false} RenderConcatenates(f: cstring, fargs: seq<Arg>, g: cstring, gargs: seq<Arg>)
    requires Render(f, fargs).Text? && |fargs| == ArgsRead(f, fargs)
    ensures Render(f + g, fargs + gargs) == Then(Render(f, fargs).s, Render(g, gargs))
    decreases |f|
  {
    hide Conversion, Front, Render, ArgsRead;
    RenderPiece(f, fargs);
    RenderPiece(f + g, fargs + gargs);
    if f == [] {
      assert f + g == g && fargs + gargs == gargs;
    } else {
      FrontOfConcatenation(f, fargs, g, gargs);
      var p := Front(f, fargs);
      assert (f + g)[p.chars..] == f[p.chars..] + g;
      assert (fargs + gargs)[p.args..] == fargs[p.args..] + gargs;
      RenderConcatenates(f[p.chars..], fargs[p.args..], g, gargs);
    }
  }

  /** One piece of a rendering, and the rest. */
  lemma RenderPiece(f: cstring, args: seq<Arg>)
    ensures f == [] ==> Render(f, args) == Text([]) && ArgsRead(f, args) == 0
    ensures f != [] && Front(f, args).Stop? ==> Render(f, args) == Undefined
    ensures f != [] && Front(f, args).Emit? ==>
              var p := Front(f, args);
              && Render(f, args) == Then(p.s, Render(f[p.chars..], args[p.args..]))
              && ArgsRead(f, args) == p.args + ArgsRead(f[p.chars..], args[p.args..])
  {
  }

  // ---- What a format prints --------------------------------------------------------------------

  /** This text stands for the argument: strings and characters for themselves, numbers as one reads them. */
  predicate Shows(t: text, a: Arg) {
    match a
    case Str(s) => t == s
    case Null => t == "(null)"
    case Int(d) => Canonical(t) && ParseInt(t) == Number(d)
    case Chr(c) => t == [c]
    case Hex(x) => |t| == 18 && t[..2] == "0x" && ParseHex(t[2..]) == Number(x)
  }

  /** The conversion that reads such an argument. */
  function SpecFor(a: Arg): cstring {
    match a
    case Str(_) => "%s"
    case Null => "%s"
    case Int(_) => "%d"
    case Chr(_) => "%c"
    case Hex(_) => "%x"
  }

  /** A format that is one conversion. */
  lemma ConversionAlone(c: Character, args: seq<Arg>)
    requires Conversion(c, args).Emit? && Conversion(c, args).args == |args|
    ensures Render(['%', c], args) == Text(Conversion(c, args).s) && ArgsRead(['%', c], args) == |args|
  {
    hide Conversion;
    var f := ['%', c];
    RenderPiece(f, args);
    RenderPiece([], []);
    assert f[2..] == [] && args[|args|..] == [];
    hide Render, ArgsRead;
    assert Front(f, args) == Conversion(c, args);
  }

  /** `%s`, `%d`, `%c` and `%x` read one argument and print a text that stands for it. */
  lemma ConversionShows(a: Arg)
    ensures Render(SpecFor(a), [a]).Text? && Shows(Render(SpecFor(a), [a]).s, a)
    ensures ArgsRead(SpecFor(a), [a]) == 1
  {
    hide Render, ArgsRead, ParseInt, ParseHex, Canonical, IntText, HexDigits;
    ConversionAlone(SpecFor(a)[1], [a]);
    assert SpecFor(a) == ['%', SpecFor(a)[1]];
    match a
    case Int(d) =>
      IntTextRoundTripsIff(d);
      TextIsCanonicalIff(d);
    case Hex(x) =>
      HexTextRoundTrips(x);
      assert ("0x" + HexDigits(x, 16))[2..] == HexDigits(x, 16);
    case _ =>
  }

  /** After any other character the percent sign prints itself, the character too, and no argument is read. */
  lemma UnknownPrintsItself(c: Character)
    requires c !in {'s', 'd', 'c', 'x', '%'}
    ensures Render(['%', c], []) == Text(['%', c]) && ArgsRead(['%', c], []) == 0
  {
    ConversionAlone(c, []);
  }

  /** A piece of a message: text printed as it is, or an argument. */
  datatype Item = Literal(s: cstring) | Shown(a: Arg)

  function FormatOf(items: seq<Item>): cstring {
    if items == [] then []
    else (if items[0].Literal? then Doubled(items[0].s) else SpecFor(items[0].a)) + FormatOf(items[1..])
  }

  function ArgsOf(items: seq<Item>): seq<Arg> {
    if items == [] then [] else (if items[0].Literal? then [] else [items[0].a]) + ArgsOf(items[1..])
  }

  /** The texts are those of the items, in order. */
  predicate Spells(texts: seq<text>, items: seq<Item>) {
    && |texts| == |items|
    && forall i :: 0 <= i < |items| ==>
         if items[i].Literal? then texts[i] == items[i].s else Shows(texts[i], items[i].a)
  }

  function Joined(texts: seq<text>): text {
    if texts == [] then [] else texts[0] + Joined(texts[1..])
  }

  /** Whatever the message, its format with its arguments prints just that: the literal pieces as they are, each
      argument by a text that stands for it, in order, and nothing else. */
  lemma {:induction false} MessageIsPrinted(items: seq<Item>) returns (texts: seq<text>)
    ensures Spells(texts, items) && Render(FormatOf(items), ArgsOf(items)) == Text(Joined(texts))
  {
    if items == [] {
      texts := [];
    } else {
      var rest := MessageIsPrinted(items[1..]);
      var f, args := FormatOf(items[..1]), ArgsOf(items[..1]);
      FirstItem(items);
      RenderConcatenates(f, args, FormatOf(items[1..]), ArgsOf(items[1..]));
      texts := [Render(f, args).s] + rest;
      assert texts[1..] == rest;
    }
  }

  lemma FirstItem(items: seq<Item>)
    requires items != []
    ensures FormatOf(items) == FormatOf(items[..1]) + FormatOf(items[1..])
    ensures ArgsOf(items) == ArgsOf(items[..1]) + ArgsOf(items[1..])
    ensures var f, args := FormatOf(items[..1]), ArgsOf(items[..1]);
            && Render(f, args).Text? && ArgsRead(f, args) == |args|
            && if items[0].Literal? then Render(f, args).s == items[0].s else Shows(Render(f, args).s, items[0].a)
  {
    assert items[..1][1..] == [] && FormatOf([]) == [] && ArgsOf([]) == [];
    assert FormatOf(items[..1]) == if items[0].Literal? then Doubled(items[0].s) else SpecFor(items[0].a);
    assert ArgsOf(items[..1]) == if items[0].Literal? then [] else [items[0].a];
    hide Render, ArgsRead, Shows, SpecFor, Doubled, FormatOf, ArgsOf;
    if items[0].Literal? {
      DoubledPrintsItself(items[0].s);
    } else {
      ConversionShows(items[0].a);
    }
  }

  // ---- The port --------------------------------------------------------------------------------

  class Port {
    /** Everything written so far. */
    var out: text

    method WriteSerial(c: char)
      modifies this
      ensures out == old(out) + [c]
    {
      out := out + [c];
    }

    method WriteBetter(s: text)
      modifies this
      ensures out == old(out) + s
    {
      for i := 0 to |s|
        invariant out == old(out) + s[..i]
      {
        WriteSerial(s[i]);
      }
    }

    method PrintHexSerial(n: u64)
      modifies this
      ensures out == old(out) + "0x" + HexDigits(n, 16)
    {
      WriteSerial('0');
      WriteSerial('x');
      ghost var start := out;
      var i := 60;
      ghost var k := 0;
      NothingAboveSixteenDigits(n);
      hide HexDigits, And, Shr;
      while i >= 0
        invariant k <= 16 && i == 60 - 4 * k
        invariant out == start + HexDigits(Shr(n, i + 4), k)
        decreases i + 4
      {
        OneHexDigitMore(n, i, k);
        var nibble := And(Shr(n, i), 0xF);
        WriteSerial(HEX_CHARS[nibble]);
        i, k := i - 4, k + 1;
      }
      NothingShifted(n);
    }

    /** Digits go into the buffer from the least significant on and come out backwards. */
    method PrintIntSerial(n: i64)
      modifies this
      ensures out == old(out) + IntText(n)
    {
      hide Digits, Backwards;
      if n == 0 {
        WriteSerial('0');
        return;
      }
      var m: i64 := n;
      if n < 0 {
        WriteSerial('-');
        m := Negate(n);
      }
      var buffer := new char[32];
      var i := FillBuffer(m, buffer);
      DrainBuffer(buffer, i);
    }

    method FillBuffer(n: i64, buffer: array<char>) returns (i: nat)
      requires buffer.Length == 32
      modifies buffer
      ensures i <= 32 && Backwards(buffer[..i]) == Digits(Positive(n))
    {
      assert Digits(0) == [] && Backwards([]) == [];
      hide Digits, Backwards;
      DigitsFitBuffer(Positive(n));
      var m: i64 := n;
      i := 0;
      while m > 0
        invariant i + |Digits(Positive(m))| <= 19
        invariant Digits(Positive(n)) == Digits(Positive(m)) + Backwards(buffer[..i])
        decreases m
      {
        LastDigit(m);
        DigitStored(Digits(m / 10), buffer[..], i, Digit(m % 10));
        buffer[i] := Digit(m % 10);
        i := i + 1;
        m := m / 10;
      }
    }

    method DrainBuffer(buffer: array<char>, n: nat)
      requires n <= buffer.Length
      modifies this
      ensures out == old(out) + Backwards(buffer[..n])
    {
      var i: nat := n;
      while i > 0
        invariant i <= n
        invariant old(out) + Backwards(buffer[..n]) == out + Backwards(buffer[..i])
      {
        assert buffer[..i][..i - 1] == buffer[..i - 1];
        BackwardsGrows(buffer[..i]);
        i := i - 1;
        WriteSerial(buffer[i]);
      }
    }

    /** The cases of the switch after a percent sign. Returns how many arguments were read. */
    method PrintConversion(spec: Character, args: seq<Arg>) returns (read: nat)
      requires Conversion(spec, args).Emit?
      modifies this
      ensures out == old(out) + Conversion(spec, args).s && read == Conversion(spec, args).args
    {
      read := 1;
      match spec
      case 's' => WriteBetter(if args[0].Null? then "(null)" else args[0].s);
      case 'd' => PrintIntSerial(args[0].d);
      case 'c' => WriteSerial(args[0].c);
      case 'x' => PrintHexSerial(args[0].x);
      case '%' =>
        WriteSerial('%');
        read := 0;
      case _ =>
        WriteSerial('%');
        WriteSerial(spec);
        read := 0;
    }

    method Kprintf(fmt: cstring, args: seq<Arg>)
      requires Render(fmt, args).Text?
      modifies this
      ensures out == old(out) + Render(fmt, args).s
      ensures forall items: seq<Item> :: fmt == FormatOf(items) && args == ArgsOf(items) ==>
                exists texts :: Spells(texts, items) && out == old(out) + Joined(texts)
    {
      hide Conversion, ArgsRead, FormatOf, ArgsOf, Spells, Joined;
      forall items: seq<Item> | fmt == FormatOf(items) && args == ArgsOf(items)
        ensures exists texts :: Spells(texts, items) && Render(fmt, args) == Text(Joined(texts))
      {
        var texts := MessageIsPrinted(items);
      }
      var i: nat, a: nat := 0, 0;
      while i < |fmt|
        invariant i <= |fmt| && a <= |args|
        invariant Render(fmt[i..], args[a..]).Text?
        invariant old(out) + Render(fmt, args).s == out + Render(fmt[i..], args[a..]).s
      {
        ghost var p := Front(fmt[i..], args[a..]);
        ghost var rest := Render(fmt[i..][p.chars..], args[a..][p.args..]).s;
        assert out + (p.s + rest) == (out + p.s) + rest;
        assert fmt[i..][p.chars..] == fmt[i + p.chars..] && args[a..][p.args..] == args[a + p.args..];
        if fmt[i] == '%' {
          i := i + 1;
          var read := PrintConversion(fmt[i], args[a..]);
          a := a + read;
        } else {
          WriteSerial(fmt[i]);
        }
        i := i + 1;
      }
    }
  }

  lemma ShrByFour(n: nat, k: nat)
    ensures Shr(n, k + 4) == Shr(n, k) / 16
  {
    assert Shr(n, k + 2) == Shr(n, k) / 4;
  }

  lemma NothingShifted(n: nat)
    ensures Shr(n, 0) == n
  {
  }

  lemma OneHexDigitMore(n: nat, i: nat, k: nat)
    ensures And(Shr(n, i), 0xF) < 16
    ensures HexDigits(Shr(n, i), k + 1) == HexDigits(Shr(n, i + 4), k) + [HEX_CHARS[And(Shr(n, i), 0xF)]]
  {
    ShrByFour(n, i);
    AndLowNibble(Shr(n, i));
    hide Shr, And;
  }

  lemma NothingAboveSixteenDigits(n: nat)
    ensures HexDigits(Shr(n, 64), 0) == []
  {
  }

  function Backwards(s: text): text {
    if s == [] then [] else [s[|s| - 1]] + Backwards(s[..|s| - 1])
  }

  /** A digit moved from the end of the digits to the end of the buffer. */
  lemma DigitStored(digits: text, buffer: text, i: nat, d: char)
    requires i < |buffer|
    ensures (digits + [d]) + Backwards(buffer[..i]) == digits + Backwards(buffer[i := d][..i + 1])
  {
    var s := buffer[i := d][..i + 1];
    assert s[..i] == buffer[..i];
    BackwardsGrows(s);
  }

  lemma BackwardsGrows(s: text)
    requires s != []
    ensures Backwards(s) == [s[|s| - 1]] + Backwards(s[..|s| - 1])
  {
  }

  lemma AndLowNibble(x: nat)
    ensures And(x, 0xF) == x % 16
  {
    ShlByFour(1);
    ShlByFour(x / 16);
    AndOnes(x / 16, x % 16, 4);
  }
}
