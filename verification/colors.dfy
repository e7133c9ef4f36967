/**
 * Colour arithmetic of the pace-lights renderer (GUI1.py): RGB triples,
 * the saturating per-channel blend used by the parallel compositor, packing
 * of a triple into the 24-bit word the strip expects in its channel order,
 * and parsing of the "r,g,b" colour field of the event form.
 */
module Colors {
  import opened Wrappers
  import opened Numbers

  /** An RGB triple. Python keeps these as unbounded int tuples. */
  datatype Rgb = Rgb(r: int, g: int, b: int)

  const BLACK := Rgb(0, 0, 0)

  /** `[(0,0,0)] * n`: a framebuffer with every pixel off. */
  function Blank(n: nat): seq<Rgb> { seq(n, _ => BLACK) }
  /** The colour `_parse_color` falls back to, and the event's default colour. */
  const GREEN := Rgb(0, 255, 0)

  predicate IsByte(x: int) { 0 <= x <= 255 }

  predicate InRange(c: Rgb) { IsByte(c.r) && IsByte(c.g) && IsByte(c.b) }

  /** `clamp_byte`: saturate an int to the byte range. */
  function ClampByte(x: int): (r: int)
    ensures IsByte(r)
    ensures IsByte(x) ==> r == x
    ensures x < 0 ==> r == 0
    ensures x > 255 ==> r == 255
  {
    if x < 0 then 0 else if x > 255 then 255 else x
  }

  /** Each channel clamped to a byte, as `pack_color` and `_parse_color` do. */
  function Clamp(c: Rgb): (r: Rgb)
    ensures InRange(r)
    ensures InRange(c) ==> r == c
  {
    Rgb(ClampByte(c.r), ClampByte(c.g), ClampByte(c.b))
  }

  /** `blend_additive`: per-channel add, saturated to a byte. */
  function BlendAdditive(c1: Rgb, c2: Rgb): (r: Rgb)
    ensures InRange(r)
  {
    Rgb(ClampByte(c1.r + c2.r), ClampByte(c1.g + c2.g), ClampByte(c1.b + c2.b))
  }

  lemma BlendCommutes(c1: Rgb, c2: Rgb)
    ensures BlendAdditive(c1, c2) == BlendAdditive(c2, c1)
  {
  }

  lemma BlendWithBlack(c: Rgb)
    requires InRange(c)
    ensures BlendAdditive(c, BLACK) == c && BlendAdditive(BLACK, c) == c
  {
  }

  /** For non-negative channels the blend is `min(255, a + b)`, so blending never darkens. */
  lemma BlendIsSaturatingSum(c1: Rgb, c2: Rgb)
    requires c1.r >= 0 && c1.g >= 0 && c1.b >= 0
    requires c2.r >= 0 && c2.g >= 0 && c2.b >= 0
    ensures var r := BlendAdditive(c1, c2);
      r.r == Min(255, c1.r + c2.r) && r.g == Min(255, c1.g + c2.g) && r.b == Min(255, c1.b + c2.b)
  {
  }

  /** Layering order does not matter for non-negative channels. */
  lemma BlendAssociates(c1: Rgb, c2: Rgb, c3: Rgb)
    requires c1.r >= 0 && c1.g >= 0 && c1.b >= 0
    requires c2.r >= 0 && c2.g >= 0 && c2.b >= 0
    requires c3.r >= 0 && c3.g >= 0 && c3.b >= 0
    ensures BlendAdditive(BlendAdditive(c1, c2), c3) == BlendAdditive(c1, BlendAdditive(c2, c3))
  {
  }

  lemma BlendSaturatesExample()
    ensures BlendAdditive(Rgb(200, 0, 0), Rgb(100, 0, 0)) == Rgb(255, 0, 0)
    ensures BlendAdditive(Rgb(10, 20, 30), BLACK) == Rgb(10, 20, 30)
  {
  }

  // ---------------------------------------------------------------------
  // Packing

  /** ASCII upper-casing, standing for `str.upper()`. */
  function UpperChar(ch: char): char
  {
    if 'a' <= ch <= 'z' then (ch as int - 'a' as int + 'A' as int) as char else ch
  }

  function Upper(s: string): string
  {
    seq(|s|, i requires 0 <= i < |s| => UpperChar(s[i]))
  }

  /** The word `(hi << 16) | (mid << 8) | lo` for byte-sized fields. */
  function Pack24(hi: int, mid: int, lo: int): int
  {
    hi * 0x1_0000 + mid * 0x100 + lo
  }

  /** On byte-sized fields, shifting and or-ing is the same as the sum `Pack24` uses. */
  lemma ShiftOrIsSum(hi: bv8, mid: bv8, lo: bv8)
    ensures ((hi as bv24) << 16) | ((mid as bv24) << 8) | (lo as bv24)
         == (hi as bv24) * 0x1_0000 + (mid as bv24) * 0x100 + (lo as bv24)
  {
  }

  /** Bits 16-23, 8-15 and 0-7 of a 24-bit word. */
  function Bytes(p: int): (int, int, int)
  {
    (p / 0x1_0000, (p / 0x100) % 0x100, p % 0x100)
  }

  predicate IsWord24(p: int) { 0 <= p < 0x100_0000 }

  lemma Pack24Bytes(hi: int, mid: int, lo: int)
    requires IsByte(hi) && IsByte(mid) && IsByte(lo)
    ensures IsWord24(Pack24(hi, mid, lo))
    ensures Bytes(Pack24(hi, mid, lo)) == (hi, mid, lo)
  {
    var low16 := mid * 0x100 + lo;
    var p := hi * 0x1_0000 + low16;
    DivModUnique(p, 0x1_0000, hi, low16);
    DivModUnique(p, 0x100, hi * 0x100 + mid, lo);
    DivModUnique(hi * 0x100 + mid, 0x100, hi, mid);
  }

  /**
   * `pack_color`: clamp each channel, then lay the three bytes out in the
   * strip's channel order; an order other than RGB, GRB or BRG (compared
   * case-insensitively) gets the RGB layout.
   */
  function PackColor(r: int, g: int, b: int, order: string): (p: int)
    ensures IsWord24(p)
    ensures Upper(order) == "GRB" ==> Bytes(p) == (ClampByte(g), ClampByte(r), ClampByte(b))
    ensures Upper(order) == "BRG" ==> Bytes(p) == (ClampByte(b), ClampByte(r), ClampByte(g))
    ensures Upper(order) != "GRB" && Upper(order) != "BRG" ==>
      Bytes(p) == (ClampByte(r), ClampByte(g), ClampByte(b))
  {
    var r, g, b := ClampByte(r), ClampByte(g), ClampByte(b);
    if Upper(order) == "RGB" then
      Pack24Bytes(r, g, b); Pack24(r, g, b)
    else if Upper(order) == "GRB" then
      Pack24Bytes(g, r, b); Pack24(g, r, b)
    else if Upper(order) == "BRG" then
      Pack24Bytes(b, r, g); Pack24(b, r, g)
    else
      Pack24Bytes(r, g, b); Pack24(r, g, b)
  }

  /** `pack_tuple`: `pack_color` on the channels of a triple. */
  function PackTuple(c: Rgb, order: string): (p: int)
    ensures IsWord24(p)
    ensures Upper(order) == "GRB" ==> Bytes(p) == (ClampByte(c.g), ClampByte(c.r), ClampByte(c.b))
    ensures Upper(order) == "BRG" ==> Bytes(p) == (ClampByte(c.b), ClampByte(c.r), ClampByte(c.g))
    ensures Upper(order) != "GRB" && Upper(order) != "BRG" ==>
      Bytes(p) == (ClampByte(c.r), ClampByte(c.g), ClampByte(c.b))
  {
    PackColor(c.r, c.g, c.b, order)
  }

  /** Packing is injective on in-range colours for every order: no two colours share a word. */
  lemma PackInjective(c1: Rgb, c2: Rgb, order: string)
    requires InRange(c1) && InRange(c2)
    requires PackTuple(c1, order) == PackTuple(c2, order)
    ensures c1 == c2
  {
  }

  lemma PackBlackIsZero(order: string)
    ensures PackTuple(BLACK, order) == 0
  {
    var p := PackTuple(BLACK, order);
    assert Bytes(p) == (0, 0, 0);
    assert p == p / 0x1_0000 * 0x1_0000 + (p / 0x100) % 0x100 * 0x100 + p % 0x100 by {
      assert p == p / 0x100 * 0x100 + p % 0x100;
      assert p / 0x100 == p / 0x100 / 0x100 * 0x100 + (p / 0x100) % 0x100;
      assert p / 0x100 / 0x100 == p / 0x1_0000;
    }
  }

  lemma PackOrderIsCaseInsensitive(r: int, g: int, b: int)
    ensures Bytes(PackColor(r, g, b, "grb")) == (ClampByte(g), ClampByte(r), ClampByte(b))
    ensures Bytes(PackColor(r, g, b, "Brg")) == (ClampByte(b), ClampByte(r), ClampByte(g))
    ensures Bytes(PackColor(r, g, b, "rgbw")) == (ClampByte(r), ClampByte(g), ClampByte(b))
  {
    assert Upper("grb") == "GRB";
    assert Upper("Brg") == "BRG";
    assert Upper("rgbw") == "RGBW";
  }

  // ---------------------------------------------------------------------
  // `_parse_color`: "r,g,b" -> clamped triple, green on any failure

  /** `str.split(sep)`: always at least one piece; empty pieces are kept. */
  function Split(s: string, sep: char): (parts: seq<string>)
    ensures |parts| >= 1
  {
    if |s| == 0 then [""]
    else
      var rest := Split(s[1..], sep);
      if s[0] == sep then [""] + rest else [[s[0]] + rest[0]] + rest[1..]
  }

  lemma {:induction false} SplitNoSeparator(s: string, sep: char)
    requires sep !in s
    ensures Split(s, sep) == [s]
  {
    if |s| > 0 {
      SplitNoSeparator(s[1..], sep);
      assert [s[0]] + s[1..] == s;
    }
  }

  lemma {:induction false} SplitAtSeparator(a: string, sep: char, b: string)
    requires sep !in a
    ensures Split(a + [sep] + b, sep) == [a] + Split(b, sep)
  {
    if |a| == 0 {
      assert a + [sep] + b == [sep] + b;
      assert ([sep] + b)[1..] == b;
    } else {
      var s := a + [sep] + b;
      assert s[1..] == a[1..] + [sep] + b;
      SplitAtSeparator(a[1..], sep, b);
      assert [a[0]] + a[1..] == a;
    }
  }

  /** Whitespace that `int()` strips (the ASCII part of Python's set). */
  predicate IsSpace(ch: char)
  {
    ch == ' ' || '\t' <= ch <= '\r' || '\U{1C}' <= ch <= '\U{1F}'
  }

  predicate IsDigit(ch: char) { '0' <= ch <= '9' }

  function StripLeft(s: string): (t: string)
    ensures |t| <= |s|
    ensures |t| > 0 ==> !IsSpace(t[0])
  {
    if |s| > 0 && IsSpace(s[0]) then StripLeft(s[1..]) else s
  }

  function StripRight(s: string): (t: string)
    ensures |t| <= |s|
    ensures |t| > 0 ==> !IsSpace(t[|t| - 1])
  {
    if |s| > 0 && IsSpace(s[|s| - 1]) then StripRight(s[..|s| - 1]) else s
  }

  function Strip(s: string): string { StripRight(StripLeft(s)) }

  /** A decimal literal as `int()` accepts it: digits, single underscores between digits. */
  predicate WellFormedDigits(s: string)
  {
    && |s| > 0 && IsDigit(s[0]) && IsDigit(s[|s| - 1])
    && (forall i :: 0 <= i < |s| ==> IsDigit(s[i]) || s[i] == '_')
    && (forall i :: 0 <= i < |s| - 1 ==> !(s[i] == '_' && s[i + 1] == '_'))
  }

  /** The value of a digit string, underscores ignored. */
  function DigitsValue(s: string): nat
  {
    if |s| == 0 then 0
    else if IsDigit(s[|s| - 1]) then DigitsValue(s[..|s| - 1]) * 10 + (s[|s| - 1] as int - '0' as int)
    else DigitsValue(s[..|s| - 1])
  }

  /** `int(x)` on a decimal string; `None` where Python raises ValueError. */
  function ParseInt(x: string): (r: Option<int>)
  {
    var t := Strip(x);
    if |t| > 0 && (t[0] == '+' || t[0] == '-') then
      if WellFormedDigits(t[1..]) then
        var v: int := DigitsValue(t[1..]);
        Some(if t[0] == '-' then -v else v)
      else None
    else if WellFormedDigits(t) then Some(DigitsValue(t))
    else None
  }

  function ParseAll(parts: seq<string>): (r: Option<seq<int>>)
    ensures r.Some? ==> |r.value| == |parts|
    ensures r.Some? ==> forall i :: 0 <= i < |parts| ==> ParseInt(parts[i]) == Some(r.value[i])
    ensures r.Some? <==> forall i :: 0 <= i < |parts| ==> ParseInt(parts[i]).Some?
  {
    if |parts| == 0 then Some([])
    else match (ParseInt(parts[0]), ParseAll(parts[1..]))
      case (Some(v), Some(vs)) => Some([v] + vs)
      case _ => None
  }

  /** `PaceGUI._parse_color`. */
  function ParseColor(s: string): (c: Rgb)
    ensures InRange(c)
  {
    match ParseAll(Split(s, ','))
    case Some(vs) =>
      if |vs| != 3 then GREEN else Clamp(Rgb(vs[0], vs[1], vs[2]))
    case None => GREEN
  }

  // Rendering a channel as decimal text, the inverse that the round trip needs.

  function DigitChar(d: int): char
    requires 0 <= d < 10
  {
    (d + '0' as int) as char
  }

  function Decimal(n: nat): (s: string)
    ensures |s| > 0
    ensures forall i :: 0 <= i < |s| ==> IsDigit(s[i])
    decreases n
  {
    if n < 10 then [DigitChar(n)] else Decimal(n / 10) + [DigitChar(n % 10)]
  }

  lemma {:induction false} DecimalValue(n: nat)
    ensures DigitsValue(Decimal(n)) == n
    decreases n
  {
    var s := Decimal(n);
    if n < 10 {
      assert s[..0] == [];
    } else {
      assert s[..|s| - 1] == Decimal(n / 10);
      DecimalValue(n / 10);
    }
  }

  lemma DecimalParses(n: nat)
    ensures ParseInt(Decimal(n)) == Some(n)
  {
    var s := Decimal(n);
    assert StripLeft(s) == s;
    assert StripRight(s) == s;
    DecimalValue(n);
  }

  lemma SplitThree(a: string, b: string, d: string)
    requires ',' !in a && ',' !in b && ',' !in d
    ensures Split(a + "," + b + "," + d, ',') == [a, b, d]
  {
    assert a + "," + b + "," + d == a + [','] + (b + [','] + d);
    SplitAtSeparator(a, ',', b + [','] + d);
    SplitAtSeparator(b, ',', d);
    SplitNoSeparator(d, ',');
  }

  lemma ParseAllThree(a: string, b: string, d: string, x: int, y: int, z: int)
    requires ParseInt(a) == Some(x) && ParseInt(b) == Some(y) && ParseInt(d) == Some(z)
    ensures ParseAll([a, b, d]) == Some([x, y, z])
  {
    var parts := [a, b, d];
    assert parts[1..] == [b, d];
    assert parts[1..][1..] == [d];
    assert ParseAll(parts[1..][1..][1..]) == Some([]);
    assert [z] + [] == [z];
    assert ParseAll(parts[1..][1..]) == Some([z]);
    assert [y] + [z] == [y, z];
    assert ParseAll(parts[1..]) == Some([y, z]);
    assert [x] + [y, z] == [x, y, z];
  }

  /** Parsing the rendered text of an in-range colour gives the colour back. */
  lemma ParseColorRoundTrip(c: Rgb)
    requires InRange(c)
    ensures ParseColor(Decimal(c.r) + "," + Decimal(c.g) + "," + Decimal(c.b)) == c
  {
    var a, b, d := Decimal(c.r), Decimal(c.g), Decimal(c.b);
    assert ',' !in a && ',' !in b && ',' !in d;
    SplitThree(a, b, d);
    DecimalParses(c.r);
    DecimalParses(c.g);
    DecimalParses(c.b);
    ParseAllThree(a, b, d, c.r, c.g, c.b);
  }

  /** Text that does not split into exactly three pieces falls back to green. */
  lemma ParseColorWrongArity(s: string)
    requires |Split(s, ',')| != 3
    ensures ParseColor(s) == GREEN
  {
  }

  /** Text with a piece that `int()` rejects falls back to green, whatever the number of pieces. */
  lemma ParseColorRejectsPiece(s: string, i: int)
    requires 0 <= i < |Split(s, ',')| && ParseInt(Split(s, ',')[i]).None?
    ensures ParseColor(s) == GREEN
  {
    assert ParseAll(Split(s, ',')).None?;
  }

  /** So does text without a comma: it is a single piece. */
  lemma ParseColorNoComma(s: string)
    requires ',' !in s
    ensures ParseColor(s) == GREEN
  {
    SplitNoSeparator(s, ',');
    ParseColorWrongArity(s);
  }

  /** Two numbers and four numbers are both refused, though each piece parses. */
  lemma ParseColorWrongArityExamples()
    ensures ParseColor("1,2") == GREEN
    ensures ParseColor("1,2,3,4") == GREEN
  {
    assert "1,2" == "1" + [','] + "2";
    SplitAtSeparator("1", ',', "2");
    SplitNoSeparator("2", ',');
    ParseColorWrongArity("1,2");
    assert "1,2,3,4" == "1" + [','] + ("2" + [','] + ("3" + [','] + "4"));
    SplitAtSeparator("1", ',', "2" + [','] + ("3" + [','] + "4"));
    SplitAtSeparator("2", ',', "3" + [','] + "4");
    SplitAtSeparator("3", ',', "4");
    SplitNoSeparator("4", ',');
    ParseColorWrongArity("1,2,3,4");
  }

  lemma ParseIntSpaced()
    ensures ParseInt(" 300") == Some(300)
  {
    assert StripLeft(" 300") == "300";
    assert Strip(" 300") == "300";
    assert DigitsValue("300") == 300 by {
      assert "300"[..2] == "30";
      assert "30"[..1] == "3";
      assert "3"[..0] == "";
    }
  }

  lemma ParseIntSigned()
    ensures ParseInt(" -5 ") == Some(-5)
    ensures ParseInt("+7") == Some(7)
  {
    assert StripLeft(" -5 ") == "-5 ";
    assert StripRight("-5 ") == "-5";
    assert Strip("+7") == "+7";
    assert "-5"[1..] == "5";
    assert "+7"[1..] == "7";
    assert DigitsValue("5") == 5 by { assert "5"[..0] == ""; }
    assert DigitsValue("7") == 7 by { assert "7"[..0] == ""; }
  }

  lemma ParseColorClampsAndSigns()
    ensures ParseColor(" 300, -5 ,+7") == Rgb(255, 0, 7)
  {
    assert ',' !in " 300" && ',' !in " -5 " && ',' !in "+7";
    SplitThree(" 300", " -5 ", "+7");
    assert " 300, -5 ,+7" == " 300" + "," + " -5 " + "," + "+7";
    ParseIntSpaced();
    ParseIntSigned();
    ParseAllThree(" 300", " -5 ", "+7", 300, -5, 7);
  }

  lemma ParseColorRejectsText()
    ensures ParseColor("a,b,c") == GREEN
  {
    SplitThree("a", "b", "c");
    assert "a,b,c" == "a" + "," + "b" + "," + "c";
    assert Strip("a") == "a";
    assert ParseInt("a") == None;
  }
}
