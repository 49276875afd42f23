/** The integer and string logic of src/helpers/colors.ts: the hex colour
    parser behind the palette, the string hash, the palette selection by
    hash and the "rgb(...)" formatter. */
module Colors {
  import Decimal
  import Strings

  /** An RGB colour: the source's three-number tuple, with integer channels. */
  datatype Color = Color(red: nat, green: nat, blue: nat)

  /** The "Bad Color: <text>" exception the parser throws. */
  datatype Error = BadColor(text: string)

  datatype Result<T> = Ok(value: T) | Err(error: Error)

  predicate InRange(c: Color) {
    c.red <= 255 && c.green <= 255 && c.blue <= 255
  }

  // ---------------------------------------------------------------------
  // Hex digits

  /** One character of the class [A-Fa-f0-9]. */
  predicate IsHexDigit(c: char) {
    '0' <= c <= '9' || 'a' <= c <= 'f' || 'A' <= c <= 'F'
  }

  function HexValue(c: char): (v: nat)
    requires IsHexDigit(c)
    ensures v < 16
  {
    if '0' <= c <= '9' then (c as int) - ('0' as int)
    else if 'a' <= c <= 'f' then (c as int) - ('a' as int) + 10
    else (c as int) - ('A' as int) + 10
  }

  /** The lower-case hex digit of a value below sixteen. */
  function HexDigit(v: nat): (c: char)
    requires v < 16
    ensures IsHexDigit(c) && HexValue(c) == v
  {
    if v < 10 then (('0' as int) + v) as char else (('a' as int) + v - 10) as char
  }

  /** parseInt(hi + lo, 16): the byte two hex digits spell. */
  function ParseHexPair(hi: char, lo: char): (v: nat)
    requires IsHexDigit(hi) && IsHexDigit(lo)
    ensures v < 256
  {
    16 * HexValue(hi) + HexValue(lo)
  }

  // ---------------------------------------------------------------------
  // The parser `t`, element by element and over the whole list

  /** The test /^#[A-Fa-f0-9]+$/: a '#' and one or more hex digits, and nothing else. */
  predicate MatchesHexPattern(s: string) {
    |s| >= 2 && s[0] == '#' && forall i :: 1 <= i < |s| ==> IsHexDigit(s[i])
  }

  /** The regular expression's own reading of [A-Fa-f0-9]+: one hex digit, then
      either the end or another run. */
  predicate HexRun(t: string)
    decreases |t|
  {
    |t| >= 1 && IsHexDigit(t[0]) && (|t| == 1 || HexRun(t[1..]))
  }

  /** A run is exactly a non-empty string of hex digits. */
  lemma {:induction false} HexRunIsAllHexDigits(t: string)
    ensures HexRun(t) <==> |t| >= 1 && forall i :: 0 <= i < |t| ==> IsHexDigit(t[i])
    decreases |t|
  {
    if |t| >= 2 {
      HexRunIsAllHexDigits(t[1..]);
      assert forall i :: 1 <= i < |t| ==> t[i] == t[1..][i - 1];
    }
  }

  /** MatchesHexPattern accepts exactly what the anchored pattern ^#[A-Fa-f0-9]+$ derives. */
  lemma HexPatternAsRegex(s: string)
    ensures MatchesHexPattern(s) <==> |s| >= 1 && s[0] == '#' && HexRun(s[1..])
  {
    if |s| >= 1 {
      HexRunIsAllHexDigits(s[1..]);
      assert forall i :: 1 <= i < |s| ==> s[i] == s[1..][i - 1];
    }
  }

  /** Digit counts of the short form (3, or 4 with an ignored alpha digit). */
  predicate IsShortSize(n: int) {
    3 <= n <= 4
  }

  /** Digit counts of the long form (6, or 7 with an ignored seventh digit). */
  predicate IsLongSize(n: int) {
    6 <= n <= 7
  }

  /** The body of the callback `t` maps over its list: one hex string to a colour. */
  function ParseHex(s: string): (r: Result<Color>)
    ensures r.Ok? <==> MatchesHexPattern(s) && (IsShortSize(|s| - 1) || IsLongSize(|s| - 1))
    ensures !MatchesHexPattern(s) ==> r == Err(BadColor(s))
    ensures MatchesHexPattern(s) && r.Err? ==> r == Err(BadColor(s[1..]))
    ensures r.Ok? ==> InRange(r.value)
    ensures r.Ok? && IsShortSize(|s| - 1) ==>
      r.value == Color(17 * HexValue(s[1]), 17 * HexValue(s[2]), 17 * HexValue(s[3]))
    ensures r.Ok? && IsLongSize(|s| - 1) ==>
      r.value == Color(16 * HexValue(s[1]) + HexValue(s[2]),
                       16 * HexValue(s[3]) + HexValue(s[4]),
                       16 * HexValue(s[5]) + HexValue(s[6]))
  {
    if !MatchesHexPattern(s) then Err(BadColor(s))
    else
      var digits := s[1..];
      assert forall i :: 0 <= i < |digits| ==> digits[i] == s[i + 1];
      var size := |digits|;
      if 3 <= size <= 4 then
        Ok(Color(ParseHexPair(digits[0], digits[0]),
                 ParseHexPair(digits[1], digits[1]),
                 ParseHexPair(digits[2], digits[2])))
      else if 6 <= size <= 7 then
        Ok(Color(ParseHexPair(digits[0], digits[1]),
                 ParseHexPair(digits[2], digits[3]),
                 ParseHexPair(digits[4], digits[5])))
      else Err(BadColor(digits))
  }

  /** Index i holds the first string of the list that the parser rejects. */
  predicate FirstFailure(colors: seq<string>, i: int) {
    0 <= i < |colors| && ParseHex(colors[i]).Err? &&
    forall j :: 0 <= j < i ==> ParseHex(colors[j]).Ok?
  }

  /** `t` itself: colors.map(...), which stops at the first string that throws. */
  function ParseAll(colors: seq<string>): (r: Result<seq<Color>>)
    ensures r.Ok? <==> forall i :: 0 <= i < |colors| ==> ParseHex(colors[i]).Ok?
    ensures r.Ok? ==> |r.value| == |colors| &&
                      forall i :: 0 <= i < |colors| ==> r.value[i] == ParseHex(colors[i]).value
    ensures r.Err? ==> exists i :: FirstFailure(colors, i) && ParseHex(colors[i]) == Err(r.error)
  {
    if colors == [] then Ok([])
    else
      match ParseHex(colors[0])
      case Err(e) => Err(e)
      case Ok(c) =>
        match ParseAll(colors[1..])
        case Err(e) =>
          var i :| FirstFailure(colors[1..], i) && ParseHex(colors[1..][i]) == Err(e);
          assert FirstFailure(colors, i + 1) by {
            forall j | 0 <= j < i + 1 ensures ParseHex(colors[j]).Ok? {
              if j > 0 { assert colors[j] == colors[1..][j - 1]; }
            }
          }
          assert ParseHex(colors[i + 1]) == Err(e);
          Err(e)
        case Ok(cs) => Ok([c] + cs)
  }

  /** The canonical six-digit spelling "#rrggbb" of an in-range colour. */
  function LongForm(c: Color): string
    requires InRange(c)
  {
    ['#', HexDigit(c.red / 16), HexDigit(c.red % 16),
     HexDigit(c.green / 16), HexDigit(c.green % 16),
     HexDigit(c.blue / 16), HexDigit(c.blue % 16)]
  }

  /** Every in-range colour is the parse of its six-digit spelling. */
  lemma ParseLongForm(c: Color)
    requires InRange(c)
    ensures ParseHex(LongForm(c)) == Ok(c)
  {
    var s := LongForm(c);
    assert MatchesHexPattern(s);
  }

  /** The short form is the long form with each digit doubled: "#abc" parses as "#aabbcc". */
  lemma ShortFormIsDoubledLongForm(s: string)
    requires MatchesHexPattern(s) && |s| == 4
    ensures ParseHex(s).Ok?
    ensures ParseHex(s) == ParseHex(['#', s[1], s[1], s[2], s[2], s[3], s[3]])
  {
    var long := ['#', s[1], s[1], s[2], s[2], s[3], s[3]];
    assert MatchesHexPattern(long);
  }

  /** The fourth digit of a short form and the seventh of a long form are ignored. */
  lemma AlphaDigitIgnored(s: string)
    requires MatchesHexPattern(s) && (|s| == 5 || |s| == 8)
    ensures ParseHex(s).Ok?
    ensures ParseHex(s) == ParseHex(s[..|s| - 1])
  {
    assert MatchesHexPattern(s[..|s| - 1]);
  }

  /** Accepted forms spelled out: "#fff" and "#ffffff" are white, "#000" is black,
      and a fourth short-form digit is dropped. */
  lemma ParseHexAcceptedExamples()
    ensures ParseHex("#fff") == ParseHex("#ffffff") == Ok(Color(255, 255, 255))
    ensures ParseHex("#000") == Ok(Color(0, 0, 0))
    ensures ParseHex("#abcd") == ParseHex("#abc") == Ok(Color(0xAA, 0xBB, 0xCC))
  {
    assert MatchesHexPattern("#fff");
    assert MatchesHexPattern("#ffffff");
    assert MatchesHexPattern("#000");
    assert MatchesHexPattern("#abcd");
    assert MatchesHexPattern("#abc");
  }

  /** Rejected forms spelled out: a bare "#", a non-hex digit, and the digit counts
      2, 5 and 8 (so the eight-digit counterpart of "#abcd" is refused). */
  lemma ParseHexRejectedExamples()
    ensures ParseHex("#") == Err(BadColor("#"))
    ensures ParseHex("#zzz") == Err(BadColor("#zzz"))
    ensures ParseHex("#12") == Err(BadColor("12"))
    ensures ParseHex("#12345") == Err(BadColor("12345"))
    ensures ParseHex("#aabbccdd") == Err(BadColor("aabbccdd"))
  {
    assert !IsHexDigit('z');
    assert MatchesHexPattern("#12");
    assert MatchesHexPattern("#12345");
    assert MatchesHexPattern("#aabbccdd");
  }

  // ---------------------------------------------------------------------
  // The palette

  /** The space-separated literal palette_in is built from, written as its
      twenty codes and the single spaces between them. */
  const PaletteSource: string :=
    ("#FEA47F" + " " + "#25CCF7" + " " + "#EAB543" + " " + "#55E6C1" + " " + "#CAD3C8")
    + " " + ("#F97F51" + " " + "#1B9CFC" + " " + "#F8EFBA" + " " + "#58B19F" + " " + "#2C3A47")
    + " " + ("#B33771" + " " + "#3B3B98" + " " + "#FD7272" + " " + "#9AECDB" + " " + "#D6A2E8")
    + " " + ("#6D214F" + " " + "#182C61" + " " + "#FC427B" + " " + "#BDC581" + " " + "#82589F")

  /** Its pieces, in source order. */
  const PaletteHex: seq<string> := [
    "#FEA47F", "#25CCF7", "#EAB543", "#55E6C1", "#CAD3C8",
    "#F97F51", "#1B9CFC", "#F8EFBA", "#58B19F", "#2C3A47",
    "#B33771", "#3B3B98", "#FD7272", "#9AECDB", "#D6A2E8",
    "#6D214F", "#182C61", "#FC427B", "#BDC581", "#82589F"]

  /** The colours those literals spell. */
  const PaletteColors: seq<Color> := [
    Color(0xFE, 0xA4, 0x7F), Color(0x25, 0xCC, 0xF7), Color(0xEA, 0xB5, 0x43),
    Color(0x55, 0xE6, 0xC1), Color(0xCA, 0xD3, 0xC8), Color(0xF9, 0x7F, 0x51),
    Color(0x1B, 0x9C, 0xFC), Color(0xF8, 0xEF, 0xBA), Color(0x58, 0xB1, 0x9F),
    Color(0x2C, 0x3A, 0x47), Color(0xB3, 0x37, 0x71), Color(0x3B, 0x3B, 0x98),
    Color(0xFD, 0x72, 0x72), Color(0x9A, 0xEC, 0xDB), Color(0xD6, 0xA2, 0xE8),
    Color(0x6D, 0x21, 0x4F), Color(0x18, 0x2C, 0x61), Color(0xFC, 0x42, 0x7B),
    Color(0xBD, 0xC5, 0x81), Color(0x82, 0x58, 0x9F)]

  /** A seven-character "#rrggbb" literal parses to the colour of its three digit pairs. */
  lemma ParseSixDigits(s: string)
    requires |s| == 7 && s[0] == '#'
    requires IsHexDigit(s[1]) && IsHexDigit(s[2]) && IsHexDigit(s[3])
    requires IsHexDigit(s[4]) && IsHexDigit(s[5]) && IsHexDigit(s[6])
    ensures ParseHex(s) ==
      Ok(Color(ParseHexPair(s[1], s[2]), ParseHexPair(s[3], s[4]), ParseHexPair(s[5], s[6])))
  {
    assert MatchesHexPattern(s);
  }

  /** Literals 0 to 4 of the palette spell the colours at their indices. */
  lemma PaletteLiterals0To4(i: nat)
    requires i < 5
    ensures ParseHex(PaletteHex[i]) == Ok(PaletteColors[i])
  {
    if i == 0 { ParseSixDigits(PaletteHex[0]); }
    else if i == 1 { ParseSixDigits(PaletteHex[1]); }
    else if i == 2 { ParseSixDigits(PaletteHex[2]); }
    else if i == 3 { ParseSixDigits(PaletteHex[3]); }
    else { ParseSixDigits(PaletteHex[4]); }
  }

  /** Literals 5 to 9 of the palette spell the colours at their indices. */
  lemma PaletteLiterals5To9(i: nat)
    requires 5 <= i < 10
    ensures ParseHex(PaletteHex[i]) == Ok(PaletteColors[i])
  {
    if i == 5 { ParseSixDigits(PaletteHex[5]); }
    else if i == 6 { ParseSixDigits(PaletteHex[6]); }
    else if i == 7 { ParseSixDigits(PaletteHex[7]); }
    else if i == 8 { ParseSixDigits(PaletteHex[8]); }
    else { ParseSixDigits(PaletteHex[9]); }
  }

  /** Literals 10 to 14 of the palette spell the colours at their indices. */
  lemma PaletteLiterals10To14(i: nat)
    requires 10 <= i < 15
    ensures ParseHex(PaletteHex[i]) == Ok(PaletteColors[i])
  {
    if i == 10 { ParseSixDigits(PaletteHex[10]); }
    else if i == 11 { ParseSixDigits(PaletteHex[11]); }
    else if i == 12 { ParseSixDigits(PaletteHex[12]); }
    else if i == 13 { ParseSixDigits(PaletteHex[13]); }
    else { ParseSixDigits(PaletteHex[14]); }
  }

  /** Literals 15 to 19 of the palette spell the colours at their indices. */
  lemma PaletteLiterals15To19(i: nat)
    requires 15 <= i < 20
    ensures ParseHex(PaletteHex[i]) == Ok(PaletteColors[i])
  {
    if i == 15 { ParseSixDigits(PaletteHex[15]); }
    else if i == 16 { ParseSixDigits(PaletteHex[16]); }
    else if i == 17 { ParseSixDigits(PaletteHex[17]); }
    else if i == 18 { ParseSixDigits(PaletteHex[18]); }
    else { ParseSixDigits(PaletteHex[19]); }
  }

  /** A list every element of which parses is mapped element by element. */
  lemma ParseAllSucceeds(colors: seq<string>, cs: seq<Color>)
    requires |colors| == |cs|
    requires forall i :: 0 <= i < |colors| ==> ParseHex(colors[i]) == Ok(cs[i])
    ensures ParseAll(colors) == Ok(cs)
  {
    var r := ParseAll(colors);
    assert r.Ok?;
    assert r.value == cs;
  }

  /** Five codes joined by one separator. */
  lemma JoinFive(h: seq<string>, sep: char)
    requires |h| == 5
    ensures Strings.Join(h, sep)
         == h[0] + [sep] + (h[1] + [sep] + (h[2] + [sep] + (h[3] + [sep] + h[4])))
  {
    assert h[1..][1..][1..][1..] == [h[4]];
    assert Strings.Join(h[3..], sep) == h[3] + [sep] + h[4];
    assert Strings.Join(h[2..], sep) == h[2] + [sep] + Strings.Join(h[3..], sep);
    assert Strings.Join(h[1..], sep) == h[1] + [sep] + Strings.Join(h[2..], sep);
  }

  /** Row 1 of the literal is the join of five of its codes. */
  lemma JoinedRow0(sep: char)
    requires sep == ' '
    ensures Strings.Join(PaletteHex[..5], sep)
         == "#FEA47F" + " " + "#25CCF7" + " " + "#EAB543" + " " + "#55E6C1" + " " + "#CAD3C8"
  {
    assert PaletteHex[..5] == ["#FEA47F", "#25CCF7", "#EAB543", "#55E6C1", "#CAD3C8"];
    JoinFive(PaletteHex[..5], sep);
    assert [sep] == " ";
  }

  /** Row 2 of the literal is the join of five of its codes. */
  lemma JoinedRow1(sep: char)
    requires sep == ' '
    ensures Strings.Join(PaletteHex[5..10], sep)
         == "#F97F51" + " " + "#1B9CFC" + " " + "#F8EFBA" + " " + "#58B19F" + " " + "#2C3A47"
  {
    assert PaletteHex[5..10] == ["#F97F51", "#1B9CFC", "#F8EFBA", "#58B19F", "#2C3A47"];
    JoinFive(PaletteHex[5..10], sep);
    assert [sep] == " ";
  }

  /** Row 3 of the literal is the join of five of its codes. */
  lemma JoinedRow2(sep: char)
    requires sep == ' '
    ensures Strings.Join(PaletteHex[10..15], sep)
         == "#B33771" + " " + "#3B3B98" + " " + "#FD7272" + " " + "#9AECDB" + " " + "#D6A2E8"
  {
    assert PaletteHex[10..15] == ["#B33771", "#3B3B98", "#FD7272", "#9AECDB", "#D6A2E8"];
    JoinFive(PaletteHex[10..15], sep);
    assert [sep] == " ";
  }

  /** Row 4 of the literal is the join of five of its codes. */
  lemma JoinedRow3(sep: char)
    requires sep == ' '
    ensures Strings.Join(PaletteHex[15..], sep)
         == "#6D214F" + " " + "#182C61" + " " + "#FC427B" + " " + "#BDC581" + " " + "#82589F"
  {
    assert PaletteHex[15..] == ["#6D214F", "#182C61", "#FC427B", "#BDC581", "#82589F"];
    JoinFive(PaletteHex[15..], sep);
    assert [sep] == " ";
  }

  /** The literal is the palette codes joined by single spaces. The separator
      is a parameter, not the literal ' ', so that the verifier does not unfold
      Join and Split over the literal one character at a time. */
  lemma PaletteSourceIsJoin(sep: char)
    requires sep == ' '
    ensures Strings.Join(PaletteHex, sep) == PaletteSource
  {
    var h0, h1, h2, h3 := PaletteHex[..5], PaletteHex[5..10], PaletteHex[10..15], PaletteHex[15..];
    assert PaletteHex == ((h0 + h1) + h2) + h3;
    JoinedRow0(sep);
    JoinedRow1(sep);
    JoinedRow2(sep);
    JoinedRow3(sep);
    Strings.JoinAppend(h0, h1, sep);
    Strings.JoinAppend(h0 + h1, h2, sep);
    Strings.JoinAppend((h0 + h1) + h2, h3, sep);
  }

  /** split(" ") cuts the palette literal into exactly the 20 pieces above. */
  lemma PaletteSourceSplits()
    ensures Strings.Split(PaletteSource, ' ') == PaletteHex
  {
    PaletteSplitsAt(' ');
  }

  /** A string the parser accepts contains no space. */
  lemma AcceptedHasNoSpace(s: string, sep: char)
    requires sep == ' ' && ParseHex(s).Ok?
    ensures sep !in s
  {
    forall i | 1 <= i < |s| ensures s[i] != sep {
      assert IsHexDigit(s[i]);
    }
  }

  /** No palette code holds a space. */
  lemma PaletteHexSeparatorFree(sep: char)
    requires sep == ' '
    ensures Strings.SeparatorFree(PaletteHex, sep)
  {
    PaletteHexParses();
    forall i | 0 <= i < |PaletteHex| ensures sep !in PaletteHex[i] {
      AcceptedHasNoSpace(PaletteHex[i], sep);
    }
  }

  lemma PaletteSplitsAt(sep: char)
    requires sep == ' '
    ensures Strings.Split(PaletteSource, sep) == PaletteHex
  {
    PaletteSourceIsJoin(sep);
    PaletteHexSeparatorFree(sep);
    Strings.SplitJoin(PaletteHex, sep);
  }

  /** Building the palette at load time, t(literal.split(" ")), does not throw,
      and yields the table above. */
  lemma PaletteParses()
    ensures ParseAll(Strings.Split(PaletteSource, ' ')) == Ok(PaletteColors)
  {
    PaletteSourceSplits();
    PaletteHexParses();
  }

  /** The twenty literals parse to the table of colours. */
  lemma PaletteHexParses()
    ensures ParseAll(PaletteHex) == Ok(PaletteColors)
  {
    forall i | 0 <= i < |PaletteHex|
      ensures ParseHex(PaletteHex[i]) == Ok(PaletteColors[i])
    {
      if i < 5 { PaletteLiterals0To4(i); }
      else if i < 10 { PaletteLiterals5To9(i); }
      else if i < 15 { PaletteLiterals10To14(i); }
      else { PaletteLiterals15To19(i); }
    }
    ParseAllSucceeds(PaletteHex, PaletteColors);
  }

  /** palette_in: the parsed literals. */
  function Palette(): (p: seq<Color>)
    ensures |p| == |PaletteHex| == 20
    ensures forall i :: 0 <= i < |p| ==> InRange(p[i]) && Ok(p[i]) == ParseHex(PaletteHex[i])
  {
    PaletteHexParses();
    PaletteColors
  }

  // ---------------------------------------------------------------------
  // The string hash

  /** str.charCodeAt(i) for a character: its code point, a Unicode scalar value. */
  function CharCode(c: char): (code: nat)
    ensures code < 0xD800 || 0xE000 <= code < 0x11_0000
  {
    c as nat
  }

  /** The left fold h = h * 31 + code over the string, from h = 0. */
  function HashOf(s: string): (h: int)
    ensures h >= 0
    decreases |s|
  {
    if s == [] then 0 else 31 * HashOf(s[..|s| - 1]) + CharCode(s[|s| - 1])
  }

  /** hashCode: the loop over the string's characters. */
  method HashCode(str: string) returns (h: int)
    ensures h == HashOf(str)
  {
    h := 0;
    var i := 0;
    while i < |str|
      invariant 0 <= i <= |str|
      invariant h == HashOf(str[..i])
    {
      assert str[..i + 1][..i] == str[..i];
      h := h * 31 + CharCode(str[i]);
      i := i + 1;
    }
    assert str[..i] == str;
  }

  function Pow31(k: nat): (p: nat)
    ensures p >= 1
  {
    if k == 0 then 1 else 31 * Pow31(k - 1)
  }

  /** The hash as a polynomial in 31: code(s[i]) weighted by 31^(|s|-1-i). */
  function PolynomialHash(s: string): nat
    decreases |s|
  {
    if s == [] then 0 else CharCode(s[0]) * Pow31(|s| - 1) + PolynomialHash(s[1..])
  }

  /** Hashing a concatenation: the prefix's hash is shifted by 31^|t|. */
  lemma {:induction false} HashConcat(s: string, t: string)
    ensures HashOf(s + t) == HashOf(s) * Pow31(|t|) + HashOf(t)
    decreases |t|
  {
    if t == [] {
      assert s + t == s;
    } else {
      var t' := t[..|t| - 1];
      var c := t[|t| - 1];
      assert (s + t)[..|s + t| - 1] == s + t';
      assert t[..|t| - 1] == t';
      HashConcat(s, t');
      var a, p, b := HashOf(s), Pow31(|t'|), HashOf(t');
      assert HashOf(s + t) == 31 * (a * p + b) + CharCode(c);
      MultiplyAcross(a, p, b, CharCode(c));
    }
  }

  /** The arithmetic step of HashConcat: 31 * (a * p + b) + k regrouped. */
  lemma MultiplyAcross(a: int, p: int, b: int, k: int)
    ensures 31 * (a * p + b) + k == a * (31 * p) + (31 * b + k)
  {
  }

  /** The loop's left fold equals the polynomial reading of the hash. */
  lemma {:induction false} HashIsPolynomial(s: string)
    ensures HashOf(s) == PolynomialHash(s)
    decreases |s|
  {
    if s != [] {
      HashConcat([s[0]], s[1..]);
      assert [s[0]] + s[1..] == s;
      assert [s[0]][..0] == [];
      HashIsPolynomial(s[1..]);
    }
  }

  // ---------------------------------------------------------------------
  // Palette selection

  /** JavaScript's integer quotient, truncated toward zero. */
  function TruncatedQuotient(a: int, n: int): int
    requires n > 0
  {
    if a >= 0 then a / n else -((-a) / n)
  }

  /** JavaScript's % on integers: truncating, so the remainder takes the dividend's sign. */
  function JsRemainder(a: int, n: int): (r: int)
    requires n > 0
    ensures a == TruncatedQuotient(a, n) * n + r
    ensures -n < r < n
    ensures a >= 0 ==> r >= 0
    ensures a <= 0 ==> r <= 0
  {
    if a >= 0 then a % n else -((-a) % n)
  }

  /** The palette index getColorByStringHash reads: 0 for the empty string,
      hash % palette_in.length otherwise. */
  function PaletteIndex(str: string): (i: int)
    ensures 0 <= i < |Palette()|
    ensures str == [] ==> i == 0
    ensures str != [] ==> i == HashOf(str) % 20
  {
    if str == [] then 0 else JsRemainder(HashOf(str), |Palette()|)
  }

  /** getColorByStringHash. */
  method GetColorByStringHash(str: string) returns (c: Color)
    ensures c == Palette()[PaletteIndex(str)]
    ensures c in Palette() && InRange(c)
    ensures str == [] ==> c == Palette()[0]
  {
    var palette := Palette();
    if str == [] {
      return palette[0];
    }
    var hash := HashCode(str);
    c := palette[JsRemainder(hash, |palette|)];
  }

  /** Every palette entry is the colour of some non-empty string. */
  lemma EveryEntryReachable(k: nat)
    requires k < 20
    ensures exists str :: str != [] && PaletteIndex(str) == k
  {
    var str := [(40 + k) as char];
    assert str[..0] == [];
    assert HashOf(str) == 40 + k;
    assert PaletteIndex(str) == k;
  }

  // ---------------------------------------------------------------------
  // Formatting

  /** The numerals of a colour's channels, in order. */
  function ChannelNumerals(c: Color): seq<string> {
    [Decimal.Show(c.red), Decimal.Show(c.green), Decimal.Show(c.blue)]
  }

  /** getColorString: `rgb(${color.join(",")})`. */
  function ColorString(c: Color): (s: string)
    ensures s == "rgb(" + (Decimal.Show(c.red) + "," + Decimal.Show(c.green) + ","
                           + Decimal.Show(c.blue)) + ")"
  {
    Strings.JoinThree(Decimal.Show(c.red), Decimal.Show(c.green), Decimal.Show(c.blue), ',');
    assert [','] == ",";
    "rgb(" + Strings.Join(ChannelNumerals(c), ',') + ")"
  }

  /** The text between "rgb(" and ")" is recovered from the whole string. */
  lemma StripWrapper(u: string, v: string)
    requires "rgb(" + u + ")" == "rgb(" + v + ")"
    ensures u == v
  {
    var s := "rgb(" + u + ")";
    assert u == s[4..|s| - 1];
  }

  /** A numeral holds no comma. */
  lemma NoComma(n: nat)
    ensures ',' !in Decimal.Show(n)
  {
    var s := Decimal.Show(n);
    assert forall i :: 0 <= i < |s| ==> Decimal.IsDigit(s[i]);
  }

  /** Distinct colours are written as distinct strings. */
  lemma ColorStringInjective(c: Color, d: Color)
    requires ColorString(c) == ColorString(d)
    ensures c == d
  {
    var p, q := ChannelNumerals(c), ChannelNumerals(d);
    StripWrapper(Strings.Join(p, ','), Strings.Join(q, ','));
    NoComma(c.red); NoComma(c.green); NoComma(c.blue);
    NoComma(d.red); NoComma(d.green); NoComma(d.blue);
    Strings.JoinInjective(p, q, ',');
    Decimal.ShowInjective(c.red, d.red);
    Decimal.ShowInjective(c.green, d.green);
    Decimal.ShowInjective(c.blue, d.blue);
  }

  lemma NumeralsExample()
    ensures Decimal.Show(255) == "255" && Decimal.Show(0) == "0" && Decimal.Show(128) == "128"
  {
    assert Decimal.Show(25) == Decimal.Show(2) + "5";
    assert Decimal.Show(12) == Decimal.Show(1) + "2";
  }

  lemma ColorStringExample()
    ensures ColorString(Color(255, 0, 128)) == "rgb(255,0,128)"
  {
    NumeralsExample();
    assert "rgb(" + ("255" + "," + "0" + "," + "128") + ")" == "rgb(255,0,128)";
  }
}
