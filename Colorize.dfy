// The colour helpers of utils/colorize.py: `hex_to_rgb` reads a colour by
// formatting it as six hexadecimal digits and parsing the three pairs, and
// `colorize` / `log_colorize` wrap text in 24-bit ANSI colour sequences.
// The clock reading of `log_colorize` is a parameter.

module Colorize {
  import opened Wrappers
  import opened PyStrings

  type Rgb = (int, int, int)

  /* ---------------------------------------------------------------------- */
  /* Hexadecimal digits                                                     */
  /* ---------------------------------------------------------------------- */

  /** The digits the `x` format writes. */
  predicate IsHexDigit(ch: char) {
    '0' <= ch <= '9' || 'a' <= ch <= 'f'
  }

  function HexDigit(d: nat): (ch: char)
    requires d < 16
    ensures IsHexDigit(ch)
  {
    if d < 10 then ('0' as int + d) as char else ('a' as int + d - 10) as char
  }

  function HexDigitValue(ch: char): (d: nat)
    requires IsHexDigit(ch)
    ensures d < 16 && HexDigit(d) == ch
  {
    if ch <= '9' then ch as int - '0' as int else ch as int - 'a' as int + 10
  }

  predicate AllHexDigits(s: string) {
    forall i :: 0 <= i < |s| ==> IsHexDigit(s[i])
  }

  /** The number a string of hexadecimal digits denotes. */
  function HexValue(s: string): nat
    requires AllHexDigits(s)
    decreases |s|
  {
    if s == [] then 0 else HexValue(s[..|s| - 1]) * 16 + HexDigitValue(s[|s| - 1])
  }

  function Pow16(k: nat): (p: nat)
    ensures p >= 1
  {
    if k == 0 then 1 else 16 * Pow16(k - 1)
  }

  /** The `0{width}x` format of a non-negative number: its hexadecimal
      digits, zero-padded on the left to at least `width` characters. */
  function HexPadded(n: nat, width: nat): string
    decreases n, width
  {
    if n < 16 && width <= 1 then [HexDigit(n)]
    else HexPadded(n / 16, if width == 0 then 0 else width - 1) + [HexDigit(n % 16)]
  }

  /** `f"{c:06x}"`: a negative number keeps its sign in front of the zeros. */
  function Format06x(c: int): string {
    if c < 0 then "-" + HexPadded(-c, 5) else HexPadded(c, 6)
  }

  /** A slice `hex_to_rgb` hands to `int(_, 16)`: two digits, or a minus
      sign and one digit. */
  predicate HexSlice(s: string) {
    |s| == 2 && (s[0] == '-' || IsHexDigit(s[0])) && IsHexDigit(s[1])
  }

  /** `int(s, 16)` on such a slice. */
  function ParseHexSlice(s: string): int
    requires HexSlice(s)
  {
    if s[0] == '-' then -(HexDigitValue(s[1]) as int) else HexDigitValue(s[0]) * 16 + HexDigitValue(s[1])
  }

  /** Padded formatting writes digits only, at least `width` of them, and
      reading them back gives the number. */
  lemma {:induction false} HexPaddedDigits(n: nat, width: nat)
    ensures |HexPadded(n, width)| >= width && |HexPadded(n, width)| >= 1
    ensures AllHexDigits(HexPadded(n, width))
    ensures HexValue(HexPadded(n, width)) == n
    decreases n, width
  {
    var s := HexPadded(n, width);
    if !(n < 16 && width <= 1) {
      var w := if width == 0 then 0 else width - 1;
      HexPaddedDigits(n / 16, w);
      assert s[..|s| - 1] == HexPadded(n / 16, w);
    }
  }

  /** A number below `16^width` takes exactly `width` digits. */
  lemma {:induction false} HexPaddedLength(n: nat, width: nat)
    requires width >= 1 && n < Pow16(width)
    ensures |HexPadded(n, width)| == width
    decreases width
  {
    if width > 1 {
      HexPaddedLength(n / 16, width - 1);
    }
  }

  /** Reading digits in two blocks: the first block counts `16^|b|` times. */
  lemma {:induction false} HexValueAppend(a: string, b: string)
    requires AllHexDigits(a) && AllHexDigits(b)
    ensures AllHexDigits(a + b)
    ensures HexValue(a + b) == HexValue(a) * Pow16(|b|) + HexValue(b)
    decreases |b|
  {
    if b == [] {
      assert a + b == a;
    } else {
      var b' := b[..|b| - 1];
      var d := HexDigitValue(b[|b| - 1]);
      HexValueAppend(a, b');
      assert (a + b)[..|a + b| - 1] == a + b';
      assert HexValue(a + b) == HexValue(a + b') * 16 + d;
      assert HexValue(b) == HexValue(b') * 16 + d;
      ShiftDigit(HexValue(a), Pow16(|b'|), HexValue(b'), d);
    }
  }

  lemma ShiftDigit(x: int, p: int, y: int, d: int)
    ensures (x * p + y) * 16 + d == x * (16 * p) + (y * 16 + d)
  {
  }

  /** The formatted colour is at least six characters long: a leading minus
      sign for a negative colour, hexadecimal digits everywhere else. */
  lemma FormatChars(c: int)
    ensures |Format06x(c)| >= 6
    ensures Format06x(c)[0] == '-' <==> c < 0
    ensures forall i :: 0 <= i < |Format06x(c)| && Format06x(c)[i] != '-' ==> IsHexDigit(Format06x(c)[i])
    ensures forall i :: 0 < i < |Format06x(c)| ==> IsHexDigit(Format06x(c)[i])
  {
    if c < 0 {
      var h := HexPadded(-c, 5);
      HexPaddedDigits(-c, 5);
      SignedDigits(h);
    } else {
      var h := HexPadded(c, 6);
      HexPaddedDigits(c, 6);
      assert IsHexDigit(h[0]);
    }
  }

  /** A minus sign in front of hexadecimal digits. */
  lemma SignedDigits(h: string)
    requires AllHexDigits(h)
    ensures var f := "-" + h;
      f[0] == '-' && forall i :: 0 < i < |f| ==> IsHexDigit(f[i])
  {
    var f := "-" + h;
    forall i | 0 < i < |f| ensures IsHexDigit(f[i]) {
      assert f[i] == h[i - 1];
    }
  }

  /* ---------------------------------------------------------------------- */
  /* hex_to_rgb                                                             */
  /* ---------------------------------------------------------------------- */

  /** `hex_to_rgb(c)`: the first three pairs of characters of `f"{c:06x}"`,
      each read in base 16. Defined for every integer. */
  function HexToRgb(c: int): Rgb {
    var f := Format06x(c);
    FormatChars(c);
    (ParseHexSlice(f[0..2]), ParseHexSlice(f[2..4]), ParseHexSlice(f[4..6]))
  }

  /** Two hexadecimal digits read by `int(_, 16)` give their value. */
  lemma PairValue(s: string)
    requires |s| == 2 && AllHexDigits(s)
    ensures HexSlice(s) && ParseHexSlice(s) == HexValue(s) && HexValue(s) < 256
  {
    assert s[..1][..0] == [];
    assert s[..2][..1] == s[..1];
    assert HexValue(s[..1]) == HexDigitValue(s[0]);
    assert s[..|s| - 1] == s[..1];
    assert HexValue(s) == HexDigitValue(s[0]) * 16 + HexDigitValue(s[1]);
  }

  /** Three bytes in base 256 determine the quotients and remainders. */
  lemma Bytes(c: int, r: int, g: int, b: int)
    requires 0 <= r && 0 <= g < 256 && 0 <= b < 256
    requires c == r * 65536 + g * 256 + b
    ensures c / 65536 == r && c / 256 % 256 == g && c % 256 == b
  {
    assert c / 256 == r * 256 + g;
  }

  /** The six digits of a colour in range, read as three pairs. */
  lemma SixDigits(c: int)
    requires 0 <= c <= 0xFFFFFF
    ensures var f := Format06x(c);
      |f| == 6 && AllHexDigits(f)
      && c == HexValue(f[0..2]) * 65536 + HexValue(f[2..4]) * 256 + HexValue(f[4..6])
  {
    HexPaddedDigits(c, 6);
    HexPaddedLength(c, 6);
    SixHex(Format06x(c));
  }

  /** Six digits read as a whole or as three pairs. */
  lemma SixHex(f: string)
    requires |f| == 6 && AllHexDigits(f)
    ensures HexValue(f) == HexValue(f[0..2]) * 65536 + HexValue(f[2..4]) * 256 + HexValue(f[4..6])
  {
    var a, b, c := f[0..2], f[2..4], f[4..6];
    assert f == (a + b) + c;
    assert Pow16(2) == 256;
    HexValueAppend(a, b);
    HexValueAppend(a + b, c);
    PairShift(HexValue(a), HexValue(b), HexValue(c));
  }

  lemma PairShift(x: int, y: int, z: int)
    ensures (x * 256 + y) * 256 + z == x * 65536 + y * 256 + z
  {
  }

  /** For a colour in 0x000000..0xFFFFFF the components are its three bytes,
      most significant first. */
  lemma HexToRgbBytes(c: int)
    requires 0 <= c <= 0xFFFFFF
    ensures HexToRgb(c) == (c / 65536, c / 256 % 256, c % 256)
  {
    var f := Format06x(c);
    SixDigits(c);
    PairValue(f[0..2]);
    PairValue(f[2..4]);
    PairValue(f[4..6]);
    Bytes(c, HexValue(f[0..2]), HexValue(f[2..4]), HexValue(f[4..6]));
  }

  /** The documented examples. */
  lemma HexToRgbExamples()
    ensures HexToRgb(0xFF0000) == (255, 0, 0)
    ensures HexToRgb(0x00FF00) == (0, 255, 0)
    ensures HexToRgb(0x0000FF) == (0, 0, 255)
  {
    HexToRgbBytes(0xFF0000);
    HexToRgbBytes(0x00FF00);
    HexToRgbBytes(0x0000FF);
  }

  /** Every component lies in 0..255 for a non-negative colour; a negative
      colour only makes the first one negative, and no lower than -15. */
  lemma HexToRgbBounds(c: int)
    ensures var (r, g, b) := HexToRgb(c);
      -15 <= r <= 255 && 0 <= g <= 255 && 0 <= b <= 255 && (c >= 0 ==> r >= 0)
  {
    var f := Format06x(c);
    FormatChars(c);
    if c >= 0 {
      assert IsHexDigit(f[0]);
      PairValue(f[0..2]);
    }
    PairValue(f[2..4]);
    PairValue(f[4..6]);
  }

  /** The colour the components stand for. */
  function RgbToHex(rgb: Rgb): int {
    rgb.0 * 65536 + rgb.1 * 256 + rgb.2
  }

  /** Splitting a colour into bytes and putting them back gives the colour. */
  lemma HexToRgbRoundTrip(c: int)
    requires 0 <= c <= 0xFFFFFF
    ensures RgbToHex(HexToRgb(c)) == c
  {
    HexToRgbBytes(c);
  }

  /** Any three bytes come back from the colour they make. */
  lemma RgbToHexRoundTrip(rgb: Rgb)
    requires 0 <= rgb.0 < 256 && 0 <= rgb.1 < 256 && 0 <= rgb.2 < 256
    ensures 0 <= RgbToHex(rgb) <= 0xFFFFFF
    ensures HexToRgb(RgbToHex(rgb)) == rgb
  {
    HexToRgbBytes(RgbToHex(rgb));
    Bytes(RgbToHex(rgb), rgb.0, rgb.1, rgb.2);
  }

  /* ---------------------------------------------------------------------- */
  /* colorize                                                               */
  /* ---------------------------------------------------------------------- */

  const Esc: char := 27 as char
  /** The start of a 24-bit foreground colour sequence. */
  const Open: string := [Esc] + "[38;2;"
  /** The reset sequence. */
  const Close: string := [Esc] + "[0m"

  /** The parameters `r;g;b` of a colour sequence. */
  function Params(rgb: Rgb): string {
    IntString(rgb.0) + ";" + IntString(rgb.1) + ";" + IntString(rgb.2)
  }

  /** `colorize(text, color=c)`. */
  function Colorize(text: string, color: int): string {
    Open + Params(HexToRgb(color)) + "m" + text + Close
  }

  /** Reads a coloured string back into its colour and its text, the way a
      terminal would parse the sequence; `None` when it is not one. */
  function Uncolorize(s: string): Option<(Rgb, string)> {
    if !(|s| >= |Open| + |Close| && StartsWith(s, Open) && EndsWith(s, Close)) then None
    else ParseBody(s[|Open|..|s| - |Close|])
  }

  /** What follows the opening escape: the parameters up to the first `m`,
      three integers separated by `;`, then the text. */
  function ParseBody(body: string): Option<(Rgb, string)> {
    var params := Split(body, 'm')[0];
    if |params| >= |body| then None
    else
      var fields := Split(params, ';');
      if |fields| != 3 then None
      else
        match (ParseInt(fields[0]), ParseInt(fields[1]), ParseInt(fields[2]))
        case (Some(r), Some(g), Some(b)) => Some(((r, g, b), body[|params| + 1..]))
        case _ => None
  }

  /** `str(n)` holds digits and perhaps a leading minus sign only, and
      `int()` reads it back. */
  lemma IntStringChars(n: int)
    ensures ';' !in IntString(n) && 'm' !in IntString(n)
    ensures ParseInt(IntString(n)) == Some(n)
  {
    IntStringDigits(n);
    ParseIntString(n, "", "");
    assert "" + IntString(n) + "" == IntString(n);
  }

  lemma IntStringDigits(n: int)
    ensures forall i :: 0 <= i < |IntString(n)| ==> IsDigit(IntString(n)[i]) || IntString(n)[i] == '-'
  {
    var m: nat := if n < 0 then -n else n;
    NatStringDigits(m);
    if n < 0 {
      var s := IntString(n);
      assert forall i :: 1 <= i < |s| ==> s[i] == NatString(m)[i - 1];
    }
  }

  lemma ParamsFields(rgb: Rgb)
    ensures 'm' !in Params(rgb)
    ensures Split(Params(rgb), ';') == [IntString(rgb.0), IntString(rgb.1), IntString(rgb.2)]
  {
    var (r, g, b) := rgb;
    IntStringChars(r);
    IntStringChars(g);
    IntStringChars(b);
    SplitAppend(IntString(r) + ";" + IntString(g), IntString(b), ';');
    SplitAppend(IntString(r), IntString(g), ';');
    SplitSingle(IntString(r), ';');
  }

  /** Decoding a coloured string gives back the colour's components and the
      text, unchanged, whatever characters the text holds. */
  lemma UncolorizeColorize(text: string, color: int)
    ensures Uncolorize(Colorize(text, color)) == Some((HexToRgb(color), text))
  {
    UncolorizeParams(HexToRgb(color), text);
  }

  lemma UncolorizeParams(rgb: Rgb, text: string)
    ensures Uncolorize(Open + Params(rgb) + "m" + text + Close) == Some((rgb, text))
  {
    var body := Params(rgb) + "m" + text;
    assert Open + Params(rgb) + "m" + text + Close == Open + body + Close;
    Unframe(body);
    ParseParams(rgb, text);
  }

  /** The escape sequences around a body are recognised and removed. */
  lemma Unframe(body: string)
    ensures Uncolorize(Open + body + Close) == ParseBody(body)
  {
    var s := Open + body + Close;
    assert s[..|Open|] == Open;
    assert s[|s| - |Close|..] == Close;
    assert s[|Open|..|s| - |Close|] == body;
  }

  /** The parameters of a colour, then `m`, then any text, read back. */
  lemma ParseParams(rgb: Rgb, text: string)
    ensures ParseBody(Params(rgb) + "m" + text) == Some((rgb, text))
  {
    var p := Params(rgb);
    var body := p + "m" + text;
    ParamsFields(rgb);
    SplitFirstOf(p, 'm', text);
    assert p + "m" + text == p + ['m'] + text;
    assert body[|p| + 1..] == text;
    IntStringChars(rgb.0);
    IntStringChars(rgb.1);
    IntStringChars(rgb.2);
  }

  /** Equal coloured strings come from the same text and, for colours in
      range, from the same colour. */
  lemma ColorizeInjective(t1: string, c1: int, t2: string, c2: int)
    requires 0 <= c1 <= 0xFFFFFF && 0 <= c2 <= 0xFFFFFF
    requires Colorize(t1, c1) == Colorize(t2, c2)
    ensures t1 == t2 && c1 == c2
  {
    UncolorizeColorize(t1, c1);
    UncolorizeColorize(t2, c2);
    HexToRgbRoundTrip(c1);
    HexToRgbRoundTrip(c2);
  }

  /* ---------------------------------------------------------------------- */
  /* log_colorize                                                           */
  /* ---------------------------------------------------------------------- */

  /** The coloured message at the end of a log line: an input prompt (prefix
      `<`) gets " -> " after it, every other prefix leaves it as it is. */
  function Payload(text: string, prefix: string): (p: string)
    ensures p == text + " -> " <==> prefix == "<"
    ensures p == text <==> prefix != "<"
  {
    if prefix == "<" then text + " -> " else text
  }

  /** `log_colorize(text, color=color, prefix=prefix)` with the clock's
      `%H:%M:%S` reading given as `time`. */
  function LogColorize(text: string, color: int, prefix: string, time: string): string {
    Colorize("[", color) + time + Colorize("]", color) + " "
    + Colorize("[", color) + prefix + Colorize("]", color) + " "
    + Colorize(Payload(text, prefix), color)
  }

  /** The layout of a log line, for any pieces: where each one sits. */
  lemma LineLayout(lb: string, time: string, rb: string, prefix: string, msg: string)
    ensures var line := lb + time + rb + " " + lb + prefix + rb + " " + msg;
      var t0 := |lb|;
      var p0 := t0 + |time| + |rb| + 1 + |lb|;
      var m0 := p0 + |prefix| + |rb| + 1;
      && m0 <= |line|
      && line[..t0] == lb
      && line[t0..t0 + |time|] == time
      && line[t0 + |time|..t0 + |time| + |rb|] == rb
      && line[p0 - |lb|..p0] == lb
      && line[p0..p0 + |prefix|] == prefix
      && line[p0 + |prefix|..p0 + |prefix| + |rb|] == rb
      && line[m0..] == msg
  {
  }

  /** Where the fields of a log line sit: the time and then the prefix, each
      between a coloured `[` and a coloured `]`, and last, after a space, a
      colour sequence that decodes to the message, which is the text with
      " -> " after it exactly for the `<` prefix. */
  lemma LogColorizeFields(text: string, color: int, prefix: string, time: string)
    ensures var line := LogColorize(text, color, prefix, time);
      var lb, rb := Colorize("[", color), Colorize("]", color);
      var t0 := |lb|;
      var p0 := t0 + |time| + |rb| + 1 + |lb|;
      var m0 := p0 + |prefix| + |rb| + 1;
      && m0 <= |line|
      && line[..t0] == lb
      && line[t0..t0 + |time|] == time
      && line[t0 + |time|..t0 + |time| + |rb|] == rb
      && line[p0 - |lb|..p0] == lb
      && line[p0..p0 + |prefix|] == prefix
      && line[p0 + |prefix|..p0 + |prefix| + |rb|] == rb
      && Uncolorize(line[m0..]) == Some((HexToRgb(color), Payload(text, prefix)))
  {
    LineLayout(Colorize("[", color), time, Colorize("]", color), prefix, Colorize(Payload(text, prefix), color));
    UncolorizeColorize(Payload(text, prefix), color);
  }
}
