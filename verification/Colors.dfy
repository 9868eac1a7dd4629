/** Theme colours: hex text, luminance, contrast, and the safe foreground. */
module Colors {
  import opened Prelude
  import opened Rounding
  import opened Curve

  datatype Rgb = Rgb(r: int, g: int, b: int)

  predicate IsRgb(c: Rgb) { IsByte(c.r) && IsByte(c.g) && IsByte(c.b) }

  // ---- Hex text ----

  predicate IsHexDigit(c: char) { '0' <= c <= '9' || 'a' <= c <= 'f' || 'A' <= c <= 'F' }

  function HexValue(c: char): (v: nat)
    requires IsHexDigit(c)
    ensures v < 16
  {
    if c <= '9' then (c - '0') as nat else if c <= 'F' then (c - 'A') as nat + 10 else (c - 'a') as nat + 10
  }

  function HexChar(v: nat): (c: char)
    requires v < 16
    ensures IsHexDigit(c) && HexValue(c) == v
  {
    if v < 10 then '0' + v as char else 'A' + (v - 10) as char
  }

  function DropHashes(s: string): string {
    if s != "" && s[0] == '#' then DropHashes(s[1..]) else s
  }

  // s[from:from+2], which may be shorter at the end of the text.
  function Pair(s: string, from: nat): string {
    if |s| <= from then "" else if |s| == from + 1 then s[from..] else s[from..from + 2]
  }

  function ParsePair(s: string): (v: Option<int>)
    requires |s| <= 2
    ensures v.Some? ==> IsByte(v.value)
  {
    if s == "" || exists i :: 0 <= i < |s| && !IsHexDigit(s[i]) then None
    else if |s| == 1 then Some(HexValue(s[0]))
    else Some(16 * HexValue(s[0]) + HexValue(s[1]))
  }

  function HexToRgb(hex: string): (c: Option<Rgb>)
    ensures c.Some? ==> IsRgb(c.value)
  {
    var digits := DropHashes(hex);
    var r, g, b := ParsePair(Pair(digits, 0)), ParsePair(Pair(digits, 2)), ParsePair(Pair(digits, 4));
    if r.Some? && g.Some? && b.Some? then Some(Rgb(r.value, g.value, b.value)) else None
  }

  function Clamp(c: real): (n: int)
    ensures IsByte(n)
  {
    if Round(c) < 0 then 0 else if Round(c) > 255 then 255 else Round(c)
  }

  function PrintByte(n: int): string
    requires IsByte(n)
  {
    [HexChar(n / 16), HexChar(n % 16)]
  }

  function PrintRgb(c: Rgb): string
    requires IsRgb(c)
  {
    "#" + PrintByte(c.r) + PrintByte(c.g) + PrintByte(c.b)
  }

  function RgbToHex(r: real, g: real, b: real): string {
    PrintRgb(Rgb(Clamp(r), Clamp(g), Clamp(b)))
  }

  /** Printed colours read back as themselves. */
  lemma HexRoundTrip(c: Rgb)
    requires IsRgb(c)
    ensures HexToRgb(PrintRgb(c)) == Some(c)
  {
    var s := PrintRgb(c);
    var digits := PrintByte(c.r) + PrintByte(c.g) + PrintByte(c.b);
    assert s[1..] == digits && digits[0] != '#';
    assert DropHashes(s) == digits;
    assert Pair(digits, 0) == PrintByte(c.r) && Pair(digits, 2) == PrintByte(c.g) && Pair(digits, 4) == PrintByte(c.b);
    ParsePrinted(c.r);
    ParsePrinted(c.g);
    ParsePrinted(c.b);
  }

  lemma ParsePrinted(n: int)
    requires IsByte(n)
    ensures ParsePair(PrintByte(n)) == Some(n)
  {
    assert n == 16 * (n / 16) + n % 16;
  }

  // ---- Luminance and contrast, over any accurate curve ----

  function Luminance(f: Curve, c: Rgb): real {
    0.2126 * f(c.r) + 0.7152 * f(c.g) + 0.0722 * f(c.b)
  }

  /** The weights of WCAG 2.1: one full channel alone has its own weight, each
      channel counts in proportion, and colours add up channel by channel. */
  lemma LuminanceWeights(f: Curve, c: Rgb)
    requires IsRgb(c)
    ensures Luminance(f, Rgb(255, 0, 0)) == 0.2126
    ensures Luminance(f, Rgb(0, 255, 0)) == 0.7152
    ensures Luminance(f, Rgb(0, 0, 255)) == 0.0722
    ensures Luminance(f, Rgb(c.r, 0, 0)) == 0.2126 * f(c.r)
    ensures Luminance(f, Rgb(0, c.g, 0)) == 0.7152 * f(c.g)
    ensures Luminance(f, Rgb(0, 0, c.b)) == 0.0722 * f(c.b)
    ensures Luminance(f, c) == Luminance(f, Rgb(c.r, 0, 0)) + Luminance(f, Rgb(0, c.g, 0)) + Luminance(f, Rgb(0, 0, c.b))
  {
    CurveRange(f, 0);
  }

  function Ratio(a: real, b: real): real
    requires a >= 0.0 && b >= 0.0
  {
    var lighter, darker := if a >= b then a else b, if a >= b then b else a;
    (lighter + 0.05) / (darker + 0.05)
  }

  const WHITE := "#FFFFFF"
  const BLACK := "#000000"

  // Text that does not parse gets white.
  function ForegroundFor(f: Curve, background: string): string {
    var c := HexToRgb(background);
    if c.None? then WHITE else if Luminance(f, c.value) < 0.179 then WHITE else BLACK
  }

  function Unit(ratio: real): real {
    if ratio < 0.0 then 0.0 else if ratio > 1.0 then 1.0 else ratio
  }

  function Weighted(a: int, b: int, ratio: real): real {
    a as real * Unit(ratio) + b as real * (1.0 - Unit(ratio))
  }

  function MixByte(a: int, b: int, ratio: real): (n: int)
    ensures IsByte(n)
  {
    Clamp(Weighted(a, b, ratio))
  }

  function Mix(a: Rgb, b: Rgb, ratio: real): (m: Rgb)
    ensures IsRgb(m)
  {
    Rgb(MixByte(a.r, b.r, ratio), MixByte(a.g, b.g, ratio), MixByte(a.b, b.b, ratio))
  }

  function MixHex(a: string, b: string, ratio: real): Option<string> {
    if HexToRgb(a).None? || HexToRgb(b).None? then None
    else
      var c, d := HexToRgb(a).value, HexToRgb(b).value;
      Some(RgbToHex(Weighted(c.r, d.r, ratio), Weighted(c.g, d.g, ratio), Weighted(c.b, d.b, ratio)))
  }

  function DarkenHex(color: string, amount: real): Option<string> {
    MixHex(BLACK, color, amount)
  }

  lemma LuminanceRange(f: Curve, c: Rgb)
    requires IsRgb(c)
    ensures 0.0 <= Luminance(f, c) <= 1.0
  {
    CurveRange(f, c.r);
    CurveRange(f, c.g);
    CurveRange(f, c.b);
  }

  predicate NoBrighter(c: Rgb, d: Rgb) {
    c.r <= d.r && c.g <= d.g && c.b <= d.b
  }

  lemma LuminanceIsMonotone(f: Curve, c: Rgb, d: Rgb)
    requires IsRgb(c) && IsRgb(d) && NoBrighter(c, d)
    ensures Luminance(f, c) <= Luminance(f, d)
    ensures c != d ==> Luminance(f, c) < Luminance(f, d)
  {
    if c.r < d.r { CurveRises(f, c.r, d.r); }
    if c.g < d.g { CurveRises(f, c.g, d.g); }
    if c.b < d.b { CurveRises(f, c.b, d.b); }
  }

  lemma DivideBounds(x: real, y: real, k: real)
    requires y > 0.0
    ensures x >= k * y ==> x / y >= k
    ensures x <= k * y ==> x / y <= k
  {
    var q := x / y;
    assert q * y == x;
    if q < k { assert (k - q) * y > 0.0; }
    if q > k { assert (q - k) * y > 0.0; }
  }

  lemma RatioRange(p: real, q: real)
    requires 0.0 <= p <= 1.0 && 0.0 <= q <= 1.0
    ensures 1.0 <= Ratio(p, q) <= 21.0 && Ratio(p, q) == Ratio(q, p)
  {
    var lighter, darker := if p >= q then p else q, if p >= q then q else p;
    DivideBounds(lighter + 0.05, darker + 0.05, 1.0);
    DivideBounds(lighter + 0.05, darker + 0.05, 21.0);
  }

  /** Contrast is symmetric and lies between 1 and 21. */
  lemma ContrastRange(f: Curve, a: Rgb, b: Rgb)
    requires IsRgb(a) && IsRgb(b)
    ensures var p, q := Luminance(f, a), Luminance(f, b);
            p >= 0.0 && q >= 0.0 && 1.0 <= Ratio(p, q) <= 21.0 && Ratio(p, q) == Ratio(q, p)
  {
    LuminanceRange(f, a);
    LuminanceRange(f, b);
    RatioRange(Luminance(f, a), Luminance(f, b));
  }

  lemma PrintedGrey(v: int, digits: string, text: string)
    requires IsByte(v) && PrintByte(v) == digits && text == "#" + digits + digits + digits
    ensures HexToRgb(text) == Some(Rgb(v, v, v))
  {
    HexRoundTrip(Rgb(v, v, v));
    assert PrintRgb(Rgb(v, v, v)) == text;
  }

  lemma WhiteAndBlackText()
    ensures HexToRgb(WHITE) == Some(Rgb(255, 255, 255)) && HexToRgb(BLACK) == Some(Rgb(0, 0, 0))
  {
    PrintedGrey(255, "FF", WHITE);
    PrintedGrey(0, "00", BLACK);
  }

  lemma WhiteAndBlackLuminance(f: Curve)
    ensures Luminance(f, Rgb(255, 255, 255)) == 1.0 && Luminance(f, Rgb(0, 0, 0)) == 0.0
  {
    CurveRange(f, 0);
  }

  lemma WhiteReads(l: real)
    requires 0.0 <= l < 0.179
    ensures Ratio(1.0, l) >= 4.5
  {
    DivideBounds(1.05, l + 0.05, 4.5);
  }

  lemma BlackReads(l: real)
    requires 0.179 <= l
    ensures Ratio(0.0, l) >= 4.5
  {
    DivideBounds(l + 0.05, 0.05, 4.5);
  }

  ghost predicate MeetsAA(f: Curve, foreground: string, background: string) {
    var a, b := HexToRgb(foreground), HexToRgb(background);
    && a.Some? && b.Some?
    && var (x, y) := (a.value, b.value);
       var p := 0.2126 * f(x.r) + 0.7152 * f(x.g) + 0.0722 * f(x.b) + 0.05;
       var q := 0.2126 * f(y.r) + 0.7152 * f(y.g) + 0.0722 * f(y.b) + 0.05;
       p > 0.0 && q > 0.0 && (p / q >= 4.5 || q / p >= 4.5)
  }

  lemma AAOfRatio(f: Curve, foreground: string, background: string)
    requires HexToRgb(foreground).Some? && HexToRgb(background).Some?
    requires var p, q := Luminance(f, HexToRgb(foreground).value), Luminance(f, HexToRgb(background).value);
             p >= 0.0 && q >= 0.0 && Ratio(p, q) >= 4.5
    ensures MeetsAA(f, foreground, background)
  {}

  /** Which text colour is chosen, said on the weighted sum itself: black from
      0.179 on, white below and on what is no colour. */
  lemma ForegroundIs(f: Curve, background: string)
    ensures var c := HexToRgb(background);
            ForegroundFor(f, background) ==
              if c.Some? && 0.2126 * f(c.value.r) + 0.7152 * f(c.value.g) + 0.0722 * f(c.value.b) >= 0.179
              then "#000000" else "#FFFFFF"
    ensures ForegroundFor(f, "#FF0000") == "#000000"
    ensures ForegroundFor(f, "#0000FF") == "#FFFFFF"
  {
    CurveRange(f, 0);
    PrintedPure();
  }

  lemma PrintedPure()
    ensures HexToRgb("#FF0000") == Some(Rgb(255, 0, 0)) && HexToRgb("#0000FF") == Some(Rgb(0, 0, 255))
  {
    HexRoundTrip(Rgb(255, 0, 0));
    HexRoundTrip(Rgb(0, 0, 255));
    assert PrintByte(255) == "FF" && PrintByte(0) == "00";
    assert PrintRgb(Rgb(255, 0, 0)) == "#FF0000" && PrintRgb(Rgb(0, 0, 255)) == "#0000FF";
  }

  /** White reads on every background of luminance below 0.179, black on every
      other: success criterion 1.4.3 of WCAG 2.1 for every colour. */
  lemma ForegroundMeetsAA(f: Curve, background: string)
    requires HexToRgb(background).Some?
    ensures MeetsAA(f, ForegroundFor(f, background), background)
  {
    var c := HexToRgb(background).value;
    WhiteAndBlackText();
    WhiteAndBlackLuminance(f);
    LuminanceRange(f, c);
    if Luminance(f, c) < 0.179 {
      WhiteReads(Luminance(f, c));
    } else {
      BlackReads(Luminance(f, c));
    }
    AAOfRatio(f, ForegroundFor(f, background), background);
  }

  lemma ProductIsPositive(x: real, y: real)
    requires x >= 0.0 && y >= 0.0
    ensures x * y >= 0.0
  {}

  lemma Convex(a: real, b: real, share: real, low: real, high: real)
    requires low <= a <= high && low <= b <= high && 0.0 <= share <= 1.0
    ensures low <= a * share + b * (1.0 - share) <= high
  {
    ProductIsPositive(a - low, share);
    ProductIsPositive(b - low, 1.0 - share);
    ProductIsPositive(high - a, share);
    ProductIsPositive(high - b, 1.0 - share);
    assert (a - low) * share + (b - low) * (1.0 - share) == a * share + b * (1.0 - share) - low;
    assert (high - a) * share + (high - b) * (1.0 - share) == high - (a * share + b * (1.0 - share));
  }

  predicate Between(m: int, a: int, b: int) {
    a <= m <= b || b <= m <= a
  }

  lemma MixedByte(a: int, b: int, ratio: real)
    requires IsByte(a) && IsByte(b)
    ensures Between(MixByte(a, b, ratio), a, b)
  {
    var low, high := if a <= b then a else b, if a <= b then b else a;
    Convex(a as real, b as real, Unit(ratio), low as real, high as real);
    RoundBetween(Weighted(a, b, ratio), low, high);
  }

  lemma UnmixedByte(a: int, b: int, ratio: real)
    requires IsByte(a) && IsByte(b)
    ensures ratio >= 1.0 ==> MixByte(a, b, ratio) == a
    ensures ratio <= 0.0 ==> MixByte(a, b, ratio) == b
  {
    assert ratio >= 1.0 ==> Weighted(a, b, ratio) == a as real;
    assert ratio <= 0.0 ==> Weighted(a, b, ratio) == b as real;
    RoundOfInt(a);
    RoundOfInt(b);
  }

  /** A mixed channel lies between the two it was mixed from, whatever the ratio;
      the extreme ratios give one colour or the other. */
  lemma MixLiesBetween(a: Rgb, b: Rgb, ratio: real)
    requires IsRgb(a) && IsRgb(b)
    ensures var m := Mix(a, b, ratio);
            Between(m.r, a.r, b.r) && Between(m.g, a.g, b.g) && Between(m.b, a.b, b.b)
    ensures ratio >= 1.0 ==> Mix(a, b, ratio) == a
    ensures ratio <= 0.0 ==> Mix(a, b, ratio) == b
  {
    MixedByte(a.r, b.r, ratio);
    MixedByte(a.g, b.g, ratio);
    MixedByte(a.b, b.b, ratio);
    UnmixedByte(a.r, b.r, ratio);
    UnmixedByte(a.g, b.g, ratio);
    UnmixedByte(a.b, b.b, ratio);
  }

  lemma WeightedIs(a: int, b: int, ratio: real)
    requires IsByte(a) && IsByte(b) && 0.0 <= ratio <= 1.0
    ensures Weighted(a, b, ratio) == a as real * ratio + b as real * (1.0 - ratio)
    ensures var low, high := if a <= b then a else b, if a <= b then b else a;
            low as real <= Weighted(a, b, ratio) <= high as real
  {
    assert Unit(ratio) == ratio;
    Convex(a as real, b as real, ratio, (if a <= b then a else b) as real, (if a <= b then b else a) as real);
  }

  lemma MixedByteIsNearest(a: int, b: int, ratio: real, mean: real)
    requires IsByte(a) && IsByte(b) && mean == Weighted(a, b, ratio)
    requires var low, high := if a <= b then a else b, if a <= b then b else a;
             low as real <= mean <= high as real
    ensures IsNearest(MixByte(a, b, ratio), mean)
  {
    ClampIsNearest(mean, if a <= b then a else b, if a <= b then b else a);
  }

  predicate IsNearest(n: int, x: real) { -0.5 <= x - n as real <= 0.5 }

  /** A mixed channel is the nearest byte to the weighted mean of the two. */
  lemma MixedByteIsMean(a: int, b: int, ratio: real)
    requires IsByte(a) && IsByte(b) && 0.0 <= ratio <= 1.0
    ensures IsNearest(MixByte(a, b, ratio), a as real * ratio + b as real * (1.0 - ratio))
  {
    WeightedIs(a, b, ratio);
    MixedByteIsNearest(a, b, ratio, Weighted(a, b, ratio));
  }

  lemma ClampIsNearest(x: real, low: int, high: int)
    requires IsByte(low) && IsByte(high) && low as real <= x <= high as real
    ensures IsNearest(Clamp(x), x)
  {
    RoundBetween(x, low, high);
  }

  // Values outside the range of a byte are cut to it.
  lemma ClampCuts(x: real)
    ensures x <= 0.0 ==> Clamp(x) == 0
    ensures x >= 255.0 ==> Clamp(x) == 255
    ensures 0.0 <= x <= 255.0 ==> IsNearest(Clamp(x), x)
  {
    if 0.0 <= x <= 255.0 { RoundBetween(x, 0, 255); }
  }

  // A text with five digits has a last channel of one digit; with fewer, or with
  // anything else among the first six characters, it is no colour.
  lemma ShortTexts()
    ensures HexToRgb("#12345") == Some(Rgb(0x12, 0x34, 5)) && HexToRgb("12345") == HexToRgb("#12345")
    ensures HexToRgb("#1234") == None && HexToRgb("") == None && HexToRgb("#12345g") == None
  {
    assert DropHashes("12345") == "12345" && DropHashes("#12345") == "12345";
    assert DropHashes("#1234") == "1234" && DropHashes("#12345g") == "12345g";
    assert Pair("12345", 0) == "12" && Pair("12345", 2) == "34" && Pair("12345", 4) == "5";
    assert Pair("12345g", 4) == "5g" && "5g"[1] == 'g';
  }

  /** The mixed and the darkened colour, as text: each channel printed in its own
      place; darkening is mixing with black, which weighs in with the amount. */
  lemma MixedText(a: Rgb, b: Rgb, ratio: real)
    requires IsRgb(a) && IsRgb(b)
    ensures MixHex(PrintRgb(a), PrintRgb(b), ratio) == Some(PrintRgb(Mix(a, b, ratio)))
    ensures var m := Mix(a, b, ratio);
            m.r == MixByte(a.r, b.r, ratio) && m.g == MixByte(a.g, b.g, ratio) && m.b == MixByte(a.b, b.b, ratio)
    ensures DarkenHex(PrintRgb(b), ratio) == MixHex("#000000", PrintRgb(b), ratio)
  {
    HexRoundTrip(a);
    HexRoundTrip(b);
  }

  // ---- Letters of either case ----

  function UpperHex(s: string): string {
    seq(|s|, i requires 0 <= i < |s| => if 'a' <= s[i] <= 'f' then 'A' + (s[i] - 'a') else s[i])
  }

  lemma {:induction false} UpperHashes(s: string)
    ensures DropHashes(UpperHex(s)) == UpperHex(DropHashes(s))
  {
    if s != "" && s[0] == '#' {
      assert UpperHex(s)[1..] == UpperHex(s[1..]);
      UpperHashes(s[1..]);
    }
  }

  lemma UpperPair(s: string, from: nat)
    ensures ParsePair(Pair(UpperHex(s), from)) == ParsePair(Pair(s, from))
  {
    var p, q := Pair(s, from), Pair(UpperHex(s), from);
    assert q == UpperHex(p);
    forall i | 0 <= i < |p|
      ensures IsHexDigit(q[i]) <==> IsHexDigit(p[i])
      ensures IsHexDigit(p[i]) ==> HexValue(q[i]) == HexValue(p[i])
    {}
  }

  /** Lower-case hexadecimal digits are read as upper-case ones. */
  lemma CaseIsIgnored(s: string)
    ensures HexToRgb(UpperHex(s)) == HexToRgb(s)
  {
    UpperHashes(s);
    UpperPair(DropHashes(s), 0);
    UpperPair(DropHashes(s), 2);
    UpperPair(DropHashes(s), 4);
  }

  // The sixteen digits have their own values.
  lemma HexDigitValues(v: nat)
    requires v < 16
    ensures HexValue("0123456789ABCDEF"[v]) == v && HexValue("0123456789abcdef"[v]) == v && HexChar(v) == "0123456789ABCDEF"[v]
  {}

  /** Darkening never brightens, so a button that carries white text may be
      darkened by any amount: white is still chosen, and still reads. */
  lemma WhiteReadsOnDarkened(f: Curve, background: string, amount: real)
    requires HexToRgb(background).Some?
    ensures DarkenHex(background, amount).Some?
    ensures var darker := DarkenHex(background, amount).value;
            && HexToRgb(darker).Some?
            && NoBrighter(HexToRgb(darker).value, HexToRgb(background).value)
            && (ForegroundFor(f, background) == WHITE ==> ForegroundFor(f, darker) == WHITE && MeetsAA(f, WHITE, darker))
  {
    WhiteAndBlackText();
    var c := HexToRgb(background).value;
    var m := Mix(Rgb(0, 0, 0), c, amount);
    MixLiesBetween(Rgb(0, 0, 0), c, amount);
    HexRoundTrip(m);
    var darker := PrintRgb(m);
    assert DarkenHex(background, amount) == Some(darker);
    LuminanceIsMonotone(f, m, c);
    ForegroundMeetsAA(f, darker);
  }
}
