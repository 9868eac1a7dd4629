/** Amounts shown to shoppers: thousands grouped, in Persian digits. */
module Toman {
  import opened Prelude
  import opened Decimal
  import opened Normalization
  import opened Rounding

  const SEPARATOR: char := '٬'
  const UNIT := " تومان"

  function FaTable(c: char): string {
    if IsDigit(c) then ['۰' + (c - '0')]
    else if IsArabicDigit(c) then ['۰' + (c - '٠')]
    else [c]
  }

  // ---- Digits of any script ----

  /** What isdigit() and int() make of one character: some characters, such as
      superscripts, pass the first and fail the second. */
  datatype Reading = NotDigit | Digit(value: nat) | Unreadable
  datatype DigitError = ValueError

  predicate IsKnownDigit(c: char) { IsDigit(c) || IsPersianDigit(c) || IsArabicDigit(c) }

  // The three scripts are read as expected, and nothing else that is ASCII.
  ghost predicate IsReading(read: char -> Reading) {
    && (forall c :: IsKnownDigit(c) ==> read(c) == Digit(DigitValue(FoldDigit(c))))
    && (forall c :: read(c).Digit? ==> read(c).value < 10)
    && (forall c :: c == SEPARATOR || (c < 128 as char && !IsDigit(c)) ==> read(c) == NotDigit)
  }

  function KnownOnly(c: char): Reading {
    if IsKnownDigit(c) then Digit(DigitValue(FoldDigit(c))) else NotDigit
  }

  type Digits = read: char -> Reading | IsReading(read) witness KnownOnly

  function FaChar(read: Digits): char -> string {
    (c: char) => match read(c)
      case Digit(v) => ['۰' + v as char]
      case _ => [c]
  }

  function ToFaDigits(read: Digits, value: Option<string>): Result<string, DigitError> {
    if value.None? then Ok("")
    else if exists c :: c in value.value && read(c).Unreadable? then Err(ValueError)
    else Ok(Flat(FaChar(read), value.value))
  }

  // ---- Amounts ----

  // The format code "," for digits: groups of three, counted from the right.
  function Group(digits: string): string {
    if |digits| <= 3 then digits
    else Group(digits[..|digits| - 3]) + "," + digits[|digits| - 3..]
  }

  function IntText(n: int): string {
    if n < 0 then "-" + Text(-n) else Text(n)
  }

  function Grouped(n: int): string {
    if n < 0 then "-" + Group(Text(-n)) else Group(Text(n))
  }

  function CommaTable(c: char): string {
    if c == ',' then [SEPARATOR] else [c]
  }

  datatype Amount = Absent | Whole(n: int) | NotANumber(text: string)

  function FormatToman(read: Digits, value: Amount, withUnit: bool): Result<string, DigitError> {
    match value
    case Absent => Ok("")
    case NotANumber(text) => ToFaDigits(read, Some(text))
    case Whole(n) => // through float, so not every large amount survives
      match ToFaDigits(read, Some(Flat(CommaTable, Grouped(ToDouble(n)))))
      case Ok(formatted) => Ok(if withUnit then formatted + UNIT else formatted)
      case Err(e) => Err(e)
  }

  // ---- Grouping follows PEP 378 ----

  lemma {:induction false} GroupLength(digits: string)
    requires digits != ""
    ensures |Group(digits)| == |digits| + (|digits| - 1) / 3
    decreases |digits|
  {
    if |digits| > 3 {
      GroupLength(digits[..|digits| - 3]);
    }
  }

  lemma FromTheRight(head: string, tail: string, k: nat)
    requires |tail| == 3 && k < |head| + 4
    ensures var all := head + "," + tail;
            all[|all| - 1 - k] == if k < 3 then tail[2 - k] else if k == 3 then ',' else head[|head| - 1 - (k - 4)]
  {}

  lemma FourPlaces(k: nat)
    ensures if k < 4 then k / 4 == 0 && k % 4 == k else (k - 4) % 4 == k % 4 && (k - 4) / 4 == k / 4 - 1
  {}

  /** Counted from the right, every fourth character is a comma, and the others
      are the digits in order. */
  lemma {:induction false} GroupingIsByThousands(digits: string, k: nat)
    requires digits != "" && k < |Group(digits)|
    ensures |Group(digits)| == |digits| + (|digits| - 1) / 3
    ensures k - k / 4 < |digits|
    ensures Group(digits)[|Group(digits)| - 1 - k] == if k % 4 == 3 then ',' else digits[|digits| - 1 - (k - k / 4)]
    decreases |digits|
  {
    GroupLength(digits);
    FourPlaces(k);
    if |digits| > 3 {
      var head, tail := digits[..|digits| - 3], digits[|digits| - 3..];
      FromTheRight(Group(head), tail, k);
      if k >= 4 {
        GroupingIsByThousands(head, k - 4);
        var place := |digits| - 1 - (k - k / 4);
        assert |head| - 1 - (k - 4 - (k - 4) / 4) == place;
        assert k % 4 != 3 ==> head[place] == digits[place];
      }
    }
  }

  // ---- Reading the amount back ----

  function DropTable(c: char): string {
    if c == SEPARATOR then "" else [c]
  }

  // Drop the separators and bring the digits back to ASCII.
  function Undo(shown: string): string {
    NormalizeDigits(Some(Flat(DropTable, shown)))
  }

  function Show(s: string): string {
    Flat(FaTable, Flat(CommaTable, s))
  }

  lemma UndoShowConcat(a: string, b: string)
    ensures Undo(Show(a + b)) == Undo(Show(a)) + Undo(Show(b))
  {
    FlatConcat(CommaTable, a, b);
    FlatConcat(FaTable, Flat(CommaTable, a), Flat(CommaTable, b));
    FlatConcat(DropTable, Show(a), Show(b));
    FlatConcat(DigitTable, Flat(DropTable, Show(a)), Flat(DropTable, Show(b)));
  }

  lemma UndoShowChar(c: char)
    requires IsDigit(c) || c == '-' || c == ','
    ensures Undo(Show([c])) == if c == ',' then "" else [c]
  {
    var comma := if c == ',' then SEPARATOR else c;
    var shown := if IsDigit(c) then '۰' + (c - '0') else comma;
    FlatOne(CommaTable, c);
    FlatOne(FaTable, comma);
    FlatOne(DropTable, shown);
    FlatOne(DigitTable, shown);
    assert c != ',' ==> FoldDigit(shown) == c;
  }

  lemma {:induction false} UndoShowDigits(digits: string)
    requires AllDigits(digits)
    ensures Undo(Show(digits)) == digits
  {
    if digits != "" {
      assert digits == [digits[0]] + digits[1..];
      UndoShowConcat([digits[0]], digits[1..]);
      UndoShowChar(digits[0]);
      UndoShowDigits(digits[1..]);
    }
  }

  lemma UndoShowSeparated(left: string, right: string)
    ensures Undo(Show(left + "," + right)) == Undo(Show(left)) + Undo(Show(right))
  {
    UndoShowChar(',');
    UndoShowConcat(left + ",", right);
    UndoShowConcat(left, ",");
    assert Undo(Show(left)) + "" == Undo(Show(left));
  }

  lemma {:induction false} UndoShowGroup(digits: string)
    requires AllDigits(digits)
    ensures Undo(Show(Group(digits))) == digits
    decreases |digits|
  {
    if |digits| <= 3 {
      UndoShowDigits(digits);
    } else {
      var head, tail := digits[..|digits| - 3], digits[|digits| - 3..];
      UndoShowGroup(head);
      UndoShowDigits(tail);
      UndoShowSeparated(Group(head), tail);
      assert digits == head + tail;
    }
  }

  lemma UndoShowInt(n: int)
    ensures Undo(Show(Grouped(n))) == IntText(n)
  {
    if n < 0 {
      UndoShowConcat("-", Group(Text(-n)));
      UndoShowChar('-');
      UndoShowGroup(Text(-n));
    } else {
      UndoShowGroup(Text(n));
    }
  }

  lemma IntTextIsInjective(m: int, n: int)
    requires IntText(m) == IntText(n)
    ensures m == n
  {
    ValueOfText(if m < 0 then -m else m);
    ValueOfText(if n < 0 then -n else n);
    assert m < 0 <==> IntText(m)[0] == '-';
    assert n < 0 <==> IntText(n)[0] == '-';
    assert m < 0 ==> IntText(m)[1..] == Text(-m);
    assert n < 0 ==> IntText(n)[1..] == Text(-n);
  }

  // The characters of a grouped amount mean the same to every table.
  predicate IsPlain(s: string) {
    forall c :: c in s ==> IsDigit(c) || c in {'-', ',', SEPARATOR}
  }

  lemma {:induction false} GroupIsPlain(digits: string)
    requires AllDigits(digits)
    ensures IsPlain(Group(digits))
    decreases |digits|
  {
    if |digits| > 3 {
      GroupIsPlain(digits[..|digits| - 3]);
    }
  }

  lemma {:induction false} PlainShown(read: Digits, s: string)
    requires IsPlain(s)
    ensures IsPlain(Flat(CommaTable, s)) && Flat(FaChar(read), Flat(CommaTable, s)) == Show(s)
  {
    if s != "" {
      PlainShown(read, s[1..]);
      var c := if s[0] == ',' then SEPARATOR else s[0];
      assert s[0] in s;
      assert forall d :: d in s[1..] ==> d in s;
      assert CommaTable(s[0]) == [c] && Flat(CommaTable, s) == [c] + Flat(CommaTable, s[1..]);
      assert FaChar(read)(c) == FaTable(c);
    }
  }

  // How a whole amount is shown does not depend on what else is a digit.
  lemma FormatWhole(read: Digits, n: int, withUnit: bool)
    ensures FormatToman(read, Whole(n), withUnit) == Ok(Show(Grouped(ToDouble(n))) + if withUnit then UNIT else "")
  {
    var d := ToDouble(n);
    GroupIsPlain(Text(if d < 0 then -d else d));
    assert IsPlain(Grouped(d));
    PlainShown(read, Grouped(d));
    assert Show(Grouped(d)) + "" == Show(Grouped(d));
  }

  /** Dropping the separators and normalising the digits recovers the decimal of
      the amount exactly when the amount is a number of at most 53 bits times a
      power of two; every amount up to 2^53 in absolute value is. */
  lemma UndoFormatTomanIff(read: Digits, n: int)
    ensures var shown := FormatToman(read, Whole(n), false);
            && shown.Ok? && (Undo(shown.value) == IntText(n) <==> IsDouble(n))
            && (-MAX_EXACT <= n <= MAX_EXACT ==> Undo(shown.value) == IntText(n))
            && FormatToman(read, Whole(n), true) == Ok(shown.value + UNIT)
  {
    FormatWhole(read, n, false);
    FormatWhole(read, n, true);
    var shown := Show(Grouped(ToDouble(n)));
    assert shown + "" == shown;
    UndoShowInt(ToDouble(n));
    ToDoubleExactIff(n);
    if IntText(ToDouble(n)) == IntText(n) {
      IntTextIsInjective(ToDouble(n), n);
    }
    if -MAX_EXACT <= n <= MAX_EXACT {
      SmallIntegersAreExact(n);
    }
  }

  lemma {:induction false} ShowEach(s: string)
    requires IsPlain(s)
    ensures |Show(s)| == |s|
    ensures forall i :: 0 <= i < |s| ==>
              Show(s)[i] == ShownChar(s[i])
  {
    if s != "" {
      assert s[0] in s && forall c :: c in s[1..] ==> c in s;
      ShowEach(s[1..]);
      ShowHead(s);
    }
  }

  lemma ShowHead(s: string)
    requires s != "" && (IsDigit(s[0]) || s[0] in {'-', ',', SEPARATOR})
    ensures Show(s) == [ShownChar(s[0])] + Show(s[1..])
  {
    var c := if s[0] == ',' then SEPARATOR else s[0];
    var rest := Flat(CommaTable, s[1..]);
    assert Flat(CommaTable, s) == [c] + rest && ([c] + rest)[1..] == rest;
  }

  lemma GroupedFromRight(d: int, k: nat)
    requires k < |Group(Text(Abs(d)))|
    ensures IsPlain(Grouped(d)) && |Grouped(d)| == |Group(Text(Abs(d)))| + (if d < 0 then 1 else 0)
    ensures Grouped(d)[|Grouped(d)| - 1 - k] == Group(Text(Abs(d)))[|Group(Text(Abs(d)))| - 1 - k]
    ensures d < 0 ==> Grouped(d)[0] == '-'
  {
    GroupIsPlain(Text(Abs(d)));
  }

  // A character of a text, as it is shown.
  function ShownChar(c: char): char {
    if c == ',' then '٬' else if IsDigit(c) then "۰۱۲۳۴۵۶۷۸۹"[DigitValue(c)] else c
  }

  lemma ShownFromRight(d: int, k: nat, shown: string, body: string)
    requires body == Group(Text(Abs(d))) && shown == Show(Grouped(d)) && k < |body|
    ensures |shown| == |body| + (if d < 0 then 1 else 0)
    ensures shown[|shown| - 1 - k] == ShownChar(body[|body| - 1 - k])
    ensures d < 0 ==> shown[0] == '-'
  {
    GroupedFromRight(d, k);
    ShowEach(Grouped(d));
    assert |Grouped(d)| == |shown|;
    assert shown[|shown| - 1 - k] == ShownChar(Grouped(d)[|shown| - 1 - k]);
  }

  // What is shown of an amount that was converted to `d`: a minus sign in front if
  // it is negative, its digits in Persian, and from the right a separator after
  // every three of them.
  ghost predicate IsShownByThousands(shown: string, d: int) {
    var digits := Text(Abs(d));
    var body := |digits| + (|digits| - 1) / 3;
    && |shown| == body + (if d < 0 then 1 else 0)
    && (d < 0 ==> shown[0] == '-')
    && forall k: nat | k < body :: IsShownAt(shown, digits, k)
  }

  predicate IsShownAt(shown: string, digits: string, k: nat) {
    && k < |shown| && k - k / 4 < |digits|
    && shown[|shown| - 1 - k] == if k % 4 == 3 then '٬' else ShownChar(digits[|digits| - 1 - (k - k / 4)])
  }

  lemma ShownAt(d: int, k: nat, shown: string, digits: string)
    requires digits == Text(Abs(d)) && shown == Show(Grouped(d)) && k < |Group(digits)|
    ensures IsShownAt(shown, digits, k)
  {
    ShownFromRight(d, k, shown, Group(digits));
    GroupingIsByThousands(digits, k);
  }

  lemma GroupedIsShownByThousands(d: int)
    ensures IsShownByThousands(Show(Grouped(d)), d)
  {
    var digits := Text(Abs(d));
    GroupLength(digits);
    ShownFromRight(d, 0, Show(Grouped(d)), Group(digits));
    forall k: nat | k < |Group(digits)| ensures IsShownAt(Show(Grouped(d)), digits, k) {
      ShownAt(d, k, Show(Grouped(d)), digits);
    }
  }

  /** Every whole amount is shown grouped by thousands in Persian digits, with the
      unit behind it if asked for. */
  lemma ShownByThousands(read: Digits, n: int, withUnit: bool)
    ensures exists shown :: IsShownByThousands(shown, ToDouble(n))
              && FormatToman(read, Whole(n), withUnit) == Ok(if withUnit then shown + " تومان" else shown)
  {
    FormatWhole(read, n, withUnit);
    GroupedIsShownByThousands(ToDouble(n));
    var shown := Show(Grouped(ToDouble(n)));
    assert shown + "" == shown;
  }

  /** The first amount that is shown as another one. */
  lemma FirstInexactAmount(read: Digits)
    ensures var shown := FormatToman(read, Whole(MAX_EXACT + 1), false);
            shown == FormatToman(read, Whole(MAX_EXACT), false) && shown.Ok? && Undo(shown.value) != IntText(MAX_EXACT + 1)
  {
    SmallIntegersAreExact(MAX_EXACT);
    FirstInexact();
    ToDoubleExactIff(MAX_EXACT + 1);
    FormatWhole(read, MAX_EXACT, false);
    FormatWhole(read, MAX_EXACT + 1, false);
    UndoFormatTomanIff(read, MAX_EXACT + 1);
  }

  /** Two amounts up to 2^53 that look alike are the same amount. */
  lemma FormatTomanIsInjective(read: Digits, m: int, n: int, withUnit: bool)
    requires -MAX_EXACT <= m <= MAX_EXACT && -MAX_EXACT <= n <= MAX_EXACT
    requires FormatToman(read, Whole(m), withUnit) == FormatToman(read, Whole(n), withUnit)
    ensures m == n
  {
    UndoFormatTomanIff(read, m);
    UndoFormatTomanIff(read, n);
    if withUnit {
      var a, b := FormatToman(read, Whole(m), false).value, FormatToman(read, Whole(n), false).value;
      assert a == (a + UNIT)[..|a|] && b == (b + UNIT)[..|b|];
    }
    IntTextIsInjective(m, n);
  }

  // ---- Showing digits in Persian ----

  lemma ShownDigit(read: Digits, c: char)
    ensures |FaChar(read)(c)| == 1
    ensures Flat(DigitTable, FaChar(read)(c)) == [FoldDigit(c)] <==> (read(c).Digit? ==> IsKnownDigit(c))
    ensures |Flat(DigitTable, FaChar(read)(c))| == 1
  {
    var shown := FaChar(read)(c)[0];
    assert FaChar(read)(c) == [shown];
    FlatOne(DigitTable, shown);
    if read(c).Digit? {
      assert FoldDigit(shown) == '0' + read(c).value as char;
    }
  }

  lemma {:induction false} FlatShownIff(read: Digits, s: string)
    ensures |Flat(DigitTable, Flat(FaChar(read), s))| == |Flat(DigitTable, s)| == |s|
    ensures Flat(DigitTable, Flat(FaChar(read), s)) == Flat(DigitTable, s) <==>
            forall c :: c in s && read(c).Digit? ==> IsKnownDigit(c)
  {
    if s != "" {
      var rest := s[1..];
      FlatShownIff(read, rest);
      ShownDigit(read, s[0]);
      FlatConcat(DigitTable, FaChar(read)(s[0]), Flat(FaChar(read), rest));
      var a, b := Flat(DigitTable, FaChar(read)(s[0])), Flat(DigitTable, Flat(FaChar(read), rest));
      assert Flat(DigitTable, s) == [FoldDigit(s[0])] + Flat(DigitTable, rest);
      SameParts(a, b, [FoldDigit(s[0])], Flat(DigitTable, rest));
      assert s == [s[0]] + rest;
      assert s[0] in s;
    }
  }

  lemma SameParts(a: string, b: string, c: string, d: string)
    requires |a| == |c|
    ensures a + b == c + d <==> a == c && b == d
  {
    assert (a + b)[..|a|] == a && (a + b)[|a|..] == b;
    assert (c + d)[..|c|] == c && (c + d)[|c|..] == d;
  }

  /** Showing a text's digits in Persian fails exactly on a character that is a
      digit without a value, and otherwise keeps what the text normalises to
      exactly when all its digits are ASCII, Persian or Arabic ones. */
  lemma NormalizeToFaIff(read: Digits, s: string)
    ensures var shown := ToFaDigits(read, Some(s));
            && (shown.Err? <==> exists c :: c in s && read(c).Unreadable?)
            && (shown.Ok? ==>
                  (NormalizeDigits(Some(shown.value)) == NormalizeDigits(Some(s)) <==>
                   forall c :: c in s && read(c).Digit? ==> IsKnownDigit(c)))
  {
    FlatShownIff(read, s);
  }

  // A Devanagari one becomes a Persian one, and that an ASCII one.
  lemma ForeignDigitChanges(read: Digits)
    requires read('\U{967}') == Digit(1)
    ensures ToFaDigits(read, Some("\U{967}")) == Ok("۱")
    ensures NormalizeDigits(Some("۱")) == "1" && NormalizeDigits(Some("\U{967}")) == "\U{967}"
  {
    FlatOne(FaChar(read), '\U{967}');
    FlatOne(DigitTable, '۱');
    FlatOne(DigitTable, '\U{967}');
    assert '۰' + 1 as char == '۱';
  }

  /** Showing digits in Persian replaces every digit by the Persian one of its value
      and keeps everything else, in place; nothing is shown for nothing. */
  lemma {:induction false} FaDigitsEach(read: Digits, s: string)
    requires forall c :: c in s ==> !read(c).Unreadable?
    ensures ToFaDigits(read, None) == Ok("") && FormatToman(read, Absent, true) == Ok("")
    ensures FormatToman(read, NotANumber(s), true) == ToFaDigits(read, Some(s))
    ensures var shown := ToFaDigits(read, Some(s));
            && shown.Ok? && |shown.value| == |s|
            && forall i :: 0 <= i < |s| ==>
                 shown.value[i] == if read(s[i]).Digit? then "۰۱۲۳۴۵۶۷۸۹"[read(s[i]).value] else s[i]
  {
    forall c ensures |FaChar(read)(c)| == 1 && FaChar(read)(c)[0] == if read(c).Digit? then "۰۱۲۳۴۵۶۷۸۹"[read(c).value] else c {}
    FlatEach(FaChar(read), s);
  }
}
