/** Text normalisation: digits of any keyboard to ASCII, Arabic letters to
    Persian, whitespace to single spaces, and the case-folded comparison key. */
module Normalization {
  import opened Prelude

  // Python's str.isspace for one character, which is also what \s matches.
  predicate IsSpace(c: char) {
    || '\t' <= c <= '\r' || '\U{1C}' <= c <= ' ' || c == '\U{85}' || c == '\U{A0}' || c == '\U{1680}'
    || '\U{2000}' <= c <= '\U{200A}' || '\U{2028}' <= c <= '\U{2029}'
    || c == '\U{202F}' || c == '\U{205F}' || c == '\U{3000}'
  }

  predicate IsPersianDigit(c: char) { '۰' <= c <= '۹' }
  predicate IsArabicDigit(c: char) { '٠' <= c <= '٩' }

  function FoldDigit(c: char): char {
    if IsPersianDigit(c) then '0' + (c - '۰')
    else if IsArabicDigit(c) then '0' + (c - '٠')
    else c
  }

  function FoldLetter(c: char): char {
    if c == 'ي' then 'ی' else if c == 'ك' then 'ک' else c
  }

  function DigitTable(c: char): string { [FoldDigit(c)] }

  function LetterTable(c: char): string { [FoldLetter(c)] }

  // str.translate, and any other character-by-character rewriting.
  function Flat(f: char -> string, s: string): string {
    if s == "" then "" else f(s[0]) + Flat(f, s[1..])
  }

  function NormalizeDigits(value: Option<string>): string {
    if value.None? then "" else Flat(DigitTable, value.value)
  }

  function DropSpaces(s: string): (t: string)
    ensures |t| <= |s| && (t != "" ==> !IsSpace(t[0]))
  {
    if s != "" && IsSpace(s[0]) then DropSpaces(s[1..]) else s
  }

  function DropTrailing(s: string): (t: string)
    ensures |t| <= |s|
  {
    if s != "" && IsSpace(s[|s| - 1]) then DropTrailing(s[..|s| - 1]) else s
  }

  function Strip(s: string): string {
    DropTrailing(DropSpaces(s))
  }

  // Every run of whitespace becomes one space.
  function Collapse(s: string): string
    decreases |s|
  {
    if s == "" then ""
    else if IsSpace(s[0]) then " " + Collapse(DropSpaces(s[1..]))
    else [s[0]] + Collapse(s[1..])
  }

  function NormalizeText(value: Option<string>): string {
    if value.None? then ""
    else Strip(Collapse(Flat(LetterTable, NormalizeDigits(value))))
  }

  // ---- Lower-casing, one character at a time ----

  predicate IsFolded(c: char) { FoldLetter(FoldDigit(c)) == c }

  ghost predicate KeepsSpaces(f: char -> string) {
    forall c :: if IsSpace(c) then f(c) == [c] else f(c) != "" && NoSpaces(f(c))
  }

  /** What a case folding is assumed to be: a character may become several, but
      spaces stay, what it produces is already lower case, and it makes no
      character that the other two tables would change. */
  ghost predicate IsLower(f: char -> string) {
    && KeepsSpaces(f)
    && (forall c, d :: d in f(c) ==> f(d) == [d])
    && (forall c, d :: IsFolded(c) && d in f(c) ==> IsFolded(d))
  }

  function AsciiLower(c: char): string {
    if 'A' <= c <= 'Z' then [c - 'A' + 'a'] else [c]
  }

  lemma AsciiIsLower()
    ensures IsLower(AsciiLower)
  {
    forall c
      ensures if IsSpace(c) then AsciiLower(c) == [c] else NoSpaces(AsciiLower(c))
      ensures forall d :: d in AsciiLower(c) ==> AsciiLower(d) == [d] && (IsFolded(c) ==> IsFolded(d))
    {
      var d := AsciiLower(c)[0];
      assert AsciiLower(c) == [d] && (d == c || 'a' <= d <= 'z');
    }
  }

  type Lower = f: char -> string | IsLower(f)
    witness (AsciiIsLower(); AsciiLower)

  function NormalizationKey(lower: Lower, value: Option<string>): string {
    Flat(lower, NormalizeText(value))
  }

  // ---- An independent reading: a text is its words ----

  predicate NoSpaces(s: string) {
    forall i :: 0 <= i < |s| ==> !IsSpace(s[i])
  }

  predicate IsWord(s: string) { s != "" && NoSpaces(s) }

  function FirstWord(s: string): (w: string)
    ensures |w| <= |s| && w <= s && NoSpaces(w)
    ensures |w| < |s| ==> IsSpace(s[|w|])
    ensures s != "" && !IsSpace(s[0]) ==> w != ""
  {
    if s == "" || IsSpace(s[0]) then "" else [s[0]] + FirstWord(s[1..])
  }

  function Words(s: string): (ws: seq<string>)
    ensures forall w :: w in ws ==> IsWord(w)
    decreases |s|
  {
    if s == "" then []
    else if IsSpace(s[0]) then Words(s[1..])
    else [FirstWord(s)] + Words(s[|FirstWord(s)|..])
  }

  function Join(ws: seq<string>): string {
    if ws == [] then "" else if |ws| == 1 then ws[0] else ws[0] + " " + Join(ws[1..])
  }

  function MapWords(f: char -> string, ws: seq<string>): seq<string> {
    if ws == [] then [] else [Flat(f, ws[0])] + MapWords(f, ws[1..])
  }

  function FoldedWords(s: string): seq<string> {
    MapWords(LetterTable, MapWords(DigitTable, Words(s)))
  }

  // The words of the key: each word with digits, letters and case folded.
  function KeyWords(lower: Lower, s: string): seq<string> {
    MapWords(lower, FoldedWords(s))
  }

  // ---- Words ignore surrounding and repeated whitespace ----

  lemma {:induction false} WordsDropSpaces(s: string)
    ensures Words(DropSpaces(s)) == Words(s)
  {
    if s != "" && IsSpace(s[0]) { WordsDropSpaces(s[1..]); }
  }

  lemma {:induction false} FirstWordAlone(s: string, c: char)
    requires IsSpace(c)
    ensures FirstWord(s + [c]) == FirstWord(s)
  {
    if s != "" && !IsSpace(s[0]) {
      assert (s + [c])[1..] == s[1..] + [c];
      FirstWordAlone(s[1..], c);
    }
  }

  lemma {:induction false} WordsDropLast(s: string, c: char)
    requires IsSpace(c)
    ensures Words(s + [c]) == Words(s)
    decreases |s|
  {
    if s == "" {
      assert (s + [c])[1..] == "";
    } else if IsSpace(s[0]) {
      assert (s + [c])[1..] == s[1..] + [c];
      WordsDropLast(s[1..], c);
    } else {
      FirstWordAlone(s, c);
      var n := |FirstWord(s)|;
      assert (s + [c])[n..] == s[n..] + [c];
      WordsDropLast(s[n..], c);
    }
  }

  lemma {:induction false} WordsDropTrailing(s: string)
    ensures Words(DropTrailing(s)) == Words(s)
    decreases |s|
  {
    if s != "" && IsSpace(s[|s| - 1]) {
      WordsDropTrailing(s[..|s| - 1]);
      WordsDropLast(s[..|s| - 1], s[|s| - 1]);
      assert s == s[..|s| - 1] + [s[|s| - 1]];
    }
  }

  lemma WordsOfStrip(s: string)
    ensures Words(Strip(s)) == Words(s)
  {
    WordsDropSpaces(s);
    WordsDropTrailing(DropSpaces(s));
  }

  lemma {:induction false} FirstWordCollapse(s: string)
    ensures FirstWord(Collapse(s)) == FirstWord(s)
    ensures Collapse(s)[|FirstWord(s)|..] == Collapse(s[|FirstWord(s)|..])
  {
    if s != "" && !IsSpace(s[0]) {
      FirstWordCollapse(s[1..]);
      assert Collapse(s)[1..] == Collapse(s[1..]);
      assert s[1..][|FirstWord(s[1..])|..] == s[|FirstWord(s)|..];
    }
  }

  lemma {:induction false} WordsOfCollapse(s: string)
    ensures Words(Collapse(s)) == Words(s)
    decreases |s|
  {
    if s == "" {
    } else if IsSpace(s[0]) {
      WordsOfCollapse(DropSpaces(s[1..]));
      WordsDropSpaces(s[1..]);
      assert Collapse(s)[1..] == Collapse(DropSpaces(s[1..]));
    } else {
      FirstWordCollapse(s);
      WordsOfCollapse(s[|FirstWord(s)|..]);
    }
  }

  // ---- Single-spaced text is determined by its words ----

  /** No whitespace but single spaces between words. */
  predicate SingleSpaced(s: string) {
    && (s != "" ==> !IsSpace(s[0]) && !IsSpace(s[|s| - 1]))
    && forall i :: 0 <= i < |s| && IsSpace(s[i]) ==> s[i] == ' ' && (i + 1 < |s| ==> !IsSpace(s[i + 1]))
  }

  lemma {:induction false} SingleSpacedIsJoin(s: string)
    requires SingleSpaced(s)
    ensures s == Join(Words(s))
    decreases |s|
  {
    if s != "" {
      var w := FirstWord(s);
      if |w| < |s| {
        var rest := s[|w| + 1..];
        assert s[|w|..][1..] == rest && s == w + [s[|w|]] + rest;
        SingleSpacedIsJoin(rest);
        assert Words(s) == [w] + Words(rest);
        assert rest != "" && Words(rest) != [];
      } else {
        assert s == w && s[|w|..] == "";
      }
    }
  }

  lemma {:induction false} FirstWordOfJoin(w: string, rest: string)
    requires IsWord(w) && (rest != "" ==> IsSpace(rest[0]))
    ensures FirstWord(w + rest) == w
  {
    assert (w + rest)[1..] == w[1..] + rest;
    if |w| > 1 {
      FirstWordOfJoin(w[1..], rest);
    }
  }

  lemma WordsOfWordThen(w: string, rest: string)
    requires IsWord(w) && (rest != "" ==> IsSpace(rest[0]))
    ensures Words(w + rest) == [w] + Words(rest)
  {
    FirstWordOfJoin(w, rest);
    assert (w + rest)[|w|..] == rest;
  }

  lemma {:induction false} WordsOfJoin(ws: seq<string>)
    requires forall w :: w in ws ==> IsWord(w)
    ensures Words(Join(ws)) == ws
  {
    if |ws| == 1 {
      assert ws[0] + "" == ws[0];
      WordsOfWordThen(ws[0], "");
    } else if ws != [] {
      var rest := " " + Join(ws[1..]);
      assert Join(ws) == ws[0] + rest;
      WordsOfWordThen(ws[0], rest);
      assert rest[1..] == Join(ws[1..]);
      WordsOfJoin(ws[1..]);
    }
  }

  lemma {:induction false} JoinIsSingleSpaced(ws: seq<string>)
    requires forall w :: w in ws ==> IsWord(w)
    ensures SingleSpaced(Join(ws)) && (ws != [] ==> Join(ws) != "")
  {
    if |ws| > 1 {
      JoinIsSingleSpaced(ws[1..]);
      var w, rest := ws[0], Join(ws[1..]);
      assert ws[0] in ws;
      assert forall i :: 0 <= i < |Join(ws)| ==>
        Join(ws)[i] == if i < |w| then w[i] else if i == |w| then ' ' else rest[i - |w| - 1];
    } else if |ws| == 1 {
      assert ws[0] in ws;
    }
  }

  lemma {:induction false} DropTrailingShape(s: string)
    ensures DropTrailing(s) <= s && (DropTrailing(s) != "" ==> !IsSpace(DropTrailing(s)[|DropTrailing(s)| - 1]))
  {
    if s != "" && IsSpace(s[|s| - 1]) { DropTrailingShape(s[..|s| - 1]); }
  }

  lemma DropTrailingKeepsStart(s: string)
    requires s == "" || !IsSpace(s[0])
    ensures DropTrailing(s) == "" || !IsSpace(DropTrailing(s)[0])
  {
    DropTrailingShape(s);
  }

  lemma StripTwice(s: string)
    ensures Strip(Strip(s)) == Strip(s)
  {
    DropTrailingShape(DropSpaces(s));
    DropTrailingKeepsStart(DropSpaces(s));
  }

  // Collapsed text: single spaces, perhaps one at either end.
  predicate Collapsed(s: string) {
    forall i :: 0 <= i < |s| && IsSpace(s[i]) ==> s[i] == ' ' && (i + 1 < |s| ==> !IsSpace(s[i + 1]))
  }

  lemma {:induction false} CollapseShape(s: string)
    ensures Collapsed(Collapse(s))
    ensures s != "" ==> Collapse(s) != "" && (IsSpace(Collapse(s)[0]) <==> IsSpace(s[0]))
    decreases |s|
  {
    if s != "" {
      if IsSpace(s[0]) { CollapseShape(DropSpaces(s[1..])); } else { CollapseShape(s[1..]); }
    }
  }

  lemma StripOfCollapsed(s: string)
    requires Collapsed(s)
    ensures SingleSpaced(Strip(s))
  {
    var t := if s != "" && IsSpace(s[0]) then s[1..] else s;
    assert DropSpaces(s) == t;
    DropTrailingShape(t);
  }

  // ---- Folding commutes with taking words ----

  lemma FlatOne(f: char -> string, c: char)
    ensures Flat(f, [c]) == f(c)
  {
    assert [c][1..] == "";
  }

  lemma {:induction false} FlatConcat(f: char -> string, a: string, b: string)
    ensures Flat(f, a + b) == Flat(f, a) + Flat(f, b)
  {
    if a == "" {
      assert a + b == b;
    } else {
      assert (a + b)[1..] == a[1..] + b;
      FlatConcat(f, a[1..], b);
    }
  }

  lemma {:induction false} FlatWord(f: char -> string, w: string)
    requires KeepsSpaces(f) && IsWord(w)
    ensures IsWord(Flat(f, w))
  {
    if |w| > 1 { FlatWord(f, w[1..]); }
  }

  lemma {:induction false} WordsOfFlat(f: char -> string, s: string)
    requires KeepsSpaces(f)
    ensures Words(Flat(f, s)) == MapWords(f, Words(s))
    decreases |s|
  {
    if s == "" {
    } else if IsSpace(s[0]) {
      WordsOfFlat(f, s[1..]);
      assert Flat(f, s)[1..] == Flat(f, s[1..]);
    } else {
      var w := FirstWord(s);
      var rest := s[|w|..];
      assert s == w + rest;
      FlatConcat(f, w, rest);
      FlatWord(f, w);
      WordsOfFlat(f, rest);
      if rest != "" { assert Flat(f, rest)[0] == rest[0]; }
      FirstWordOfJoin(Flat(f, w), Flat(f, rest));
      assert Flat(f, s)[|Flat(f, w)|..] == Flat(f, rest);
    }
  }

  lemma {:induction false} MapWordsAreWords(f: char -> string, ws: seq<string>)
    requires KeepsSpaces(f) && forall w :: w in ws ==> IsWord(w)
    ensures forall w :: w in MapWords(f, ws) ==> IsWord(w)
  {
    if ws != [] {
      assert ws[0] in ws;
      FlatWord(f, ws[0]);
      MapWordsAreWords(f, ws[1..]);
    }
  }

  lemma {:induction false} FlatSingleSpaced(f: char -> string, s: string)
    requires KeepsSpaces(f) && SingleSpaced(s)
    ensures SingleSpaced(Flat(f, s))
  {
    SingleSpacedIsJoin(s);
    FlatOfJoin(f, Words(s));
    MapWordsAreWords(f, Words(s));
    JoinIsSingleSpaced(MapWords(f, Words(s)));
  }

  lemma {:induction false} FlatOfJoin(f: char -> string, ws: seq<string>)
    requires KeepsSpaces(f)
    ensures Flat(f, Join(ws)) == Join(MapWords(f, ws))
  {
    if |ws| == 1 {
      assert MapWords(f, ws) == [Flat(f, ws[0])];
    } else if ws != [] {
      FlatConcat(f, ws[0] + " ", Join(ws[1..]));
      FlatConcat(f, ws[0], " ");
      assert Flat(f, " ") == " ";
      FlatOfJoin(f, ws[1..]);
    }
  }

  // ---- Main results ----

  lemma TablesKeepSpaces()
    ensures KeepsSpaces(DigitTable) && KeepsSpaces(LetterTable)
  {
    forall c ensures FoldDigit(c) == c || !(IsSpace(c) || IsSpace(FoldDigit(c))) {}
    forall c ensures FoldLetter(c) == c || !(IsSpace(c) || IsSpace(FoldLetter(c))) {}
  }

  lemma WordsOfFolded(s: string)
    ensures Words(Flat(LetterTable, Flat(DigitTable, s))) == FoldedWords(s)
    ensures forall w :: w in FoldedWords(s) ==> IsWord(w)
  {
    TablesKeepSpaces();
    WordsOfFlat(LetterTable, Flat(DigitTable, s));
    WordsOfFlat(DigitTable, s);
  }

  /** The normalised text is its folded words joined by single spaces. */
  lemma NormalizeTextIsWords(s: string)
    ensures NormalizeText(Some(s)) == Join(FoldedWords(s)) && SingleSpaced(NormalizeText(Some(s)))
  {
    var t := Flat(LetterTable, Flat(DigitTable, s));
    WordsOfFolded(s);
    CollapseShape(t);
    StripOfCollapsed(Collapse(t));
    SingleSpacedIsJoin(Strip(Collapse(t)));
    WordsOfStrip(Collapse(t));
    WordsOfCollapse(t);
  }

  lemma KeyIsKeyWords(lower: Lower, s: string)
    ensures NormalizationKey(lower, Some(s)) == Join(KeyWords(lower, s))
    ensures forall w :: w in KeyWords(lower, s) ==> IsWord(w)
  {
    NormalizeTextIsWords(s);
    WordsOfFolded(s);
    FlatOfJoin(lower, FoldedWords(s));
    MapWordsAreWords(lower, FoldedWords(s));
  }

  /** Two texts have the same key exactly when they have the same words up to
      digit script, Arabic letter forms and case. */
  lemma SameKeyIff(lower: Lower, a: string, b: string)
    ensures NormalizationKey(lower, Some(a)) == NormalizationKey(lower, Some(b)) <==> KeyWords(lower, a) == KeyWords(lower, b)
  {
    KeyIsKeyWords(lower, a);
    KeyIsKeyWords(lower, b);
    WordsOfJoin(KeyWords(lower, a));
    WordsOfJoin(KeyWords(lower, b));
  }

  // Stripping first makes no difference to the key.
  lemma KeyOfStrip(lower: Lower, s: string)
    ensures NormalizationKey(lower, Some(Strip(s))) == NormalizationKey(lower, Some(s))
  {
    WordsOfStrip(s);
    SameKeyIff(lower, Strip(s), s);
  }

  lemma {:induction false} CharsOfFlat(f: char -> string, s: string, d: char) returns (c: char)
    requires d in Flat(f, s)
    ensures c in s && d in f(c)
  {
    if d in f(s[0]) {
      c := s[0];
    } else {
      c := CharsOfFlat(f, s[1..], d);
    }
  }

  lemma {:induction false} CharsOfCollapse(s: string, c: char)
    requires c in Collapse(s)
    ensures c in s || c == ' '
    decreases |s|
  {
    if IsSpace(s[0]) {
      if c != ' ' {
        CharsOfCollapse(DropSpaces(s[1..]), c);
        CharsOfDropSpaces(s[1..], c);
      }
    } else if c != s[0] {
      CharsOfCollapse(s[1..], c);
    }
  }

  lemma {:induction false} CharsOfDropSpaces(s: string, c: char)
    requires c in DropSpaces(s)
    ensures c in s
  {
    if s != "" && IsSpace(s[0]) { CharsOfDropSpaces(s[1..], c); }
  }

  lemma {:induction false} FlatFixed(f: char -> string, s: string)
    requires forall c :: c in s ==> f(c) == [c]
    ensures Flat(f, s) == s
  {
    if s != "" {
      FlatFixed(f, s[1..]);
      assert s == [s[0]] + s[1..];
    }
  }

  lemma FoldOnce(c: char)
    ensures IsFolded(FoldLetter(FoldDigit(c)))
  {}

  lemma FoldedChar(s: string, c: char)
    requires c in Flat(LetterTable, Flat(DigitTable, s))
    ensures IsFolded(c)
  {
    var b := CharsOfFlat(LetterTable, Flat(DigitTable, s), c);
    var a := CharsOfFlat(DigitTable, s, b);
    assert b == FoldDigit(a) && c == FoldLetter(b);
    FoldOnce(a);
  }

  lemma CharsOfStrip(s: string, c: char)
    requires c in Strip(s)
    ensures c in s
  {
    DropTrailingShape(DropSpaces(s));
    CharsOfDropSpaces(s, c);
  }

  lemma NormalizedChar(s: string, c: char)
    requires c in NormalizeText(Some(s))
    ensures IsFolded(c)
  {
    var t := Flat(LetterTable, Flat(DigitTable, s));
    CharsOfStrip(Collapse(t), c);
    CharsOfCollapse(t, c);
    if c in t {
      FoldedChar(s, c);
    }
  }

  lemma KeyChar(lower: Lower, s: string, d: char)
    requires d in NormalizationKey(lower, Some(s))
    ensures IsFolded(d) && lower(d) == [d]
  {
    var c := CharsOfFlat(lower, NormalizeText(Some(s)), d);
    NormalizedChar(s, c);
  }

  /** A key has only single spaces between words, none at the ends, and no
      Persian or Arabic digit and no Arabic ye or kaf. */
  lemma KeyIsClean(lower: Lower, s: string)
    ensures SingleSpaced(NormalizationKey(lower, Some(s)))
    ensures forall c :: c in NormalizationKey(lower, Some(s)) ==>
              !IsPersianDigit(c) && !IsArabicDigit(c) && c != 'ي' && c != 'ك'
  {
    NormalizeTextIsWords(s);
    FlatSingleSpaced(lower, NormalizeText(Some(s)));
    forall c | c in NormalizationKey(lower, Some(s)) ensures IsFolded(c) {
      KeyChar(lower, s, c);
    }
  }

  /** The key of a key is itself. */
  lemma KeyIsIdempotent(lower: Lower, s: string)
    ensures var key := NormalizationKey(lower, Some(s));
            NormalizationKey(lower, Some(key)) == key
  {
    var key := NormalizationKey(lower, Some(s));
    forall c | c in key ensures IsFolded(c) && lower(c) == [c] {
      KeyChar(lower, s, c);
    }
    KeyIsClean(lower, s);
    FlatFixed(DigitTable, key);
    FlatFixed(LetterTable, key);
    NormalizeTextIsWords(key);
    SingleSpacedIsJoin(key);
    WordsOfFolded(key);
    FlatFixed(lower, key);
  }

  // ---- What the tables do, character by character ----

  lemma {:induction false} FlatEach(f: char -> string, s: string)
    requires forall c :: c in s ==> |f(c)| == 1
    ensures |Flat(f, s)| == |s| && forall i :: 0 <= i < |s| ==> [Flat(f, s)[i]] == f(s[i])
  {
    if s != "" {
      assert s[0] in s && forall c :: c in s[1..] ==> c in s;
      FlatEach(f, s[1..]);
    }
  }

  /** Persian and Arabic digits become the ASCII digits of the same value, and
      every other character is kept, in its place. */
  lemma DigitsNormalized(s: string, i: nat)
    requires i < |s|
    ensures |NormalizeDigits(Some(s))| == |s|
    ensures var d := NormalizeDigits(Some(s))[i];
            && (forall v :: 0 <= v < 10 && (s[i] == "۰۱۲۳۴۵۶۷۸۹"[v] || s[i] == "٠١٢٣٤٥٦٧٨٩"[v]) ==> d == "0123456789"[v])
            && (s[i] !in "۰۱۲۳۴۵۶۷۸۹" && s[i] !in "٠١٢٣٤٥٦٧٨٩" ==> d == s[i])
  {
    FlatEach(DigitTable, s);
    var c := s[i];
    assert IsPersianDigit(c) ==> c == "۰۱۲۳۴۵۶۷۸۹"[c as int - '۰' as int];
    assert IsArabicDigit(c) ==> c == "٠١٢٣٤٥٦٧٨٩"[c as int - '٠' as int];
  }

  /** Arabic ye and kaf become the Persian letters, each its own, and every other
      character is kept. */
  lemma LettersNormalized(s: string, i: nat)
    requires i < |s|
    ensures |Flat(LetterTable, s)| == |s|
    ensures Flat(LetterTable, s)[i] == if s[i] == 'ي' then 'ی' else if s[i] == 'ك' then 'ک' else s[i]
  {
    FlatEach(LetterTable, s);
  }

  /** Stripping takes whitespace off both ends and nothing else. */
  lemma StripIsTrim(s: string) returns (left: string, right: string)
    ensures s == left + Strip(s) + right
    ensures (forall c :: c in left ==> IsSpace(c)) && (forall c :: c in right ==> IsSpace(c))
    ensures Strip(s) != "" ==> !IsSpace(Strip(s)[0]) && !IsSpace(Strip(s)[|Strip(s)| - 1])
  {
    left := DroppedLeft(s);
    right := DroppedRight(DropSpaces(s));
    DropTrailingShape(DropSpaces(s));
  }

  lemma {:induction false} DroppedLeft(s: string) returns (left: string)
    ensures s == left + DropSpaces(s) && forall c :: c in left ==> IsSpace(c)
  {
    left := "";
    if s != "" && IsSpace(s[0]) {
      left := DroppedLeft(s[1..]);
      left := [s[0]] + left;
    }
  }

  lemma {:induction false} DroppedRight(s: string) returns (right: string)
    ensures s == DropTrailing(s) + right && forall c :: c in right ==> IsSpace(c)
  {
    right := "";
    if s != "" && IsSpace(s[|s| - 1]) {
      right := DroppedRight(s[..|s| - 1]);
      right := right + [s[|s| - 1]];
    }
  }

  function Fold(c: char): char { FoldLetter(FoldDigit(c)) }

  lemma {:induction false} SameFolds(lower: Lower, a: string, b: string)
    requires |a| == |b| && forall i :: 0 <= i < |a| ==> lower(Fold(a[i])) == lower(Fold(b[i]))
    ensures Flat(lower, Flat(LetterTable, Flat(DigitTable, a))) == Flat(lower, Flat(LetterTable, Flat(DigitTable, b)))
  {
    if a != "" {
      SameFolds(lower, a[1..], b[1..]);
      FlatTables(lower, a);
      FlatTables(lower, b);
    }
  }

  lemma FlatTables(lower: Lower, s: string)
    requires s != ""
    ensures Flat(lower, Flat(LetterTable, Flat(DigitTable, s)))
         == lower(Fold(s[0])) + Flat(lower, Flat(LetterTable, Flat(DigitTable, s[1..])))
  {
    var rest := Flat(DigitTable, s[1..]);
    assert Flat(DigitTable, s) == [FoldDigit(s[0])] + rest;
    assert ([FoldDigit(s[0])] + rest)[1..] == rest;
    var more := Flat(LetterTable, rest);
    assert Flat(LetterTable, Flat(DigitTable, s)) == [Fold(s[0])] + more;
    assert ([Fold(s[0])] + more)[1..] == more;
  }

  /** Texts that differ, character by character, only in digit script, Arabic
      letter forms and case have the same key; and a key is lower case already. */
  lemma KeyIgnoresForms(lower: Lower, a: string, b: string)
    requires |a| == |b| && forall i :: 0 <= i < |a| ==> lower(Fold(a[i])) == lower(Fold(b[i]))
    ensures NormalizationKey(lower, Some(a)) == NormalizationKey(lower, Some(b))
    ensures forall c :: c in NormalizationKey(lower, Some(a)) ==> lower(c) == [c]
  {
    SameFolds(lower, a, b);
    KeyWordsOfFlat(lower, a);
    KeyWordsOfFlat(lower, b);
    SameKeyIff(lower, a, b);
    forall c | c in NormalizationKey(lower, Some(a)) ensures lower(c) == [c] {
      KeyChar(lower, a, c);
    }
  }

  lemma KeyWordsOfFlat(lower: Lower, s: string)
    ensures KeyWords(lower, s) == Words(Flat(lower, Flat(LetterTable, Flat(DigitTable, s))))
  {
    WordsOfFolded(s);
    WordsOfFlat(lower, Flat(LetterTable, Flat(DigitTable, s)));
  }

  const SPACES := {
    '\U{9}', '\U{A}', '\U{B}', '\U{C}', '\U{D}', '\U{1C}', '\U{1D}', '\U{1E}', '\U{1F}', '\U{20}', '\U{85}', '\U{A0}', '\U{1680}',
    '\U{2000}', '\U{2001}', '\U{2002}', '\U{2003}', '\U{2004}', '\U{2005}', '\U{2006}', '\U{2007}', '\U{2008}', '\U{2009}',
    '\U{200A}', '\U{2028}', '\U{2029}', '\U{202F}', '\U{205F}', '\U{3000}'
  }

  // The 29 characters that count as whitespace.
  lemma SpacesListed(c: char)
    ensures IsSpace(c) <==> c in SPACES
  {}
}
