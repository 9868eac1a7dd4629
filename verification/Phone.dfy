/** Canonical form of Iranian mobile numbers. */
module Phone {
  import opened Prelude
  import opened Decimal
  import opened Normalization

  datatype PhoneError = PhoneRequired | PhoneInvalid

  // The class [\s\-()].
  predicate IsNoise(c: char) {
    IsSpace(c) || c in {'-', '(', ')'}
  }

  function NoiseTable(c: char): string {
    if IsNoise(c) then "" else [c]
  }

  function Clean(raw: string): string {
    Flat(NoiseTable, Flat(DigitTable, raw))
  }

  predicate HasPrefix(s: string, prefix: string) {
    prefix <= s
  }

  function Rewrite(value: string): string {
    if HasPrefix(value, "+98") then "0" + value[3..]
    else if HasPrefix(value, "0098") then "0" + value[4..]
    else if HasPrefix(value, "98") && |value| == 12 then "0" + value[2..]
    else if HasPrefix(value, "9") && |value| == 10 then "0" + value
    else value
  }

  // 09 and nine digits.
  predicate IsCanonical(s: string) {
    |s| == 11 && HasPrefix(s, "09") && AllDigits(s)
  }

  function Normalize(raw: Option<string>): Result<string, PhoneError> {
    if raw.None? then Err(PhoneRequired)
    else
      var value := Rewrite(Clean(raw.value));
      if IsCanonical(value) then Ok(value) else Err(PhoneInvalid)
  }

  // The ways to write the number `v` once digits are ASCII and noise is gone.
  function Spellings(v: string): set<string>
    requires IsCanonical(v)
  {
    {v, "+98" + v[1..], "0098" + v[1..], "98" + v[1..], v[1..]}
  }

  /** A text is accepted as the number `v` exactly when, cleaned, it is one of
      the five spellings of `v`; so no spelling belongs to two numbers. */
  lemma AcceptedIff(raw: string, v: string)
    requires IsCanonical(v)
    ensures Normalize(Some(raw)) == Ok(v) <==> Clean(raw) in Spellings(v)
  {
    var w := Clean(raw);
    if Rewrite(w) == v {
      if HasPrefix(w, "+98") {
        assert w == "+98" + v[1..];
      } else if HasPrefix(w, "0098") {
        assert w == "0098" + v[1..];
      } else if HasPrefix(w, "98") && |w| == 12 {
        assert w == "98" + v[1..];
      } else if HasPrefix(w, "9") && |w| == 10 {
        assert w == v[1..];
      }
    }
    if w in Spellings(v) {
      SpellingRewrites(v, w);
    }
  }

  lemma SpellingRewrites(v: string, w: string)
    requires IsCanonical(v) && w in Spellings(v)
    ensures Rewrite(w) == v
  {
    assert v == "0" + v[1..];
    if w == "+98" + v[1..] {
      assert w[..3] == "+98" && w[3..] == v[1..];
    } else if w == "0098" + v[1..] {
      assert w[..4] == "0098" && w[4..] == v[1..] && w[0] == '0';
    } else if w == "98" + v[1..] {
      assert w[..2] == "98" && w[2..] == v[1..] && w[0] == '9';
    } else if w == v[1..] {
      assert w[0] == '9' && |w| == 10;
    } else {
      assert w[0] == '0' && w[1] == '9';
    }
  }

  // The five spellings differ.
  lemma FiveSpellings(v: string)
    requires IsCanonical(v)
    ensures |Spellings(v)| == 5
  {
    var a, b, c, d, e := v, "+98" + v[1..], "0098" + v[1..], "98" + v[1..], v[1..];
    assert |a| == 11 && |b| == 13 && |c| == 14 && |d| == 12 && |e| == 10;
    assert Spellings(v) == {a} + {b} + {c} + {d} + {e};
  }

  lemma {:induction false} CleanClean(s: string)
    requires AllDigits(s)
    ensures Clean(s) == s
  {
    FlatFixed(DigitTable, s);
    FlatFixed(NoiseTable, s);
  }

  /** What is accepted is canonical, and normalising it again changes nothing. */
  lemma NormalizeIsIdempotent(raw: Option<string>)
    requires Normalize(raw).Ok?
    ensures IsCanonical(Normalize(raw).value) && Normalize(Some(Normalize(raw).value)) == Normalize(raw)
  {
    var v := Normalize(raw).value;
    CleanClean(v);
    AcceptedIff(v, v);
  }

  lemma CleanConcat(a: string, b: string)
    ensures Clean(a + b) == Clean(a) + Clean(b)
  {
    FlatConcat(DigitTable, a, b);
    FlatConcat(NoiseTable, Flat(DigitTable, a), Flat(DigitTable, b));
  }

  lemma {:induction false} CleanNoise(noise: string)
    requires forall c :: c in noise ==> IsNoise(c)
    ensures Clean(noise) == ""
  {
    if noise != "" {
      assert noise == [noise[0]] + noise[1..];
      CleanConcat([noise[0]], noise[1..]);
      CleanNoise(noise[1..]);
      FlatOne(DigitTable, noise[0]);
      FlatOne(NoiseTable, noise[0]);
    }
  }

  /** Spaces, hyphens and parentheses may be inserted anywhere. */
  lemma NoiseIsIgnored(before: string, noise: string, after: string)
    requires forall c :: c in noise ==> IsNoise(c)
    ensures Normalize(Some(before + noise + after)) == Normalize(Some(before + after))
  {
    CleanConcat(before + noise, after);
    CleanConcat(before, noise);
    CleanNoise(noise);
    assert Clean(before) + "" == Clean(before);
    CleanConcat(before, after);
  }

  /** Rewriting any of the digits in another of the three scripts changes nothing. */
  lemma ScriptIsIgnored(raw: string, other: string)
    requires |raw| == |other| && forall i :: 0 <= i < |raw| ==> FoldDigit(raw[i]) == FoldDigit(other[i])
    ensures Normalize(Some(raw)) == Normalize(Some(other))
  {
    SameFolding(raw, other);
  }

  lemma {:induction false} SameFolding(raw: string, other: string)
    requires |raw| == |other| && forall i :: 0 <= i < |raw| ==> FoldDigit(raw[i]) == FoldDigit(other[i])
    ensures Flat(DigitTable, raw) == Flat(DigitTable, other)
  {
    if raw != "" {
      SameFolding(raw[1..], other[1..]);
    }
  }

  lemma {:induction false} CleanedChar(s: string, c: char)
    requires c in s && !IsSpace(c) && c !in {'-', '(', ')'}
    ensures FoldDigit(c) in Clean(s)
  {
    assert s == [s[0]] + s[1..];
    CleanConcat([s[0]], s[1..]);
    if c == s[0] {
      FlatOne(DigitTable, c);
      FlatOne(NoiseTable, FoldDigit(c));
      assert Clean([c]) == [FoldDigit(c)];
    } else {
      CleanedChar(s[1..], c);
    }
  }

  /** Nothing is accepted by leaving characters out: every character of an
      accepted text is a digit of the three scripts, a plus sign, whitespace, a
      hyphen or a parenthesis. The result is 09 and nine more ASCII digits. */
  lemma NothingElseIsAccepted(raw: string, c: char)
    requires Normalize(Some(raw)).Ok? && c in raw
    ensures IsDigit(FoldDigit(c)) || c == '+' || IsSpace(c) || c in {'-', '(', ')'}
    ensures var v := Normalize(Some(raw)).value;
            |v| == 11 && v[0] == '0' && v[1] == '9' && forall i :: 0 <= i < 11 ==> '0' <= v[i] <= '9'
  {
    var v := Normalize(Some(raw)).value;
    AcceptedIff(raw, v);
    if !IsSpace(c) && c !in {'-', '(', ')'} {
      CleanedChar(raw, c);
      SpellingChars(v, Clean(raw), FoldDigit(c));
    }
  }

  lemma SpellingChars(v: string, w: string, c: char)
    requires IsCanonical(v) && w in Spellings(v) && c in w
    ensures IsDigit(c) || c == '+'
  {
    assert forall d :: d in v[1..] ==> d in v;
  }
}
