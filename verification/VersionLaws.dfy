/**
 What version comparison says about two strings, in terms of their characters alone: the
 class of the first character, whole numbers by their digits, whole words by their
 letters, and nothing of what stands in front of them both.
 */
module VersionLaws {
  import opened PyString
  import opened VersionCompare
  import opened VersionOrder

  // ----- Characters

  predicate Numeral(c: char) { '0' <= c <= '9' }

  predicate Alphabetic(c: char) { 'a' <= c <= 'z' || 'A' <= c <= 'Z' }

  predicate Mark(c: char) { c in {'~', '-', '^', '.'} }

  lemma Classes(c: char)
    ensures IsDigit(c) == Numeral(c) && IsLetter(c) == Alphabetic(c) && IsSeparator(c) == Mark(c)
    ensures IsValid(c) == (Numeral(c) || Alphabetic(c) || Mark(c))
  {
  }

  /** Any other character is skipped. */
  lemma OthersAreSkipped(u: char, x: string, y: string)
    requires !Numeral(u) && !Alphabetic(u) && !Mark(u)
    ensures Compare([u] + x, y) == Compare(x, y) && Compare(y, [u] + x) == Compare(y, x)
  {
    hide PassStripped;
    assert ([u] + x)[1..] == x;
    assert Strip([u] + x) == Strip(x);
    assert Pass([u] + x, y) == Pass(x, y) && Pass(y, [u] + x) == Pass(y, x);
  }

  // ----- The first character

  ghost predicate StartsIn(s: string, p: char -> bool) {
    s != "" && p(s[0])
  }

  /** `~` sorts before the end, and the end before `-`, `^`, `.`, letters and numbers. */
  ghost function Rank(s: string): nat
    requires s == "" || Numeral(s[0]) || Alphabetic(s[0]) || Mark(s[0])
  {
    if s == "" then 1
    else
      match s[0]
      case '~' => 0
      case '-' => 2
      case '^' => 3
      case '.' => 4
      case c => if '1' <= c <= '9' then 6 else 5
  }

  ghost predicate Ranked(s: string) {
    s == "" || Numeral(s[0]) || Alphabetic(s[0]) || Mark(s[0])
  }

  lemma FirstCharacterDecides(x: string, y: string)
    requires Ranked(x) && Ranked(y) && Rank(x) < Rank(y)
    requires !(StartsIn(x, Numeral) && StartsIn(y, Numeral))
    ensures Compare(x, y) == -1 && Compare(y, x) == 1
    ensures Lt(x, y) && !Lt(y, x) && Le(x, y) && !Eq(x, y)
  {
    CompareSwap(x, y);
    if StartsIn(y, Numeral) && Rank(y) == 6 {
      PositiveFromFirst(y);
    }
    hide Number, DigitCount, LetterCount;
    assert Pass(x, y) == Decided(-1);
  }

  // ----- Numbers by their digits

  ghost predicate AllIn(s: string, p: char -> bool) {
    forall i :: 0 <= i < |s| ==> p(s[i])
  }

  ghost function DropZeros(s: string): (r: string)
    ensures |r| <= |s|
    ensures AllIn(s, Numeral) ==> AllIn(r, Numeral)
    ensures r == "" || r[0] != '0'
  {
    if s != "" && s[0] == '0' then DropZeros(s[1..]) else s
  }

  /** Without leading zeros, the longer number is the bigger one, and equally long ones compare as text. */
  ghost function CompareDigits(s: string, t: string): int {
    var a, b := DropZeros(s), DropZeros(t);
    if |a| < |b| then -1 else if |a| > |b| then 1 else CompareText(a, b)
  }

  lemma {:induction false} NumberFromFirst(s: string)
    requires AllIn(s, Numeral) && s != "" && s[0] != '0'
    ensures Number(s) > 0
    decreases |s|
  {
    if |s| == 1 {
    } else {
      NumberFromFirst(s[..|s| - 1]);
    }
  }

  lemma PositiveFromFirst(s: string)
    requires s != "" && '1' <= s[0] <= '9'
    ensures DigitValue(s) > 0 && DigitCount(s) > 0
  {
    NumberFromFirst(s[..DigitCount(s)]);
  }

  lemma {:induction false} LongerIsBigger(s: string, t: string)
    requires AllIn(s, Numeral) && AllIn(t, Numeral) && |s| > |t| && s[0] != '0'
    ensures Number(s) > Number(t)
    decreases |s|
  {
    if t == "" {
      NumberFromFirst(s);
    } else {
      LongerIsBigger(s[..|s| - 1], t[..|t| - 1]);
    }
  }

  lemma {:induction false} TextSnoc(s: string, t: string, a: char, b: char)
    requires |s| == |t|
    ensures
      var r := CompareText(s, t);
      CompareText(s + [a], t + [b]) == if r != 0 then r else if a < b then -1 else if a > b then 1 else 0
    decreases |s|
  {
    if s == "" {
    } else {
      assert (s + [a])[1..] == s[1..] + [a] && (t + [b])[1..] == t[1..] + [b];
      TextSnoc(s[1..], t[1..], a, b);
    }
  }

  lemma {:induction false} SameLengthAsText(s: string, t: string)
    requires AllIn(s, Numeral) && AllIn(t, Numeral) && |s| == |t|
    ensures
      var r := CompareText(s, t);
      (r == -1 <==> Number(s) < Number(t)) && (r == 1 <==> Number(s) > Number(t))
    decreases |s|
  {
    if s == "" {
    } else {
      var n := |s| - 1;
      SameLengthAsText(s[..n], t[..n]);
      TextSnoc(s[..n], t[..n], s[n], t[n]);
      assert s == s[..n] + [s[n]] && t == t[..n] + [t[n]];
    }
  }

  lemma {:induction false} ZeroInFront(s: string)
    requires AllIn(s, Numeral) && s != "" && s[0] == '0'
    ensures Number(s[1..]) == Number(s)
    decreases |s|
  {
    if |s| == 1 {
      assert s[..0] == "";
    } else {
      var n := |s| - 1;
      ZeroInFront(s[..n]);
      assert s[..n][1..] == s[1..][..n - 1];
    }
  }

  lemma {:induction false} ZerosInFront(s: string)
    requires AllIn(s, Numeral)
    ensures Number(DropZeros(s)) == Number(s)
    decreases |s|
  {
    if s == "" || s[0] != '0' {
    } else {
      ZeroInFront(s);
      ZerosInFront(s[1..]);
    }
  }

  /** The comparison of digits is the comparison of the numbers they spell. */
  lemma DigitsSpellNumbers(s: string, t: string)
    requires AllIn(s, Numeral) && AllIn(t, Numeral)
    ensures
      var r := CompareDigits(s, t);
      r == if Number(s) < Number(t) then -1 else if Number(s) > Number(t) then 1 else 0
  {
    hide Number, CompareText;
    ZerosInFront(s);
    ZerosInFront(t);
    var a, b := DropZeros(s), DropZeros(t);
    if |a| < |b| {
      LongerIsBigger(b, a);
    } else if |a| > |b| {
      LongerIsBigger(a, b);
    } else {
      SameLengthAsText(a, b);
    }
  }

  lemma {:induction false} RunOfDigits(s: string, x: string)
    requires AllIn(s, Numeral) && !StartsIn(x, Numeral)
    ensures DigitCount(s + x) == |s| && (s + x)[..|s|] == s && DropDigits(s + x) == x
    decreases |s|
  {
    if s == "" {
      assert s + x == x;
    } else {
      assert (s + x)[1..] == s[1..] + x;
      RunOfDigits(s[1..], x);
    }
  }

  lemma {:induction false} RunOfLetters(s: string, x: string)
    requires AllIn(s, Alphabetic) && !StartsIn(x, Alphabetic)
    ensures LetterCount(s + x) == |s| && Letters(s + x) == s && DropLetters(s + x) == x
    decreases |s|
  {
    if s == "" {
      assert s + x == x;
    } else {
      assert (s + x)[1..] == s[1..] + x;
      RunOfLetters(s[1..], x);
    }
  }

  /** Two numbers at the front decide, or leave it to what follows them. */
  lemma NumbersDecide(s: string, x: string, t: string, y: string)
    requires s != "" && t != "" && AllIn(s, Numeral) && AllIn(t, Numeral)
    requires !StartsIn(x, Numeral) && !StartsIn(y, Numeral)
    ensures
      var r := CompareDigits(s, t);
      Compare(s + x, t + y) == if r != 0 then r else Compare(x, y)
  {
    hide Number, DigitCount, CompareDigits, CompareLetters, DropDigits;
    RunOfDigits(s, x);
    RunOfDigits(t, y);
    DigitsSpellNumbers(s, t);
    PassPlain("", s + x, t + y);
    assert "" + (s + x) == s + x && "" + (t + y) == t + y;
  }

  /** Two words at the front decide, or leave it to what follows them. */
  lemma WordsDecide(s: string, x: string, t: string, y: string)
    requires s != "" && t != "" && AllIn(s, Alphabetic) && AllIn(t, Alphabetic)
    requires !StartsIn(x, Alphabetic) && !StartsIn(y, Alphabetic)
    ensures
      var r := CompareText(s, t);
      Compare(s + x, t + y) == if r != 0 then r else Compare(x, y)
  {
    hide LetterCount, CompareText, CompareNumbers, Letters, DropLetters;
    RunOfLetters(s, x);
    RunOfLetters(t, y);
    PassPlain("", s + x, t + y);
    assert "" + (s + x) == s + x && "" + (t + y) == t + y;
  }

  /** Zeros against a word count for nothing. */
  lemma ZerosAgainstWord(z: string, x: string, y: string)
    requires z != "" && (forall i :: 0 <= i < |z| ==> z[i] == '0') && !StartsIn(x, Numeral) && StartsIn(y, Alphabetic)
    ensures Compare(z + x, y) == Compare(x, y)
  {
    hide Number, DigitCount, CompareLetters, DropDigits;
    RunOfDigits(z, x);
    RunOfDigits("", y);
    assert "" + y == y;
    ZerosInFront(z);
    AllZeros(z);
    PassPlain("", z + x, y);
    assert "" + (z + x) == z + x;
  }

  lemma {:induction false} AllZeros(z: string)
    requires forall i :: 0 <= i < |z| ==> z[i] == '0'
    ensures DropZeros(z) == ""
    decreases |z|
  {
    if z == "" {
    } else {
      AllZeros(z[1..]);
    }
  }

  // ----- A common beginning

  /** A number or a word begins. */
  ghost predicate Begins(s: string) {
    StartsIn(s, Numeral) || StartsIn(s, Alphabetic)
  }

  /** No number, word or separator of `p` goes on in `s`. */
  ghost predicate EndsBefore(p: string, s: string) {
    p == "" ||
    var c := p[|p| - 1];
    || (Mark(c) && Begins(s))
    || (Numeral(c) && !StartsIn(s, Numeral))
    || (Alphabetic(c) && !StartsIn(s, Alphabetic))
  }

  lemma {:induction false} StripCommon(p: string, s: string)
    requires p != "" && EndsBefore(p, s)
    ensures Strip(p + s) == Strip(p) + s && Strip(p) != "" && EndsBefore(Strip(p), s)
    decreases |p|
  {
    if IsValid(p[0]) {
    } else {
      assert (p + s)[1..] == p[1..] + s;
      StripCommon(p[1..], s);
    }
  }

  /** What is left of the beginning after a separator still ends there. */
  lemma SkipKeeps(c: char, p: string, s: string)
    requires Mark(c) && EndsBefore(p, s) && (p == "" ==> Begins(s))
    ensures EndsBefore(Skip(c, p), s) && (Skip(c, p) == "" ==> Begins(s))
    ensures StartsWith(p + s, c) == StartsWith(p, c)
    ensures StartsWith(p, c) ==> (p + s)[1..] == p[1..] + s
  {
    if p == "" {
      assert p + s == s;
    } else {
      assert (p + s)[0] == p[0];
    }
  }

  lemma SkipCommon(c: char, p: string, s: string, t: string)
    requires Mark(c) && EndsBefore(p, s) && EndsBefore(p, t) && (p == "" ==> Begins(s) && Begins(t))
    ensures
      var q := Skip(c, p);
      && SkipBoth(c, p + s, p + t) == Go(q + s, q + t)
      && EndsBefore(q, s) && EndsBefore(q, t) && (q == "" ==> Begins(s) && Begins(t))
  {
    hide StartsWith, EndsBefore, Begins, Mark;
    SkipKeeps(c, p, s);
    SkipKeeps(c, p, t);
  }

  lemma SeparatorsCommon(p: string, s: string, t: string)
    requires p != "" && EndsBefore(p, s) && EndsBefore(p, t)
    ensures
      var q := Core(p);
      && SkipSeparators(p + s, p + t) == Go(q + s, q + t)
      && EndsBefore(q, s) && EndsBefore(q, t) && (q == "" ==> Begins(s) && Begins(t))
  {
    hide SkipBoth, Skip, EndsBefore;
    SkipCommon('~', p, s, t);
    var p1 := Skip('~', p);
    SkipCommon('-', p1, s, t);
    var p2 := Skip('-', p1);
    SkipCommon('^', p2, s, t);
    SkipCommon('.', Skip('^', p2), s, t);
  }

  lemma {:induction false} DigitsCommon(p: string, s: string)
    requires p != "" && EndsBefore(p, s)
    ensures DigitCount(p + s) == DigitCount(p)
    decreases |p|
  {
    if |p| == 1 {
      assert (p + s)[1..] == s && p[1..] == "";
    } else {
      assert (p + s)[1..] == p[1..] + s;
      DigitsCommon(p[1..], s);
    }
  }

  lemma {:induction false} LettersCommon(p: string, s: string)
    requires p != "" && EndsBefore(p, s)
    ensures LetterCount(p + s) == LetterCount(p)
    decreases |p|
  {
    if |p| == 1 {
      assert (p + s)[1..] == s && p[1..] == "";
    } else {
      assert (p + s)[1..] == p[1..] + s;
      LettersCommon(p[1..], s);
    }
  }

  lemma AlnumCommon(p: string, s: string, t: string)
    requires p != "" && EndsBefore(p, s) && EndsBefore(p, t)
    ensures
      var q := if DigitCount(p) > 0 then DropDigits(p) else DropLetters(p);
      CompareAlnum(p + s, p + t) == Go(q + s, q + t) && EndsBefore(q, s) && EndsBefore(q, t)
  {
    hide Number, DigitCount, LetterCount;
    DigitsCommon(p, s);
    DigitsCommon(p, t);
    LettersCommon(p, s);
    LettersCommon(p, t);
    CompareTextEqual(Letters(p + s), Letters(p + t));
    var d, l := DigitCount(p), LetterCount(p);
    assert (p + s)[..d] == p[..d] && (p + t)[..d] == p[..d];
    assert (p + s)[..l] == p[..l] && (p + t)[..l] == p[..l];
    assert (p + s)[d..] == p[d..] + s && (p + t)[d..] == p[d..] + t;
    assert (p + s)[l..] == p[l..] + s && (p + t)[l..] == p[l..] + t;
  }

  /** A common beginning that ends where a number, word or separator ends makes no difference. */
  lemma {:induction false} CommonBeginning(p: string, s: string, t: string)
    requires EndsBefore(p, s) && EndsBefore(p, t)
    ensures Compare(p + s, p + t) == Compare(s, t)
    decreases |p|
  {
    if p == "" {
      assert p + s == s && p + t == t;
    } else {
      hide SkipSeparators, CompareAlnum, EndsBefore, Core;
      StripCommon(p, s);
      StripCommon(p, t);
      var q := Strip(p);
      SeparatorsCommon(q, s, t);
      var d := Core(q);
      if d == "" {
        assert d + s == s && d + t == t && "" + s == s && "" + t == t;
        PassPlain("", s, t);
      } else {
        AlnumCommon(d, s, t);
        var r := if DigitCount(d) > 0 then DropDigits(d) else DropLetters(d);
        assert Pass(p + s, p + t) == Go(r + s, r + t);
        CommonBeginning(r, s, t);
      }
    }
  }

  /**
   So numbers are compared as numbers wherever they stand: the one with more digits is the
   bigger one, unless they are zeros in front, and equally long ones compare as text.
   */
  lemma NumbersAnywhere(p: string, s: string, t: string)
    requires s != "" && t != "" && AllIn(s, Numeral) && AllIn(t, Numeral)
    requires p == "" || Mark(p[|p| - 1]) || Alphabetic(p[|p| - 1])
    ensures |s| > |t| && s[0] != '0' ==> Compare(p + s, p + t) == 1
    ensures |s| == |t| ==> Compare(p + s, p + t) == CompareText(s, t)
    ensures Compare(p + ("0" + s), p + s) == 0
  {
    hide Number, CompareText, Compare;
    CommonBeginning(p, s, t);
    CommonBeginning(p, "0" + s, s);
    assert s + "" == s && t + "" == t && ("0" + s) + "" == "0" + s;
    NumbersDecide(s, "", t, "");
    NumbersDecide("0" + s, "", s, "");
    CompareSelf("");
    DigitsSpellNumbers(s, t);
    if |s| > |t| && s[0] != '0' {
      LongerIsBigger(s, t);
    } else if |s| == |t| {
      SameLengthAsText(s, t);
    }
    assert ("0" + s)[1..] == s;
    CompareTextEqual(DropZeros(s), DropZeros(s));
  }

  /** 1.10 is above 1.9. */
  lemma TenIsAboveNine()
    ensures Compare("1.10", "1.9") == 1
  {
    CommonBeginning("1.", "10", "9");
    NumbersDecide("10", "", "9", "");
    assert "1." + "10" == "1.10" && "1." + "9" == "1.9" && "10" + "" == "10" && "9" + "" == "9";
  }
}
