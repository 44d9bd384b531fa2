/**
 `GenericVersion.compare_versions`: one pass of its `while True` loop as a function, the
 comparison as its iteration, and the loop itself as a method.
 */
module VersionCompare {
  import opened PyString

  // ----- Characters and prefixes

  predicate IsDigit(c: char) { '0' <= c <= '9' }

  predicate IsLetter(c: char) { 'a' <= c <= 'z' || 'A' <= c <= 'Z' }

  predicate IsSeparator(c: char) { c == '~' || c == '-' || c == '^' || c == '.' }

  predicate IsValid(c: char) { IsDigit(c) || IsLetter(c) || IsSeparator(c) }

  /** `rstrip_invalid_version_chars`, which strips on the left. */
  function Strip(s: string): (r: string)
    ensures |r| <= |s|
    ensures r != "" ==> IsValid(r[0])
    ensures s != "" && IsValid(s[0]) ==> r == s
  {
    if s == "" || IsValid(s[0]) then s else Strip(s[1..])
  }

  function DigitCount(s: string): (n: nat)
    ensures n <= |s|
    ensures n == 0 <==> s == "" || !IsDigit(s[0])
    ensures forall i :: 0 <= i < n ==> IsDigit(s[i])
    ensures n < |s| ==> !IsDigit(s[n])
  {
    if s != "" && IsDigit(s[0]) then 1 + DigitCount(s[1..]) else 0
  }

  function LetterCount(s: string): (n: nat)
    ensures n <= |s|
    ensures n == 0 <==> s == "" || !IsLetter(s[0])
    ensures forall i :: 0 <= i < n ==> IsLetter(s[i])
    ensures n < |s| ==> !IsLetter(s[n])
  {
    if s != "" && IsLetter(s[0]) then 1 + LetterCount(s[1..]) else 0
  }

  function DigitOf(c: char): nat
    requires IsDigit(c)
  {
    c as int - '0' as int
  }

  /** `int(digit_prefix)`, with the empty prefix as 0. */
  function Number(s: string): nat
    requires forall i :: 0 <= i < |s| ==> IsDigit(s[i])
  {
    if s == "" then 0 else 10 * Number(s[..|s| - 1]) + DigitOf(s[|s| - 1])
  }

  function DigitValue(s: string): nat {
    Number(s[..DigitCount(s)])
  }

  function Letters(s: string): string {
    s[..LetterCount(s)]
  }

  function DropDigits(s: string): (r: string)
    ensures |r| == |s| - DigitCount(s)
  {
    s[DigitCount(s)..]
  }

  function DropLetters(s: string): (r: string)
    ensures |r| == |s| - LetterCount(s)
  {
    s[LetterCount(s)..]
  }

  // ----- One pass of the loop

  /** `Decided` is a `return`; `Go` carries what is left of both strings. */
  datatype Outcome = Decided(result: int) | Go(a: string, b: string) {
    predicate IsFailure() { Decided? }
    function PropagateFailure(): Outcome requires Decided? { this }
    function Extract(): (string, string) requires Go? { (a, b) }
  }

  predicate StartsWith(s: string, c: char) {
    s != "" && s[0] == c
  }

  function SkipBoth(c: char, a: string, b: string): (r: Outcome)
    ensures r.Go? ==> Shorter(a, b, r.a, r.b) || (r == Go(a, b) && !StartsWith(a, c) && !StartsWith(b, c))
    ensures r.Decided? ==> -1 <= r.result <= 1
  {
    if StartsWith(a, c) && StartsWith(b, c) then Go(a[1..], b[1..])
    else if StartsWith(a, c) then Decided(-1)
    else if StartsWith(b, c) then Decided(1)
    else Go(a, b)
  }

  ghost predicate Shorter(a: string, b: string, a': string, b': string) {
    |a'| + |b'| < |a| + |b|
  }

  function CheckEnds(a: string, b: string): Outcome {
    if a == "" && b == "" then Decided(0)
    else if a == "" then Decided(-1)
    else if b == "" then Decided(1)
    else Go(a, b)
  }

  function CompareNumbers(a: string, b: string): (r: Outcome)
    ensures r.Go? ==> |r.a| + DigitCount(a) == |a| && |r.b| + DigitCount(b) == |b|
    ensures r.Decided? ==> -1 <= r.result <= 1
  {
    if DigitValue(a) < DigitValue(b) then Decided(-1)
    else if DigitValue(a) > DigitValue(b) then Decided(1)
    else Go(DropDigits(a), DropDigits(b))
  }

  function CompareLetters(a: string, b: string): (r: Outcome)
    ensures r.Go? ==> |r.a| + LetterCount(a) == |a| && |r.b| + LetterCount(b) == |b|
    ensures r.Decided? ==> -1 <= r.result <= 1
  {
    var r := CompareText(Letters(a), Letters(b));
    if r != 0 then Decided(r) else Go(DropLetters(a), DropLetters(b))
  }

  function CompareAlnum(a: string, b: string): (r: Outcome)
    ensures r.Go? ==> |r.a| <= |a| && |r.b| <= |b|
    ensures r.Go? && a != "" && (IsDigit(a[0]) || IsLetter(a[0])) ==> Shorter(a, b, r.a, r.b)
    ensures r.Decided? ==> -1 <= r.result <= 1
  {
    if DigitCount(a) > 0 || DigitCount(b) > 0 then CompareNumbers(a, b) else CompareLetters(a, b)
  }

  // After each separator the pass falls through to the next check; it does not start over.

  function SkipCarets(a: string, b: string): (r: Outcome)
    ensures r.Go? ==> Shorter(a, b, r.a, r.b) || (r == Go(a, b) && !StartsWith(a, '.') && !StartsWith(a, '^'))
    ensures r.Decided? ==> -1 <= r.result <= 1
  {
    var (a, b) :- SkipBoth('^', a, b);
    SkipBoth('.', a, b)
  }

  function SkipDashes(a: string, b: string): (r: Outcome)
    ensures r.Go? ==>
              || Shorter(a, b, r.a, r.b)
              || (r == Go(a, b) && !StartsWith(a, '.') && !StartsWith(a, '^') && !StartsWith(a, '-'))
    ensures r.Decided? ==> -1 <= r.result <= 1
  {
    var (a, b) :- SkipBoth('-', a, b);
    SkipCarets(a, b)
  }

  function SkipSeparators(a: string, b: string): (r: Outcome)
    ensures r.Go? ==> Shorter(a, b, r.a, r.b) || (r == Go(a, b) && a != "" && !IsSeparator(a[0]))
    ensures r.Decided? ==> -1 <= r.result <= 1
  {
    var (a, b) :- SkipBoth('~', a, b);
    var (a, b) :- CheckEnds(a, b);
    SkipDashes(a, b)
  }

  function PassStripped(a: string, b: string): (r: Outcome)
    requires a != "" ==> IsValid(a[0])
    ensures r.Go? ==> Shorter(a, b, r.a, r.b)
    ensures r.Decided? ==> -1 <= r.result <= 1
  {
    var (a, b) :- SkipSeparators(a, b);
    CompareAlnum(a, b)
  }

  function Pass(v1: string, v2: string): (r: Outcome)
    ensures r.Go? ==> |r.a| + |r.b| < |v1| + |v2|
    ensures r.Decided? ==> -1 <= r.result <= 1
  {
    PassStripped(Strip(v1), Strip(v2))
  }

  function Compare(v1: string, v2: string): (r: int)
    ensures -1 <= r <= 1
    decreases |v1| + |v2|
  {
    match Pass(v1, v2)
    case Decided(r) => r
    case Go(a, b) => Compare(a, b)
  }

  // ----- The loop itself

  method RemoveBoth(c: char, v1: string, v2: string) returns (decided: bool, r: int, a: string, b: string)
    ensures SkipBoth(c, v1, v2) == if decided then Decided(r) else Go(a, b)
  {
    decided, r, a, b := false, 0, v1, v2;
    if StartsWith(v1, c) && StartsWith(v2, c) {
      a, b := v1[1..], v2[1..];
    } else if StartsWith(v1, c) {
      decided, r := true, -1;
    } else if StartsWith(v2, c) {
      decided, r := true, 1;
    }
  }

  /** The body of the loop: either a result, or the strings for the next iteration. */
  method Iterate(version1: string, version2: string) returns (decided: bool, r: int, v1: string, v2: string)
    ensures Pass(version1, version2) == if decided then Decided(r) else Go(v1, v2)
  {
    hide CompareAlnum, SkipBoth, SkipDashes, Strip;
    v1, v2 := Strip(version1), Strip(version2);
    decided, r, v1, v2 := RemoveBoth('~', v1, v2);
    if decided {
      return;
    }
    if v1 == "" && v2 == "" {
      return true, 0, v1, v2;
    } else if v1 == "" {
      return true, -1, v1, v2;
    } else if v2 == "" {
      return true, 1, v1, v2;
    }
    decided, r, v1, v2 := IterateSeparators(v1, v2);
    if !decided {
      decided, r, v1, v2 := IterateAlnum(v1, v2);
    }
  }

  method IterateSeparators(a: string, b: string) returns (decided: bool, r: int, v1: string, v2: string)
    ensures SkipDashes(a, b) == if decided then Decided(r) else Go(v1, v2)
  {
    hide SkipBoth;
    decided, r, v1, v2 := RemoveBoth('-', a, b);
    if decided {
      return;
    }
    decided, r, v1, v2 := RemoveBoth('^', v1, v2);
    if decided {
      return;
    }
    decided, r, v1, v2 := RemoveBoth('.', v1, v2);
  }

  method IterateAlnum(a: string, b: string) returns (decided: bool, r: int, v1: string, v2: string)
    ensures CompareAlnum(a, b) == if decided then Decided(r) else Go(v1, v2)
  {
    v1, v2 := a, b;
    var d1, d2 := v1[..DigitCount(v1)], v2[..DigitCount(v2)];
    if d1 != "" || d2 != "" {
      if Number(d1) < Number(d2) {
        return true, -1, v1, v2;
      } else if Number(d1) > Number(d2) {
        return true, 1, v1, v2;
      }
      return false, 0, v1[|d1|..], v2[|d2|..];
    }
    var l1, l2 := Letters(v1), Letters(v2);
    if CompareText(l1, l2) < 0 {
      return true, -1, v1, v2;
    } else if CompareText(l1, l2) > 0 {
      return true, 1, v1, v2;
    }
    return false, 0, v1[|l1|..], v2[|l2|..];
  }

  method CompareVersions(version1: string, version2: string) returns (r: int)
    ensures r == Compare(version1, version2)
  {
    hide Pass;
    var v1, v2 := version1, version2;
    while true
      invariant Compare(v1, v2) == Compare(version1, version2)
      decreases |v1| + |v2|
    {
      var decided: bool;
      decided, r, v1, v2 := Iterate(v1, v2);
      if decided {
        return;
      }
    }
  }

  // ----- Laws that hold for all strings

  ghost function Swap(o: Outcome): Outcome {
    match o
    case Decided(r) => Decided(-r)
    case Go(a, b) => Go(b, a)
  }

  lemma AlnumSwap(a: string, b: string)
    ensures CompareAlnum(b, a) == Swap(CompareAlnum(a, b))
  {
    hide CompareText, DigitCount, LetterCount;
    CompareTextSwap(Letters(a), Letters(b));
  }

  lemma BothSwap(c: char, a: string, b: string)
    ensures SkipBoth(c, b, a) == Swap(SkipBoth(c, a, b))
  {
  }

  lemma CaretsSwap(a: string, b: string)
    ensures SkipCarets(b, a) == Swap(SkipCarets(a, b))
  {
    hide SkipBoth;
    BothSwap('^', a, b);
    match SkipBoth('^', a, b)
    case Decided(_) =>
    case Go(a', b') => BothSwap('.', a', b');
  }

  lemma DashesSwap(a: string, b: string)
    ensures SkipDashes(b, a) == Swap(SkipDashes(a, b))
  {
    hide SkipBoth, SkipCarets;
    BothSwap('-', a, b);
    match SkipBoth('-', a, b)
    case Decided(_) =>
    case Go(a', b') => CaretsSwap(a', b');
  }

  lemma SkipSwap(a: string, b: string)
    ensures SkipSeparators(b, a) == Swap(SkipSeparators(a, b))
  {
    hide SkipBoth, SkipDashes;
    BothSwap('~', a, b);
    match SkipBoth('~', a, b)
    case Decided(_) =>
    case Go(a', b') => DashesSwap(a', b');
  }

  lemma PassSwap(v1: string, v2: string)
    ensures Pass(v2, v1) == Swap(Pass(v1, v2))
  {
    hide CompareAlnum, SkipSeparators;
    var a, b := Strip(v1), Strip(v2);
    SkipSwap(a, b);
    match SkipSeparators(a, b)
    case Decided(_) =>
    case Go(a', b') => AlnumSwap(a', b');
  }

  /** Swapping the arguments negates the result. */
  lemma {:induction false} CompareSwap(v1: string, v2: string)
    ensures Compare(v2, v1) == -Compare(v1, v2)
    decreases |v1| + |v2|
  {
    PassSwap(v1, v2);
    match Pass(v1, v2)
    case Decided(_) =>
    case Go(a, b) => CompareSwap(a, b);
  }

  lemma CompareSelf(v: string)
    ensures Compare(v, v) == 0
  {
    CompareSwap(v, v);
  }
}
