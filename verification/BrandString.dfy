/**
 `BrandString::find_freq`: a hand-written Moore machine, against the regular expression
 its documentation gives for it.
 */
module BrandString {
  import opened Basics

  // ----- The regular expression

  datatype Regex = Class(chars: set<char>) | Cat(first: Regex, second: Regex) | Plus(body: Regex)

  /** The language of a regular expression. */
  ghost predicate InLanguage(re: Regex, s: string)
    decreases re, |s|
  {
    match re
    case Class(chars) => |s| == 1 && s[0] in chars
    case Cat(r1, r2) => exists k :: 0 <= k <= |s| && InLanguage(r1, s[..k]) && InLanguage(r2, s[k..])
    case Plus(r) =>
      || InLanguage(r, s)
      || exists k :: 0 < k < |s| && InLanguage(r, s[..k]) && InLanguage(Plus(r), s[k..])
  }

  ghost const DIGITS: Regex := Plus(Class({'0', '1', '2', '3', '4', '5', '6', '7', '8', '9'}))

  /** `[0-9]+\.[0-9]+[MGT]Hz` */
  ghost const FREQUENCY: Regex :=
    Cat(DIGITS, Cat(Class({'.'}), Cat(DIGITS, Cat(Class({'M', 'G', 'T'}), Cat(Class({'H'}), Class({'z'}))))))

  // ----- The same, by positions

  predicate IsDigit(c: char) { '0' <= c <= '9' }

  predicate IsUnit(c: char) { c == 'M' || c == 'G' || c == 'T' }

  ghost predicate AllDigits(s: string, i: int, j: int) {
    0 <= i <= j <= |s| && forall x :: i <= x < j ==> IsDigit(s[x])
  }

  /** Digits from `a`, the point at `k`, digits, the unit at `l`, then `Hz`. */
  ghost predicate IsMatch(s: string, a: int, k: int, l: int) {
    && a < k && AllDigits(s, a, k) && k + 1 < l < |s| - 2 && s[k] == '.' && AllDigits(s, k + 1, l)
    && IsUnit(s[l]) && s[l + 1] == 'H' && s[l + 2] == 'z'
  }

  /** `s[a..b]` is the first match: it matches, and no match starts before it. */
  ghost predicate IsFirstMatch(s: string, a: nat, b: nat) {
    && a <= b <= |s| && InLanguage(FREQUENCY, s[a..b])
    && forall a', b' :: 0 <= a' <= b' <= |s| && InLanguage(FREQUENCY, s[a'..b']) ==> a <= a'
  }

  lemma {:induction false} DigitsLanguage(s: string)
    ensures InLanguage(DIGITS, s) <==> s != "" && AllDigits(s, 0, |s|)
    decreases |s|
  {
    var one := DIGITS.body;
    assert forall t :: InLanguage(one, t) <==> |t| == 1 && IsDigit(t[0]);
    if InLanguage(DIGITS, s) && !InLanguage(one, s) {
      var k :| 0 < k < |s| && InLanguage(one, s[..k]) && InLanguage(DIGITS, s[k..]);
      DigitsLanguage(s[k..]);
      assert forall x :: k <= x < |s| ==> s[x] == s[k..][x - k];
    }
    if |s| > 1 && AllDigits(s, 0, |s|) {
      DigitsLanguage(s[1..]);
      assert InLanguage(one, s[..1]) && InLanguage(DIGITS, s[1..]);
    }
  }

  lemma CharLanguage(chars: set<char>, r: Regex, s: string)
    ensures InLanguage(Cat(Class(chars), r), s) <==> s != "" && s[0] in chars && InLanguage(r, s[1..])
  {
    if s != "" && s[0] in chars && InLanguage(r, s[1..]) {
      assert InLanguage(Class(chars), s[..1]) && InLanguage(r, s[1..]);
    }
  }

  lemma DigitsThen(r: Regex, s: string)
    ensures InLanguage(Cat(DIGITS, r), s) <==> exists k :: 0 < k <= |s| && AllDigits(s, 0, k) && InLanguage(r, s[k..])
  {
    forall k | 0 <= k <= |s| ensures InLanguage(DIGITS, s[..k]) <==> 0 < k && AllDigits(s, 0, k) {
      DigitsLanguage(s[..k]);
      assert forall x :: 0 <= x < k ==> s[..k][x] == s[x];
    }
    if exists k :: 0 < k <= |s| && AllDigits(s, 0, k) && InLanguage(r, s[k..]) {
      var k :| 0 < k <= |s| && AllDigits(s, 0, k) && InLanguage(r, s[k..]);
      assert InLanguage(DIGITS, s[..k]) && InLanguage(r, s[k..]);
    }
  }

  lemma UnitLanguage(s: string)
    ensures InLanguage(FREQUENCY.second.second.second, s) <==> |s| == 3 && IsUnit(s[0]) && s[1] == 'H' && s[2] == 'z'
  {
    CharLanguage({'M', 'G', 'T'}, Cat(Class({'H'}), Class({'z'})), s);
    if s != "" {
      CharLanguage({'H'}, Class({'z'}), s[1..]);
    }
  }

  /** The last three parts: digits, then the unit. */
  lemma TailLanguage(s: string)
    ensures InLanguage(FREQUENCY.second.second, s) <==>
            && |s| > 3 && AllDigits(s, 0, |s| - 3)
            && IsUnit(s[|s| - 3]) && s[|s| - 2] == 'H' && s[|s| - 1] == 'z'
  {
    hide InLanguage;
    var unit := FREQUENCY.second.second.second;
    DigitsThen(unit, s);
    forall k | 0 < k <= |s|
      ensures InLanguage(unit, s[k..]) <==> |s| - k == 3 && IsUnit(s[|s| - 3]) && s[|s| - 2] == 'H' && s[|s| - 1] == 'z'
    {
      UnitLanguage(s[k..]);
    }
  }

  ghost predicate MatchesTo(s: string, a: int, b: int) {
    exists k, l :: IsMatch(s, a, k, l) && b == l + 3
  }

  lemma SplitLanguage(s: string, a: nat, b: nat, k: nat)
    requires a + k <= b <= |s| && 0 < k
    ensures AllDigits(s[a..b], 0, k) && InLanguage(FREQUENCY.second, s[a..b][k..]) <==> IsMatch(s, a, a + k, b - 3)
  {
    hide InLanguage;
    var t := s[a..b];
    var u := t[k..];
    CharLanguage({'.'}, FREQUENCY.second.second, u);
    if u != "" {
      var v := u[1..];
      TailLanguage(v);
      assert v == s[a + k + 1..b];
      assert AllDigits(t, 0, k) <==> AllDigits(s, a, a + k);
      assert |v| > 3 ==> (AllDigits(v, 0, |v| - 3) <==> AllDigits(s, a + k + 1, b - 3));
    }
  }

  /** The language and the positions say the same about every substring. */
  lemma SubstringLanguage(s: string, a: nat, b: nat)
    requires a <= b <= |s|
    ensures InLanguage(FREQUENCY, s[a..b]) <==> MatchesTo(s, a, b)
  {
    hide InLanguage, IsMatch;
    var t := s[a..b];
    DigitsThen(FREQUENCY.second, t);
    if InLanguage(FREQUENCY, t) {
      var k :| 0 < k <= |t| && AllDigits(t, 0, k) && InLanguage(FREQUENCY.second, t[k..]);
      SplitLanguage(s, a, b, k);
    }
    if MatchesTo(s, a, b) {
      var k, l :| IsMatch(s, a, k, l) && b == l + 3;
      MatchIsInside(s, a, k, l);
      SplitLanguage(s, a, b, k - a);
      assert AllDigits(t, 0, k - a) && InLanguage(FREQUENCY.second, t[k - a..]);
    }
  }

  lemma MatchIsInside(s: string, a: int, k: int, l: int)
    requires IsMatch(s, a, k, l)
    ensures 0 <= a < k < l && l + 3 <= |s|
  {
  }

  // ----- The machine

  datatype Stage =
    | Initial | FoundFreqIntPart | FoundFreqDecimalPoint | FoundFreqDecimalPart | FoundFreqUnitSize | FoundH

  /** What the machine has read when it is in a stage other than `Initial`, standing at `i`. */
  ghost predicate Read(s: string, stage: Stage, start: int, decimal: int, i: int) {
    match stage
    case Initial => true
    case FoundFreqIntPart => start < i && AllDigits(s, start, i)
    case FoundFreqDecimalPoint => start < i - 1 && AllDigits(s, start, i - 1) && i <= |s| && s[i - 1] == '.'
    case FoundFreqDecimalPart => ReadDecimal(s, start, decimal, i)
    case FoundFreqUnitSize => ReadDecimal(s, start, decimal, i - 1) && i <= |s| && IsUnit(s[i - 1])
    case FoundH => ReadDecimal(s, start, decimal, i - 2) && i <= |s| && IsUnit(s[i - 2]) && s[i - 1] == 'H'
  }

  ghost predicate ReadDecimal(s: string, start: int, decimal: int, i: int) {
    start < decimal - 1 < i - 1 && AllDigits(s, start, decimal - 1) && AllDigits(s, decimal, i) && s[decimal - 1] == '.'
  }

  /** Every match starts at `lo` or later and ends after `i`. */
  ghost predicate Ahead(s: string, lo: int, i: int) {
    forall a, k, l :: IsMatch(s, a, k, l) ==> lo <= a && i < l + 3
  }

  function Lowest(stage: Stage, start: nat, i: nat): nat {
    if stage == Initial then i else start
  }

  /** One character: the new stage, start and decimal start. */
  function Advance(c: char, i: nat, stage: Stage, start: nat, decimal: nat): (Stage, nat, nat) {
    match stage
    case Initial => if IsDigit(c) then (FoundFreqIntPart, i, decimal) else (Initial, start, decimal)
    case FoundFreqIntPart =>
      if IsDigit(c) then (stage, start, decimal)
      else if c == '.' then (FoundFreqDecimalPoint, start, decimal)
      else (Initial, start, decimal)
    case FoundFreqDecimalPoint =>
      if IsDigit(c) then (FoundFreqDecimalPart, start, i) else (Initial, start, decimal)
    case FoundFreqDecimalPart =>
      if IsDigit(c) then (stage, start, decimal)
      else if c == '.' then (FoundFreqDecimalPoint, decimal, decimal)
      else if IsUnit(c) then (FoundFreqUnitSize, start, decimal)
      else (Initial, start, decimal)
    case FoundFreqUnitSize =>
      if c == 'H' then (FoundH, start, decimal)
      else if IsDigit(c) then (FoundFreqIntPart, i, decimal)
      else (Initial, start, decimal)
    case FoundH =>
      if IsDigit(c) then (FoundFreqIntPart, i, decimal) else (Initial, start, decimal)
  }

  lemma AdvanceKeepsAhead(s: string, i: nat, stage: Stage, start: nat, decimal: nat)
    requires i < |s| && Read(s, stage, start, decimal, i) && Ahead(s, Lowest(stage, start, i), i)
    requires !(stage == FoundH && s[i] == 'z')
    ensures
      var (stage', start', decimal') := Advance(s[i], i, stage, start, decimal);
      Read(s, stage', start', decimal', i + 1) && Ahead(s, Lowest(stage', start', i + 1), i + 1)
  {
  }

  /**
   Returns the first match of the documented expression anywhere in the buffer, restarts
   included, and nothing exactly when no substring matches.
   */
  method FindFreq(bytes: string) returns (r: Option<string>)
    ensures r.None? <==> forall a, b :: 0 <= a <= b <= |bytes| ==> !InLanguage(FREQUENCY, bytes[a..b])
    ensures r.Some? ==> exists a: nat, b: nat :: IsFirstMatch(bytes, a, b) && r.value == bytes[a..b]
  {
    hide InLanguage, IsMatch, Read, Advance;
    var start: nat, decimal: nat := 0, 0;
    var stage := Initial;
    InitiallyAhead(bytes);
    for i := 0 to |bytes|
      invariant Read(bytes, stage, start, decimal, i)
      invariant Ahead(bytes, Lowest(stage, start, i), i)
    {
      if stage == FoundH && bytes[i] == 'z' {
        FirstMatchFound(bytes, start, decimal, i);
        return Some(bytes[start..i + 1]);
      }
      AdvanceKeepsAhead(bytes, i, stage, start, decimal);
      var next := Advance(bytes[i], i, stage, start, decimal);
      stage, start, decimal := next.0, next.1, next.2;
    }
    forall a, b | 0 <= a <= b <= |bytes| ensures !InLanguage(FREQUENCY, bytes[a..b]) {
      SubstringLanguage(bytes, a, b);
    }
    return None;
  }

  lemma InitiallyAhead(s: string)
    ensures Read(s, Initial, 0, 0, 0) && Ahead(s, 0, 0)
  {
  }

  lemma FirstMatchFound(s: string, start: nat, decimal: nat, i: nat)
    requires i < |s| && Read(s, FoundH, start, decimal, i) && s[i] == 'z' && Ahead(s, start, i)
    ensures start <= i && IsFirstMatch(s, start, i + 1)
  {
    hide InLanguage;
    assert IsMatch(s, start, decimal - 1, i - 2);
    SubstringLanguage(s, start, i + 1);
    forall a, b | 0 <= a <= b <= |s| && InLanguage(FREQUENCY, s[a..b]) ensures start <= a {
      SubstringLanguage(s, a, b);
    }
  }

  /** From a given start there is only one match, so the first match is one slice. */
  lemma FirstMatchIsUnique(s: string, a: nat, b: nat, a': nat, b': nat)
    requires IsFirstMatch(s, a, b) && IsFirstMatch(s, a', b')
    ensures a == a' && b == b'
  {
    hide InLanguage;
    SubstringLanguage(s, a, b);
    SubstringLanguage(s, a', b');
    var k, l :| IsMatch(s, a, k, l) && b == l + 3;
    var k', l' :| IsMatch(s, a', k', l') && b' == l' + 3;
    assert k == k';
  }
}
