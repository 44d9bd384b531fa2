/**
 When version comparison is an order. Each string gets a sort key such that comparing
 two versions is comparing their keys lexicographically; where such keys exist the
 comparison is a total preorder, and where they do not it has cycles.
 */
module VersionOrder {
  import opened PyString
  import opened VersionCompare

  // ----- Lexicographic order

  ghost function Lex(x: seq<nat>, y: seq<nat>): (r: int)
    ensures -1 <= r <= 1
  {
    if x == [] && y == [] then 0
    else if x == [] then -1
    else if y == [] then 1
    else if x[0] != y[0] then (if x[0] < y[0] then -1 else 1)
    else Lex(x[1..], y[1..])
  }

  lemma LexTransitive(x: seq<nat>, y: seq<nat>, z: seq<nat>)
    requires Lex(x, y) <= 0 && Lex(y, z) <= 0
    ensures Lex(x, z) <= 0
  {
  }

  lemma {:induction false} LexAppend(p: seq<nat>, x: seq<nat>, y: seq<nat>)
    ensures Lex(p + x, p + y) == Lex(x, y)
    decreases |p|
  {
    if p == [] {
      assert p + x == x && p + y == y;
    } else {
      assert (p + x)[1..] == p[1..] + x && (p + y)[1..] == p[1..] + y;
      LexAppend(p[1..], x, y);
    }
  }

  /** `x` and `y` first differ at index `i`. */
  lemma {:induction false} LexAt(x: seq<nat>, y: seq<nat>, i: nat)
    requires i < |x| && i < |y| && x[..i] == y[..i] && x[i] != y[i]
    ensures Lex(x, y) == if x[i] < y[i] then -1 else 1
    decreases i
  {
    if i == 0 {
    } else {
      assert x[0] == x[..i][0] && y[0] == y[..i][0];
      assert x[1..][..i - 1] == x[..i][1..] && y[1..][..i - 1] == y[..i][1..];
      LexAt(x[1..], y[1..], i - 1);
    }
  }

  // ----- The key of a string

  /** Three families of strings, each with its own reason to be well behaved. */
  datatype Family =
    | Regular     // no skipped character directly after a separator
    | Letterless
    | Zeroless    // no digit 0

  ghost predicate InFamily(s: string, f: Family) {
    match f
    case Regular => forall i :: 0 <= i < |s| - 1 && IsSeparator(s[i]) ==> IsValid(s[i + 1])
    case Letterless => forall i :: 0 <= i < |s| ==> !IsLetter(s[i])
    case Zeroless => forall i :: 0 <= i < |s| ==> s[i] != '0'
  }

  ghost function Skip(c: char, s: string): (r: string)
    ensures |r| <= |s|
  {
    if StartsWith(s, c) then s[1..] else s
  }

  ghost function Flag(c: char, s: string): nat {
    if StartsWith(s, c) then 0 else 1
  }

  /** What is left of a stripped string when the pass reaches digits and letters. */
  ghost function Core(t: string): (d: string)
    ensures |d| <= |t|
    ensures t != "" && !IsSeparator(t[0]) ==> d == t
    ensures t != "" && IsSeparator(t[0]) ==> |d| < |t|
  {
    Skip('.', Skip('^', Skip('-', Skip('~', t))))
  }

  ghost predicate Ended(t: string) {
    Skip('~', t) == ""
  }

  ghost function Flags(t: string): seq<nat> {
    var t0 := Skip('~', t);
    var t1 := Skip('-', t0);
    if t0 == "" then [Flag('~', t), 0]
    else [Flag('~', t), 1, Flag('-', t0), Flag('^', t1), Flag('.', Skip('^', t1))]
  }

  ghost function Codes(s: string): seq<nat> {
    if s == "" then [] else [s[0] as nat] + Codes(s[1..])
  }

  /** Runs of digits with value zero, and skipped characters, taken off the front. */
  ghost function Peel(s: string): (p: string)
    ensures |p| <= |s|
    ensures p != "" ==> IsValid(p[0])
    ensures p != "" && IsDigit(p[0]) ==> DigitValue(p) > 0
    decreases |s|
  {
    var t := Strip(s);
    if DigitCount(t) > 0 && DigitValue(t) == 0 then Peel(DropDigits(t)) else t
  }

  ghost predicate StartsWithLetter(s: string) {
    s != "" && IsLetter(s[0])
  }

  ghost predicate StartsWithDigit(s: string) {
    s != "" && IsDigit(s[0])
  }

  /** A core that is worth zero as a number: which letters count, if any do. */
  ghost function Head(d: string, f: Family): string {
    if f == Zeroless || StartsWithLetter(d) then d else Peel(DropDigits(d))
  }

  ghost function Symbols(d: string, f: Family): seq<nat> {
    var h := Head(d, f);
    if DigitValue(d) > 0 then [2 + DigitValue(d)]
    else if StartsWithLetter(h) then [1] + Codes(Letters(h)) + [0]
    else if f != Zeroless && StartsWithDigit(h) then [2]
    else [0]
  }

  ghost function Rest(d: string, f: Family): (r: string)
    ensures |r| <= |d|
    ensures StartsWithDigit(d) || StartsWithLetter(d) ==> |r| < |d|
  {
    var h := Head(d, f);
    if DigitValue(d) > 0 then DropDigits(d)
    else if StartsWithLetter(h) then DropLetters(h)
    else DropDigits(d)
  }

  ghost function Key(s: string, f: Family): seq<nat>
    decreases |s|
  {
    var t := Strip(s);
    if Ended(t) then Flags(t) else Flags(t) + (Symbols(Core(t), f) + Key(Rest(Core(t), f), f))
  }

  /** The part of the key that the core decides. */
  ghost function CoreKey(d: string, f: Family): seq<nat> {
    Symbols(d, f) + Key(Rest(d, f), f)
  }

  // ----- Families are closed under suffixes

  lemma DropInFamily(s: string, k: nat, f: Family)
    requires InFamily(s, f) && k <= |s|
    ensures InFamily(s[k..], f)
  {
  }

  lemma StripInFamily(s: string, f: Family)
    requires InFamily(s, f)
    ensures InFamily(Strip(s), f)
  {
  }

  /** In a regular string no skipped character is left in front after the separators. */
  ghost predicate Clean(s: string) {
    s == "" || IsValid(s[0])
  }

  lemma CoreInFamily(t: string, f: Family)
    requires InFamily(t, f) && Clean(t)
    ensures InFamily(Core(t), f)
    ensures f == Regular ==> Clean(Core(t))
  {
  }

  lemma AlnumInFamily(a: string, b: string, f: Family)
    requires InFamily(a, f) && InFamily(b, f) && CompareAlnum(a, b).Go?
    ensures InFamily(CompareAlnum(a, b).a, f) && InFamily(CompareAlnum(a, b).b, f)
  {
    hide InFamily;
    DropInFamily(a, DigitCount(a), f);
    DropInFamily(b, DigitCount(b), f);
    DropInFamily(a, LetterCount(a), f);
    DropInFamily(b, LetterCount(b), f);
  }

  // ----- Separators against flags

  ghost function Padded(t: string, x: seq<nat>): seq<nat> {
    Flags(t) + if Ended(t) then [] else x
  }

  /** The first differing flag decides, in the order of the checks. */
  lemma FlagsDiffer(a: string, b: string, x: seq<nat>, y: seq<nat>, i: nat, r: int)
    requires i < |Flags(a)| && i < |Flags(b)| && Flags(a)[..i] == Flags(b)[..i] && Flags(a)[i] != Flags(b)[i]
    requires r == if Flags(a)[i] < Flags(b)[i] then -1 else 1
    ensures Lex(Padded(a, x), Padded(b, y)) == r
  {
    hide Lex, Flags, Ended;
    LexAt(Padded(a, x), Padded(b, y), i);
  }

  /** What the separator phase decides is what the flags decide. */
  lemma FlagsDecide(a: string, b: string, x: seq<nat>, y: seq<nat>)
    ensures
      match SkipSeparators(a, b)
      case Go(a', b') => !Ended(a) && !Ended(b) && Flags(a) == Flags(b) && a' == Core(a) && b' == Core(b)
      case Decided(r) =>
        if r == 0 then Ended(a) && Ended(b) && Flags(a) == Flags(b) else Lex(Padded(a, x), Padded(b, y)) == r
  {
    hide Lex, Padded;
    var a0, b0 := Skip('~', a), Skip('~', b);
    var a1, b1 := Skip('-', a0), Skip('-', b0);
    var a2, b2 := Skip('^', a1), Skip('^', b1);
    match SkipSeparators(a, b)
    case Go(_, _) =>
    case Decided(r) =>
      if Flag('~', a) != Flag('~', b) {
        FlagsDiffer(a, b, x, y, 0, r);
      } else if (a0 == "") != (b0 == "") {
        FlagsDiffer(a, b, x, y, 1, r);
      } else if a0 != "" {
        if Flag('-', a0) != Flag('-', b0) {
          FlagsDiffer(a, b, x, y, 2, r);
        } else if Flag('^', a1) != Flag('^', b1) {
          FlagsDiffer(a, b, x, y, 3, r);
        } else {
          FlagsDiffer(a, b, x, y, 4, r);
        }
      }
  }

  // ----- Digits and letters against symbols

  lemma KeyOfPlain(r: string, f: Family)
    requires Strip(r) != "" && !IsSeparator(Strip(r)[0])
    ensures Key(r, f) == [1, 1, 1, 1, 1] + CoreKey(Strip(r), f)
  {
    assert Flags(Strip(r)) == [1, 1, 1, 1, 1];
  }

  /** A string with letters before any number that counts. */
  lemma KeyOfLetters(r: string, f: Family)
    requires f != Zeroless && StartsWithLetter(Peel(r))
    ensures Key(r, f) == [1, 1, 1, 1, 1] + ([1] + Codes(Letters(Peel(r))) + [0] + Key(DropLetters(Peel(r)), f))
  {
    hide Key, Codes;
    KeyOfPlain(r, f);
  }

  /** The first symbol tells which of the three kinds of string this is. */
  lemma FirstSymbol(t: string, f: Family)
    requires f != Zeroless && StartsWithDigit(t)
    ensures
      var p := if DigitValue(t) > 0 then t else Peel(DropDigits(t));
      && Symbols(t, f) != []
      && (StartsWithDigit(p) ==> Symbols(t, f)[0] >= 2)
      && (!StartsWithDigit(p) && !StartsWithLetter(p) ==> Symbols(t, f)[0] == 0)
  {
    hide Codes, Peel, DigitValue;
  }

  /** A string with a positive number before any letters. */
  lemma KeyOfNumber(r: string, f: Family)
    requires f != Zeroless && StartsWithDigit(Peel(r))
    ensures |Key(r, f)| > 5 && Key(r, f)[..5] == [1, 1, 1, 1, 1] && Key(r, f)[5] >= 2
  {
    hide Key, Symbols, DigitValue;
    KeyOfPlain(r, f);
    FirstSymbol(Strip(r), f);
  }

  /** A string with neither. */
  lemma KeyOfLow(r: string, f: Family)
    requires f != Zeroless && !StartsWithDigit(Peel(r)) && !StartsWithLetter(Peel(r))
    ensures Lex(Key(r, f), [1, 1, 1, 1, 1, 1]) == -1
  {
    hide Lex;
    if StartsWithDigit(Strip(r)) {
      hide Key, Symbols, DigitValue;
      KeyOfPlain(r, f);
      FirstSymbol(Strip(r), f);
      LexAt(Key(r, f), [1, 1, 1, 1, 1, 1], 5);
    } else {
      KeyHasFlags(r, f);
      LowFlags(Strip(r), Key(r, f)[|Flags(Strip(r))|..]);
    }
  }

  lemma KeyHasFlags(r: string, f: Family)
    ensures
      var n := |Flags(Strip(r))|;
      n <= |Key(r, f)| && Key(r, f) == Flags(Strip(r)) + Key(r, f)[n..]
  {
    hide Flags, Symbols, Rest;
  }

  lemma LowFlags(t: string, x: seq<nat>)
    requires t == "" || IsSeparator(t[0])
    ensures Lex(Flags(t) + x, [1, 1, 1, 1, 1, 1]) == -1
  {
    var k, one := Flags(t) + x, [1, 1, 1, 1, 1, 1];
    if t == "" {
      LexAt(k, one, 1);
    } else if t[0] == '~' {
      LexAt(k, one, 0);
    } else if t[0] == '-' {
      LexAt(k, one, 2);
    } else if t[0] == '^' {
      LexAt(k, one, 3);
    } else {
      LexAt(k, one, 4);
    }
  }

  /** 0: neither letters nor a number follow; 1: letters do; 2: a positive number does. */
  ghost function Class(r: string): nat {
    if StartsWithLetter(Peel(r)) then 1 else if StartsWithDigit(Peel(r)) then 2 else 0
  }

  lemma {:induction false} LexBelow(x: seq<nat>, y: seq<nat>, i: nat)
    requires i < |y| && Lex(x, y[..i + 1]) == -1
    ensures Lex(x, y) == -1
    decreases i
  {
    if x == [] || x[0] != y[0] || i == 0 {
    } else {
      assert y[..i + 1][1..] == y[1..][..i];
      LexBelow(x[1..], y[1..], i - 1);
    }
  }

  /** Keys of different classes compare like the classes. */
  lemma ClassesDecide(a: string, b: string, f: Family)
    requires f != Zeroless && Class(a) < Class(b)
    ensures Lex(Key(a, f), Key(b, f)) == -1
  {
    hide Key, Peel, Lex;
    var x, y := Key(a, f), Key(b, f);
    if Class(b) == 1 {
      KeyOfLetters(b, f);
    } else {
      KeyOfNumber(b, f);
    }
    if Class(a) == 1 {
      KeyOfLetters(a, f);
      LexAt(x, y, 5);
    } else {
      KeyOfLow(a, f);
      var one := [1, 1, 1, 1, 1, 1];
      if Class(b) == 1 {
        assert y[..6] == one;
        LexBelow(x, y, 5);
      } else {
        LowBelowNumber(x, y);
      }
    }
  }

  lemma LowBelowNumber(x: seq<nat>, y: seq<nat>)
    requires Lex(x, [1, 1, 1, 1, 1, 1]) == -1 && |y| > 5 && y[..5] == [1, 1, 1, 1, 1] && y[5] >= 2
    ensures Lex(x, y) == -1
  {
    hide Lex;
    var one := [1, 1, 1, 1, 1, 1];
    var y6 := y[..6];
    LexAt(one, y6, 5);
    LexStrict(x, one, y6);
    LexBelow(x, y, 5);
  }

  lemma LexStrict(x: seq<nat>, y: seq<nat>, z: seq<nat>)
    requires Lex(x, y) < 0 && Lex(y, z) < 0
    ensures Lex(x, z) == -1
  {
  }

  lemma LexSwap(x: seq<nat>, y: seq<nat>)
    ensures Lex(y, x) == -Lex(x, y)
  {
  }

  /** A core worth zero leaves its rest to decide. */
  ghost predicate WorthZero(d: string, f: Family) {
    f != Zeroless && DigitValue(d) == 0 && (StartsWithLetter(d) ==> DigitCount(d) == 0)
  }

  lemma ZeroCoreKey(d: string, f: Family)
    requires WorthZero(d, f)
    ensures
      var r := DropDigits(d);
      if Class(r) == 1 then Key(r, f) == [1, 1, 1, 1, 1] + CoreKey(d, f)
      else CoreKey(d, f) == [Class(r)] + Key(r, f)
  {
    hide Key, Codes;
    var r := DropDigits(d);
    if Class(r) == 1 {
      KeyOfLetters(r, f);
      if StartsWithLetter(d) {
        assert r == d && Peel(r) == d;
      }
    }
  }

  lemma ZeroCoresDecide(a: string, b: string, f: Family)
    requires WorthZero(a, f) && WorthZero(b, f)
    ensures Lex(CoreKey(a, f), CoreKey(b, f)) == Lex(Key(DropDigits(a), f), Key(DropDigits(b), f))
  {
    hide Key, CoreKey, Peel, Lex, DropDigits;
    var ra, rb := DropDigits(a), DropDigits(b);
    ZeroCoreKey(a, f);
    ZeroCoreKey(b, f);
    if Class(ra) == Class(rb) {
      if Class(ra) == 1 {
        LexAppend([1, 1, 1, 1, 1], CoreKey(a, f), CoreKey(b, f));
      } else {
        LexAppend([Class(ra)], Key(ra, f), Key(rb, f));
      }
    } else {
      CoreClasses(a, f);
      CoreClasses(b, f);
      LexAt(CoreKey(a, f), CoreKey(b, f), 0);
      if Class(ra) < Class(rb) {
        ClassesDecide(ra, rb, f);
      } else {
        ClassesDecide(rb, ra, f);
        LexSwap(Key(rb, f), Key(ra, f));
      }
    }
  }

  lemma CoreClasses(d: string, f: Family)
    requires WorthZero(d, f)
    ensures CoreKey(d, f) != [] && CoreKey(d, f)[0] == Class(DropDigits(d))
  {
    hide Key, Codes, DigitValue;
    if StartsWithLetter(d) {
      assert DropDigits(d) == d && Peel(d) == d;
    }
  }

  lemma {:induction false} CodesDecide(a: string, b: string, x: seq<nat>, y: seq<nat>)
    requires forall i :: 0 <= i < |a| ==> IsLetter(a[i])
    requires forall i :: 0 <= i < |b| ==> IsLetter(b[i])
    ensures
      var r := CompareText(a, b);
      Lex(Codes(a) + [0] + x, Codes(b) + [0] + y) == if r != 0 then r else Lex(x, y)
    decreases |a|
  {
    var p, q := Codes(a) + [0] + x, Codes(b) + [0] + y;
    assert p[0] == if a == "" then 0 else a[0] as nat;
    assert q[0] == if b == "" then 0 else b[0] as nat;
    if a == "" && b == "" {
      assert p[1..] == x && q[1..] == y;
    } else if a != "" && b != "" && a[0] == b[0] {
      CodesDecide(a[1..], b[1..], x, y);
      assert p[1..] == Codes(a[1..]) + [0] + x && q[1..] == Codes(b[1..]) + [0] + y;
    }
  }

  /** The result of a pass, if keys settle what it leaves open. */
  ghost function Settled(o: Outcome, f: Family): int {
    match o
    case Decided(r) => r
    case Go(a, b) => Lex(Key(a, f), Key(b, f))
  }

  lemma LettersDecide(a: string, b: string, f: Family)
    requires StartsWithLetter(a) && StartsWithLetter(b)
    ensures Lex(CoreKey(a, f), CoreKey(b, f)) == Settled(CompareLetters(a, b), f)
  {
    hide Key, CoreKey, Codes, Lex, CompareText, Letters;
    var x, y := Key(DropLetters(a), f), Key(DropLetters(b), f);
    AllLetters(a);
    AllLetters(b);
    CodesDecide(Letters(a), Letters(b), x, y);
    CoreKeyOfLetters(a, f);
    CoreKeyOfLetters(b, f);
    LexAppend([1], Codes(Letters(a)) + [0] + x, Codes(Letters(b)) + [0] + y);
  }

  lemma AllLetters(s: string)
    ensures forall i :: 0 <= i < |Letters(s)| ==> IsLetter(Letters(s)[i])
  {
  }

  lemma CoreKeyOfLetters(d: string, f: Family)
    requires StartsWithLetter(d)
    ensures CoreKey(d, f) == [1] + (Codes(Letters(d)) + [0] + Key(DropLetters(d), f))
  {
    hide Key, Codes, Letters;
    assert DigitCount(d) == 0 && DigitValue(d) == 0;
  }

  lemma {:induction false} NonZero(s: string)
    requires InFamily(s, Zeroless) && DigitCount(s) > 0
    ensures DigitValue(s) > 0
  {
    var d := s[..DigitCount(s)];
    assert d[|d| - 1] == s[|d| - 1];
    assert DigitOf(d[|d| - 1]) > 0;
  }

  lemma CoreKeyOfNumber(d: string, f: Family)
    ensures CoreKey(d, f) != []
    ensures DigitValue(d) > 0 ==> CoreKey(d, f) == [2 + DigitValue(d)] + Key(DropDigits(d), f)
    ensures DigitValue(d) == 0 ==> CoreKey(d, f)[0] <= 2
  {
    hide Key, Codes, Peel;
  }

  /** At least one side has digits. */
  lemma NumbersDecide(a: string, b: string, f: Family)
    requires InFamily(a, f) && InFamily(b, f) && (DigitCount(a) > 0 || DigitCount(b) > 0)
    ensures Lex(CoreKey(a, f), CoreKey(b, f)) == Settled(CompareNumbers(a, b), f)
  {
    hide Key, CoreKey, Lex, InFamily, DigitValue;
    CoreKeyOfNumber(a, f);
    CoreKeyOfNumber(b, f);
    if DigitValue(a) != DigitValue(b) {
      LexAt(CoreKey(a, f), CoreKey(b, f), 0);
    } else if DigitValue(a) > 0 {
      LexAppend([2 + DigitValue(a)], Key(DropDigits(a), f), Key(DropDigits(b), f));
    } else {
      if f == Zeroless {
        if DigitCount(a) > 0 { NonZero(a); } else { NonZero(b); }
      }
      ZeroCoresDecide(a, b, f);
    }
  }

  /** Neither side has digits. */
  lemma NoNumbersDecide(a: string, b: string, f: Family)
    requires InFamily(a, f) && InFamily(b, f) && DigitCount(a) == 0 && DigitCount(b) == 0
    requires f == Regular ==> Clean(a) && Clean(b)
    ensures Lex(CoreKey(a, f), CoreKey(b, f)) == Settled(CompareLetters(a, b), f)
  {
    hide Key, Codes, Lex, InFamily, CompareText;
    assert DigitValue(a) == 0 && DigitValue(b) == 0;
    assert DropDigits(a) == a && DropDigits(b) == b;
    if StartsWithLetter(a) && StartsWithLetter(b) {
      LettersDecide(a, b, f);
    } else if StartsWithLetter(a) {
      LetterAgainstOther(a, b, f);
    } else if StartsWithLetter(b) {
      LetterAgainstOther(b, a, f);
      LexSwap(CoreKey(b, f), CoreKey(a, f));
      CompareTextSwap(Letters(b), Letters(a));
    } else {
      assert CompareText("", "") == 0 by { EmptyText(); }
      assert DropLetters(a) == a && DropLetters(b) == b;
      if f == Zeroless {
        LexAppend([0], Key(a, f), Key(b, f));
      } else {
        ZeroCoresDecide(a, b, f);
      }
    }
  }

  lemma EmptyText()
    ensures CompareText("", "") == 0
  {
  }

  lemma LetterAgainstOther(a: string, b: string, f: Family)
    requires InFamily(a, f) && StartsWithLetter(a) && !StartsWithLetter(b) && DigitCount(b) == 0
    requires f == Regular ==> Clean(b)
    ensures CompareText(Letters(a), Letters(b)) == 1 && Lex(CoreKey(a, f), CoreKey(b, f)) == 1
  {
  }

  lemma AlnumDecides(a: string, b: string, f: Family)
    requires InFamily(a, f) && InFamily(b, f) && (f == Regular ==> Clean(a) && Clean(b))
    ensures Lex(CoreKey(a, f), CoreKey(b, f)) == Settled(CompareAlnum(a, b), f)
  {
    hide Key, CoreKey, Lex, InFamily, CompareNumbers, CompareLetters;
    if DigitCount(a) > 0 || DigitCount(b) > 0 {
      NumbersDecide(a, b, f);
    } else {
      NoNumbersDecide(a, b, f);
    }
  }

  lemma PassDecides(v1: string, v2: string, f: Family)
    requires InFamily(v1, f) && InFamily(v2, f)
    ensures Lex(Key(v1, f), Key(v2, f)) == Settled(Pass(v1, v2), f)
    ensures Pass(v1, v2).Go? ==> InFamily(Pass(v1, v2).a, f) && InFamily(Pass(v1, v2).b, f)
  {
    hide Lex, InFamily, CompareAlnum, SkipSeparators, Flags, Core, Symbols, Rest, Ended;
    var a, b := Strip(v1), Strip(v2);
    StripInFamily(v1, f);
    StripInFamily(v2, f);
    CoreInFamily(a, f);
    CoreInFamily(b, f);
    var x, y := CoreKey(Core(a), f), CoreKey(Core(b), f);
    FlagsDecide(a, b, x, y);
    assert Flags(a) + [] == Flags(a) && Flags(b) + [] == Flags(b);
    match SkipSeparators(a, b)
    case Decided(r) =>
      if r == 0 {
        LexSame(Flags(a));
      }
    case Go(a', b') =>
      AlnumDecides(a', b', f);
      LexAppend(Flags(a), x, y);
      if CompareAlnum(a', b').Go? {
        AlnumInFamily(a', b', f);
      }
  }

  lemma LexSame(x: seq<nat>)
    ensures Lex(x, x) == 0
  {
    LexSwap(x, x);
  }

  /** Comparing two versions of a family is comparing their keys. */
  lemma {:induction false} CompareIsLex(v1: string, v2: string, f: Family)
    requires InFamily(v1, f) && InFamily(v2, f)
    ensures Compare(v1, v2) == Lex(Key(v1, f), Key(v2, f))
    decreases |v1| + |v2|
  {
    hide Pass, Key, Lex, InFamily;
    PassDecides(v1, v2, f);
    match Pass(v1, v2)
    case Decided(_) =>
    case Go(a, b) => CompareIsLex(a, b, f);
  }

  // ----- Exactly when it is an order

  ghost predicate Over(s: string, alphabet: set<char>) {
    forall i :: 0 <= i < |s| ==> s[i] in alphabet
  }

  ghost predicate TransitiveOn(alphabet: set<char>) {
    forall a, b, c | Over(a, alphabet) && Over(b, alphabet) && Over(c, alphabet) ::
      Compare(a, b) <= 0 && Compare(b, c) <= 0 ==> Compare(a, c) <= 0
  }

  /** A skipped character, a separator, a letter and the digit 0. */
  ghost predicate Mixed(alphabet: set<char>) {
    && (exists u :: u in alphabet && !IsValid(u))
    && (exists p :: p in alphabet && IsSeparator(p))
    && (exists l :: l in alphabet && IsLetter(l))
    && '0' in alphabet
  }

  ghost function FamilyOf(alphabet: set<char>): Family {
    if '0' !in alphabet then Zeroless
    else if forall l :: l in alphabet ==> !IsLetter(l) then Letterless
    else Regular
  }

  lemma OverInFamily(s: string, alphabet: set<char>)
    requires Over(s, alphabet) && !Mixed(alphabet)
    ensures InFamily(s, FamilyOf(alphabet))
  {
  }

  lemma TransitiveInFamily(a: string, b: string, c: string, f: Family)
    requires InFamily(a, f) && InFamily(b, f) && InFamily(c, f)
    requires Compare(a, b) <= 0 && Compare(b, c) <= 0
    ensures Compare(a, c) <= 0
  {
    hide Compare, Key, Lex;
    CompareIsLex(a, b, f);
    CompareIsLex(b, c, f);
    CompareIsLex(a, c, f);
    LexTransitive(Key(a, f), Key(b, f), Key(c, f));
  }

  lemma PassPlain(p: string, a: string, b: string)
    requires a != "" && b != "" && !IsSeparator(a[0]) && !IsSeparator(b[0])
    requires if p == "" then IsValid(a[0]) && IsValid(b[0]) else |p| == 1 && IsSeparator(p[0])
    ensures Pass(p + a, p + b) == CompareAlnum(a, b)
  {
    hide CompareAlnum;
    if p == "" {
      assert p + a == a && p + b == b;
    } else {
      assert (p + a)[1..] == a && (p + b)[1..] == b;
    }
  }

  lemma {:induction false} LettersOf(s: string, n: nat)
    requires n <= |s| && (forall i :: 0 <= i < n ==> IsLetter(s[i])) && (n < |s| ==> !IsLetter(s[n]))
    ensures Letters(s) == s[..n]
  {
    assert LetterCount(s) == n;
  }

  lemma {:induction false} PrefixBelow(a: string, b: string)
    requires a < b
    ensures CompareText(a, b) == -1
    decreases |a|
  {
    if a == "" {
    } else {
      PrefixBelow(a[1..], b[1..]);
    }
  }

  /** Two cores without digits, of which the first has fewer of the same letter. */
  lemma FewerLetters(a: string, b: string, l: char, m: nat, n: nat)
    requires IsLetter(l) && m < n <= |b| && m <= |a| && a != ""
    requires !IsDigit(a[0])
    requires (forall i :: 0 <= i < m ==> a[i] == l) && (m < |a| ==> !IsLetter(a[m]))
    requires (forall i :: 0 <= i < n ==> b[i] == l) && (n < |b| ==> !IsLetter(b[n]))
    ensures CompareAlnum(a, b) == Decided(-1)
  {
    LettersOf(a, m);
    LettersOf(b, n);
    assert a[..m] < b[..n];
    PrefixBelow(a[..m], b[..n]);
  }

  lemma DropZero(s: string)
    requires |s| > 1 && s[0] == '0' && IsLetter(s[1])
    ensures DigitValue(s) == 0 && DigitCount(s) == 1 && DropDigits(s) == s[1..]
  {
    assert DigitCount(s[1..]) == 0;
    assert s[..1] == "0";
    assert "0"[..0] == "";
    assert Number("0") == 0;
  }

  lemma NoDigits(s: string)
    requires s != "" && !IsDigit(s[0])
    ensures DigitValue(s) == 0 && DigitCount(s) == 0 && DropDigits(s) == s
  {
  }

  /** With `_` for a skipped character: `._xxx` < `.x` < `.0xx` < `._xxx`. */
  lemma Cycle(u: char, p: char, l: char)
    requires !IsValid(u) && IsSeparator(p) && IsLetter(l)
    ensures Compare([p, u, l, l, l], [p, l]) == -1
    ensures Compare([p, l], [p, '0', l, l]) == -1
    ensures Compare([p, '0', l, l], [p, u, l, l, l]) == -1
  {
    hide Pass, CompareText, DigitValue, DigitCount, DropDigits, CompareLetters, Strip;
    var x, y, z := [u, l, l, l], [l], ['0', l, l];
    assert [p, u, l, l, l] == [p] + x && [p, l] == [p] + y && [p, '0', l, l] == [p] + z;
    DropZero(z);
    NoDigits(x);
    NoDigits(y);
    assert z[1..] == [l, l] && x[1..] == [l, l, l];

    PassPlain([p], x, y);
    FewerLetters(x, y, l, 0, 1);

    PassPlain([p], y, z);
    PassPlain("", [l], [l, l]);
    assert "" + [l] == [l] && "" + [l, l] == [l, l] && "" + [l, l, l] == [l, l, l];
    FewerLetters([l], [l, l], l, 1, 2);

    PassPlain([p], z, x);
    StripOne(x);
    PassStrips([l, l], x);
    PassPlain("", [l, l], [l, l, l]);
    FewerLetters([l, l], [l, l, l], l, 2, 3);
  }

  lemma StripOne(s: string)
    requires |s| > 1 && !IsValid(s[0]) && IsValid(s[1])
    ensures Strip(s) == s[1..]
  {
  }

  lemma PassStrips(a: string, b: string)
    ensures Pass(a, b) == Pass(a, Strip(b))
  {
    hide PassStripped;
    assert Strip(Strip(b)) == Strip(b);
  }

  /**
   On the strings over an alphabet the comparison is transitive exactly when the alphabet
   lacks one of: a character that is skipped, a separator, a letter, the digit 0.
   */
  lemma TransitiveExactly(alphabet: set<char>)
    ensures TransitiveOn(alphabet) <==> !Mixed(alphabet)
  {
    hide Compare, InFamily;
    if !Mixed(alphabet) {
      var f := FamilyOf(alphabet);
      forall a, b, c | Over(a, alphabet) && Over(b, alphabet) && Over(c, alphabet)
                       && Compare(a, b) <= 0 && Compare(b, c) <= 0
        ensures Compare(a, c) <= 0
      {
        OverInFamily(a, alphabet);
        OverInFamily(b, alphabet);
        OverInFamily(c, alphabet);
        TransitiveInFamily(a, b, c, f);
      }
    } else {
      var u :| u in alphabet && !IsValid(u);
      var p :| p in alphabet && IsSeparator(p);
      var l :| l in alphabet && IsLetter(l);
      Cycle(u, p, l);
      var a, b, c := [p, u, l, l, l], [p, l], [p, '0', l, l];
      CompareSwap(c, a);
      assert Over(a, alphabet) && Over(b, alphabet) && Over(c, alphabet);
      assert Compare(a, c) == 1;
    }
  }

  // ----- The comparison operators (`__eq__`, `__lt__`, `functools.total_ordering`)

  predicate Eq(a: string, b: string) { Compare(a, b) == 0 }
  predicate Lt(a: string, b: string) { Compare(a, b) == -1 }
  predicate Le(a: string, b: string) { Lt(a, b) || Eq(a, b) }

  /** On versions without skipped characters the operators form a total preorder. */
  lemma TotalPreorder(a: string, b: string, c: string)
    requires forall i :: 0 <= i < |a| ==> IsValid(a[i])
    requires forall i :: 0 <= i < |b| ==> IsValid(b[i])
    requires forall i :: 0 <= i < |c| ==> IsValid(c[i])
    ensures Le(a, a) && (Le(a, b) || Le(b, a)) && (Le(a, b) && Le(b, a) <==> Eq(a, b))
    ensures Le(a, b) && Le(b, c) ==> Le(a, c)
    ensures Eq(a, b) ==> (Lt(a, c) <==> Lt(b, c)) && (Lt(c, a) <==> Lt(c, b))
  {
    hide Compare, Key, Lex;
    CompareSelf(a);
    CompareSwap(a, b);
    CompareSwap(a, c);
    CompareSwap(b, c);
    CompareIsLex(a, b, Regular);
    CompareIsLex(b, c, Regular);
    CompareIsLex(a, c, Regular);
    if Le(a, b) && Le(b, c) {
      TransitiveInFamily(a, b, c, Regular);
    }
    if Eq(a, b) {
      LexEqual(Key(a, Regular), Key(b, Regular));
    }
  }

  lemma LexEqual(x: seq<nat>, y: seq<nat>)
    requires Lex(x, y) == 0
    ensures x == y
  {
  }
}
