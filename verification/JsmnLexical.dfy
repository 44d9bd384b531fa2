/**
 What the scanning loops of the tokenizer accept and reject, against grammars of their own:
 the characters of a string, the escapes that spoil it, and where a primitive ends.
 */
module JsmnLexical {
  import opened Basics
  import opened JsmnSpec
  import opened Json
  import opened JsmnRoundTrip

  // ----- Strings

  /** The text from `p` to `q` is a sequence of string characters. */
  ghost predicate IsBody(js: string, p: nat, q: nat) {
    p <= q <= |js| && exists cs :: LenientChars(cs) && CharsText(cs) == js[p..q]
  }

  /** After `n` hexadecimal digits comes another character. */
  ghost predicate BadHex(js: string, p: nat, n: nat) {
    && p + n < |js| && js[p + n] !in HEX_DIGITS + {'\0'}
    && forall i :: p <= i < p + n ==> js[i] in HEX_DIGITS
  }

  /** Fewer than four hexadecimal digits, and then another character. */
  ghost predicate BadUnicode(js: string, p: nat) {
    exists n: nat :: n < 4 && BadHex(js, p, n)
  }

  /** A backslash, followed by something it cannot escape. */
  ghost predicate BadEscape(js: string, k: nat) {
    && k + 1 < |js| && js[k] == '\\'
    && if js[k + 1] == 'u' then BadUnicode(js, k + 2) else js[k + 1] !in ESCAPES
  }

  /** A bad escape follows a string body. */
  ghost predicate Spoilt(js: string, p: nat) {
    exists k: nat :: IsBody(js, p, k) && BadEscape(js, k)
  }

  lemma EmptyBody(js: string, p: nat)
    requires p <= |js|
    ensures IsBody(js, p, p)
  {
    assert LenientChars([]) && CharsText([]) == js[p..p];
  }

  lemma BodyCons(js: string, p: nat, c: Char, q: nat)
    requires Lenient(c) && Has(js, p, c.Text()) && IsBody(js, p + |c.Text()|, q)
    ensures IsBody(js, p, q)
  {
    var p' := p + |c.Text()|;
    var cs :| LenientChars(cs) && CharsText(cs) == js[p'..q];
    assert ([c] + cs)[1..] == cs;
    assert js[p..q] == js[p..p'] + js[p'..q];
    assert LenientChars([c] + cs) && CharsText([c] + cs) == js[p..q];
  }

  lemma {:induction false} HexDigits(js: string, p: nat, n: nat)
    requires p <= |js|
    ensures
      var r := HexScan(js, p, n);
      if r.None? then exists k: nat :: k < n && BadHex(js, p, k)
      else p <= r.value <= p + n && (r.value < p + n ==> !At(js, r.value))
           && forall i :: p <= i < r.value ==> js[i] in HEX_DIGITS
    decreases n
  {
    if n == 0 || !At(js, p) {
    } else if IsHex(js[p]) {
      HexDigits(js, p + 1, n - 1);
      if HexScan(js, p, n).None? {
        var k: nat :| k < n - 1 && BadHex(js, p + 1, k);
        assert BadHex(js, p, k + 1);
      }
    } else {
      assert BadHex(js, p, 0);
    }
  }

  /** The hexadecimal loop fails exactly at a bad digit. */
  lemma HexFails(js: string, p: nat)
    requires p <= |js|
    ensures HexScan(js, p, 4).None? <==> BadUnicode(js, p)
  {
    HexDigits(js, p, 4);
  }

  /** A `\u` whose digits are followed by anything has four of them. */
  lemma UnicodeText(js: string, p: nat)
    requires p + 1 < |js| && js[p] == '\\' && js[p + 1] == 'u'
    requires HexScan(js, p + 2, 4).Some? && At(js, HexScan(js, p + 2, 4).value)
    ensures p + 6 <= |js| && Lenient(Unicode(js[p + 2..p + 6])) && Has(js, p, Unicode(js[p + 2..p + 6]).Text())
  {
    HexDigits(js, p + 2, 4);
    assert ['\\', 'u'] + js[p + 2..p + 6] == js[p..p + 6];
  }

  /** Where a scan ends, the text before it is a string body. */
  lemma {:induction false} ScanReads(js: string, p: nat)
    requires p <= |js|
    ensures
      match StringScan(js, p)
      case Closed(q) => IsBody(js, p, q)
      case Bad => Spoilt(js, p)
      case Unterminated => true
    decreases |js| - p
  {
    if !At(js, p) || js[p] == '\"' {
      EmptyBody(js, p);
    } else if js[p] == '\\' && p + 1 < |js| {
      HexFails(js, p + 2);
      if BadEscape(js, p) {
        EmptyBody(js, p);
      } else if js[p + 1] == 'u' {
        var q := HexScan(js, p + 2, 4).value;
        assert StringScan(js, p) == StringScan(js, q);
        if At(js, q) {
          UnicodeText(js, p);
          ScanReadsOn(js, p, Unicode(js[p + 2..p + 6]));
        }
      } else {
        assert Escape(js[p + 1]).Text() == js[p..p + 2];
        ScanReadsOn(js, p, Escape(js[p + 1]));
      }
    } else if js[p] == '\\' {
      assert StringScan(js, p + 1) == Unterminated;
    } else {
      assert Plain(js[p]).Text() == js[p..p + 1];
      ScanReadsOn(js, p, Plain(js[p]));
    }
  }

  lemma {:induction false} ScanReadsOn(js: string, p: nat, c: Char)
    requires Lenient(c) && Has(js, p, c.Text()) && |c.Text()| > 0
    ensures
      match StringScan(js, p)
      case Closed(q) => IsBody(js, p, q)
      case Bad => Spoilt(js, p)
      case Unterminated => true
    decreases |js| - p, 0
  {
    hide StringScan, BadEscape, IsBody;
    CharScan(js, p, c);
    var p' := p + |c.Text()|;
    ScanReads(js, p');
    match StringScan(js, p)
    case Closed(q) => BodyCons(js, p, c, q);
    case Bad =>
      var k: nat :| IsBody(js, p', k) && BadEscape(js, k);
      BodyCons(js, p, c, k);
    case Unterminated =>
  }

  lemma BodyScans(js: string, p: nat, q: nat)
    requires IsBody(js, p, q)
    ensures StringScan(js, p) == StringScan(js, q)
  {
    hide StringScan, CharsText, LenientChars;
    var cs :| LenientChars(cs) && CharsText(cs) == js[p..q];
    CharsScan(js, p, cs);
  }

  /** A string closes at the first quote that follows a string body. */
  lemma ClosesExactly(js: string, p: nat, q: nat)
    requires p <= |js|
    ensures StringScan(js, p) == Closed(q) <==> q < |js| && js[q] == '\"' && IsBody(js, p, q)
  {
    hide IsBody;
    ScanReads(js, p);
    if q < |js| && js[q] == '\"' && IsBody(js, p, q) {
      BodyScans(js, p, q);
    }
  }

  /** It is invalid exactly if a bad escape follows a string body; otherwise it is incomplete. */
  lemma RejectsExactly(js: string, p: nat)
    requires p <= |js|
    ensures StringScan(js, p) == Bad <==> Spoilt(js, p)
  {
    hide IsBody, StringScan, BadEscape;
    ScanReads(js, p);
    if k: nat :| IsBody(js, p, k) && BadEscape(js, k) {
      BodyScans(js, p, k);
      BadEscapeScans(js, k);
    }
  }

  lemma BadEscapeScans(js: string, k: nat)
    requires BadEscape(js, k)
    ensures StringScan(js, k) == Bad
  {
    HexFails(js, k + 2);
  }

  // ----- Primitives

  /** The characters that end a primitive; so does NUL, and the end of the input. */
  const STOPS: set<char> := {':', '\t', '\r', '\n', ' ', ',', ']', '}'}

  ghost predicate Stops(js: string, p: nat) {
    p >= |js| || js[p] == '\0' || js[p] in STOPS
  }

  lemma PrimitiveExactly(js: string, p: nat, e: nat)
    requires p <= |js|
    ensures PrimitiveEnd(js, p) == e <==> p <= e && Stops(js, e) && forall i :: p <= i < e ==> !Stops(js, i)
  {
    var e' := PrimitiveEnd(js, p);
    assert Stops(js, e');
    assert forall i :: p <= i < e' ==> !Stops(js, i);
  }
}
