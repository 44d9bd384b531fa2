/**
 Printing and parsing: for every JSON value printed with any whitespace between its
 tokens, the tokenizer reports exactly the nodes of the value, in preorder.
 */
module JsmnRoundTrip {
  import opened Basics
  import opened JsmnSpec
  import opened Json

  // ----- The expected tokens of a value that starts at offset `p`

  ghost function Tokens(v: Value, p: nat): (r: seq<Token>)
    ensures forall i :: 0 <= i < |r| ==> !r[i].Open()
    decreases v, 1
  {
    var end := p + |Text(v)|;
    match v
    case Str(cs) => [Token(String, p + 1, end - 1, 0)]
    case Arr(ws, elems) => [Token(Array, p, end, |elems|)] + ElementTokens(elems, p + 1 + |ws|)
    case Obj(ws, members) => [Token(Object, p, end, |members|)] + MemberTokens(members, p + 1 + |ws|)
    case _ => [Token(Primitive, p, end, 0)]
  }

  ghost function ElementTokens(es: seq<Element>, p: nat): (r: seq<Token>)
    ensures forall i :: 0 <= i < |r| ==> !r[i].Open()
    decreases es, 0
  {
    if es == [] then []
    else Tokens(es[0].value, p + |es[0].before|) + ElementTokens(es[1..], p + |ElementText(es[0])| + 1)
  }

  ghost function KeyToken(m: Member, p: nat, size: nat): Token {
    var start := p + |m.before| + 1;
    Token(String, start, start + |CharsText(m.key)|, size)
  }

  ghost function MemberTokens(ms: seq<Member>, p: nat): (r: seq<Token>)
    ensures forall i :: 0 <= i < |r| ==> !r[i].Open()
    decreases ms, 0
  {
    if ms == [] then []
    else
      [KeyToken(ms[0], p, 1)] + Tokens(ms[0].value, p + |KeyText(ms[0])|)
      + MemberTokens(ms[1..], p + |MemberText(ms[0])| + 1)
  }

  // ----- Pieces of text

  /** `t` stands in `js` at offset `p`. */
  ghost predicate Has(js: string, p: nat, t: string) {
    p + |t| <= |js| && js[p..p + |t|] == t
  }

  lemma HasSplit(js: string, p: nat, a: string, b: string)
    requires Has(js, p, a + b)
    ensures Has(js, p, a) && Has(js, p + |a|, b)
  {
    assert js[p..p + |a|] == js[p..p + |a + b|][..|a|];
    assert js[p + |a|..p + |a| + |b|] == js[p..p + |a + b|][|a|..];
  }

  lemma HasAt(js: string, p: nat, t: string, i: nat)
    requires Has(js, p, t) && i < |t|
    ensures js[p + i] == t[i]
  {
    assert js[p..p + |t|][i] == js[p + i];
  }

  lemma HasSplit3(js: string, p: nat, a: string, b: string, c: string)
    requires Has(js, p, a + b + c)
    ensures Has(js, p, a) && Has(js, p + |a|, b) && Has(js, p + |a| + |b|, c)
  {
    hide Has;
    HasSplit(js, p, a + b, c);
    HasSplit(js, p, a, b);
  }

  lemma HasChar(js: string, p: nat, c: char)
    requires Has(js, p, [c])
    ensures p < |js| && js[p] == c
  {
  }

  lemma ArrayPieces(js: string, p: nat, v: Value)
    requires v.Arr? && Has(js, p, Text(v))
    ensures |Text(v)| == 2 + |v.ws| + |ElementsText(v.elems)|
    ensures js[p] == '[' && js[p + |Text(v)| - 1] == ']'
    ensures Has(js, p + 1, v.ws) && Has(js, p + 1 + |v.ws|, ElementsText(v.elems))
  {
    hide Has, ElementsText;
    var es := ElementsText(v.elems);
    HasSplit(js, p, "[" + v.ws + es, "]");
    HasSplit3(js, p, "[", v.ws, es);
    HasChar(js, p, '[');
    HasChar(js, p + 1 + |v.ws| + |es|, ']');
  }

  lemma ObjectPieces(js: string, p: nat, v: Value)
    requires v.Obj? && Has(js, p, Text(v))
    ensures |Text(v)| == 2 + |v.ws| + |MembersText(v.members)|
    ensures js[p] == '{' && js[p + |Text(v)| - 1] == '}'
    ensures Has(js, p + 1, v.ws) && Has(js, p + 1 + |v.ws|, MembersText(v.members))
  {
    hide Has, MembersText;
    var ms := MembersText(v.members);
    HasSplit(js, p, "{" + v.ws + ms, "}");
    HasSplit3(js, p, "{", v.ws, ms);
    HasChar(js, p, '{');
    HasChar(js, p + 1 + |v.ws| + |ms|, '}');
  }

  lemma StringPieces(js: string, p: nat, cs: seq<Char>)
    requires Has(js, p, "\"" + CharsText(cs) + "\"")
    ensures js[p] == '\"' && Has(js, p + 1, CharsText(cs)) && Has(js, p + 1, CharsText(cs) + "\"")
    ensures js[p + 1 + |CharsText(cs)|] == '\"'
  {
    assert "\"" + CharsText(cs) + "\"" == "\"" + (CharsText(cs) + "\"");
    HasSplit(js, p, "\"", CharsText(cs) + "\"");
    HasSplit(js, p + 1, CharsText(cs), "\"");
  }

  lemma ElementPieces(js: string, p: nat, e: Element)
    requires Has(js, p, ElementText(e))
    ensures |ElementText(e)| == |e.before| + |Text(e.value)| + |e.after|
    ensures Has(js, p, e.before) && Has(js, p + |e.before|, Text(e.value))
    ensures Has(js, p + |e.before| + |Text(e.value)|, e.after)
  {
    hide Has, Text;
    HasSplit3(js, p, e.before, Text(e.value), e.after);
  }

  lemma ElementsPieces(js: string, p: nat, es: seq<Element>)
    requires es != [] && Has(js, p, ElementsText(es))
    ensures Has(js, p, ElementText(es[0]))
    ensures |es| == 1 ==> ElementsText(es) == ElementText(es[0])
    ensures |es| > 1 ==>
              var q := p + |ElementText(es[0])|;
              && p + |ElementsText(es)| == q + 1 + |ElementsText(es[1..])|
              && q < |js| && js[q] == ',' && Has(js, q + 1, ElementsText(es[1..]))
  {
    hide Has, ElementText;
    if |es| > 1 {
      var t, rest := ElementText(es[0]), ElementsText(es[1..]);
      HasSplit3(js, p, t, ",", rest);
      HasChar(js, p + |t|, ',');
    }
  }

  lemma KeyPieces(js: string, p: nat, m: Member)
    requires Has(js, p, KeyText(m))
    ensures
      var p1 := p + |m.before|;
      var p2 := p1 + |CharsText(m.key)| + 2;
      var p3 := p2 + |m.afterKey|;
      && Has(js, p, m.before) && Has(js, p1, "\"" + CharsText(m.key) + "\"") && Has(js, p2, m.afterKey)
      && p3 < |js| && js[p3] == ':' && Has(js, p3 + 1, m.beforeValue)
      && |KeyText(m)| == p3 + 1 + |m.beforeValue| - p
  {
    hide Has, CharsText;
    var quoted := "\"" + CharsText(m.key) + "\"";
    KeyTextIs(m, quoted);
    var head := m.before + quoted + m.afterKey;
    HasSplit3(js, p, head, ":", m.beforeValue);
    HasSplit3(js, p, m.before, quoted, m.afterKey);
    HasChar(js, p + |head|, ':');
  }

  lemma KeyTextIs(m: Member, quoted: string)
    requires quoted == "\"" + CharsText(m.key) + "\""
    ensures KeyText(m) == m.before + quoted + m.afterKey + ":" + m.beforeValue
  {
    hide CharsText;
    var a, b := m.before, CharsText(m.key);
    assert a + "\"" + b + "\"" == a + quoted;
  }

  lemma MemberPieces(js: string, p: nat, m: Member)
    requires Has(js, p, MemberText(m))
    ensures |MemberText(m)| == |KeyText(m)| + |Text(m.value)| + |m.after|
    ensures Has(js, p, KeyText(m)) && Has(js, p + |KeyText(m)|, Text(m.value))
    ensures Has(js, p + |KeyText(m)| + |Text(m.value)|, m.after)
  {
    hide Has, KeyText, Text;
    HasSplit3(js, p, KeyText(m), Text(m.value), m.after);
  }

  lemma MembersPieces(js: string, p: nat, ms: seq<Member>)
    requires ms != [] && Has(js, p, MembersText(ms))
    ensures Has(js, p, MemberText(ms[0]))
    ensures |ms| == 1 ==> MembersText(ms) == MemberText(ms[0])
    ensures |ms| > 1 ==>
              var q := p + |MemberText(ms[0])|;
              && p + |MembersText(ms)| == q + 1 + |MembersText(ms[1..])|
              && q < |js| && js[q] == ',' && Has(js, q + 1, MembersText(ms[1..]))
  {
    hide Has, MemberText;
    if |ms| > 1 {
      var t, rest := MemberText(ms[0]), MembersText(ms[1..]);
      HasSplit3(js, p, t, ",", rest);
      HasChar(js, p + |t|, ',');
    }
  }

  /** What may follow a value. */
  ghost predicate Delimited(js: string, p: nat) {
    p == |js| || (p < |js| && EndsPrimitive(js[p]))
  }

  // ----- Lexical steps

  lemma {:induction false} SkipBlank(js: string, st: State, w: string, cap: nat)
    requires st.Valid() && Has(js, st.pos, w) && IsBlank(w)
    ensures Run(js, st, cap) == Run(js, st.(pos := st.pos + |w|), cap)
    decreases |w|
  {
    hide Run, Has;
    if w == [] {
    } else {
      assert w == [w[0]] + w[1..];
      HasSplit(js, st.pos, [w[0]], w[1..]);
      HasChar(js, st.pos, w[0]);
      RunSpace(js, st, cap);
      SkipBlank(js, st.(pos := st.pos + 1), w[1..], cap);
    }
  }

  lemma RunSpace(js: string, st: State, cap: nat)
    requires st.Valid() && st.pos < |js| && IsSpace(js[st.pos])
    ensures Run(js, st, cap) == Run(js, st.(pos := st.pos + 1), cap)
  {
  }

  /** What the tokenizer takes in a string: as in RFC 8259, and any unescaped character but NUL. */
  ghost predicate Lenient(c: Char) {
    if c.Plain? then c.c != '\"' && c.c != '\\' && c.c != '\0' else c.Valid()
  }

  ghost predicate LenientChars(cs: seq<Char>) {
    forall c :: c in cs ==> Lenient(c)
  }

  lemma CharScan(js: string, p: nat, c: Char)
    requires Lenient(c) && Has(js, p, c.Text())
    ensures StringScan(js, p) == StringScan(js, p + |c.Text()|)
  {
    var t := c.Text();
    HasAt(js, p, t, 0);
    if !c.Plain? {
      HasAt(js, p, t, 1);
    }
    if c.Unicode? {
      HasAt(js, p, t, 2);
      HasAt(js, p, t, 3);
      HasAt(js, p, t, 4);
      HasAt(js, p, t, 5);
      HexFour(js, p + 2);
    }
  }

  lemma HexFour(js: string, p: nat)
    requires p + 4 <= |js| && forall i :: p <= i < p + 4 ==> IsHex(js[i])
    ensures HexScan(js, p, 4) == Some(p + 4)
  {
    assert HexScan(js, p + 3, 1) == HexScan(js, p + 4, 0);
    assert HexScan(js, p + 2, 2) == HexScan(js, p + 3, 1);
    assert HexScan(js, p + 1, 3) == HexScan(js, p + 2, 2);
  }

  /** The scan passes over any sequence of such characters. */
  lemma {:induction false} CharsScan(js: string, p: nat, cs: seq<Char>)
    requires LenientChars(cs) && Has(js, p, CharsText(cs))
    ensures StringScan(js, p) == StringScan(js, p + |CharsText(cs)|)
    decreases |cs|
  {
    hide StringScan, Has, Lenient;
    if cs == [] {
    } else {
      var t := cs[0].Text();
      HasSplit(js, p, t, CharsText(cs[1..]));
      CharScan(js, p, cs[0]);
      CharsScan(js, p + |t|, cs[1..]);
    }
  }

  lemma QuoteCloses(js: string, q: nat)
    requires q < |js| && js[q] == '\"'
    ensures StringScan(js, q) == Closed(q)
  {
  }

  lemma RunNext(js: string, st: State, cap: nat, st': State)
    requires st.Valid() && At(js, st.pos) && Step(js, st, cap) == Next(st')
    ensures Run(js, st, cap) == Run(js, st', cap)
  {
    hide Step;
  }

  lemma StringStepOf(js: string, st: State, q: nat, cap: nat)
    requires st.Valid() && At(js, st.pos) && |st.toks| < cap
    requires js[st.pos] == '\"' && StringScan(js, st.pos + 1) == Closed(q)
    ensures
      var st' := State(q + 1, Add(st.toks, st.super, Token(String, st.pos + 1, q, 0)), st.super);
      Run(js, st, cap) == Run(js, st', cap)
  {
    hide Run, StringScan, Add;
    RunNext(js, st, cap, State(q + 1, Add(st.toks, st.super, Token(String, st.pos + 1, q, 0)), st.super));
  }

  lemma RunString(js: string, st: State, cs: seq<Char>, cap: nat)
    requires st.Valid() && ValidChars(cs) && Has(js, st.pos, "\"" + CharsText(cs) + "\"") && |st.toks| < cap
    ensures
      var end := st.pos + 1 + |CharsText(cs)|;
      var t := Token(String, st.pos + 1, end, 0);
      Run(js, st, cap) == Run(js, State(end + 1, Add(st.toks, st.super, t), st.super), cap)
  {
    hide Run, StringScan, Add, CharsText;
    StringPieces(js, st.pos, cs);
    CharsScan(js, st.pos + 1, cs);
    QuoteCloses(js, st.pos + 1 + |CharsText(cs)|);
    StringStepOf(js, st, st.pos + 1 + |CharsText(cs)|, cap);
  }

  lemma {:induction false} PrimitiveEndsAt(js: string, p: nat, e: nat)
    requires p <= e <= |js| && Delimited(js, e)
    requires forall i :: p <= i < e ==> IsPrimitiveChar(js[i])
    ensures PrimitiveEnd(js, p) == e
    decreases e - p
  {
  }

  lemma RunPrimitive(js: string, st: State, v: Value, cap: nat)
    requires st.Valid() && IsPrimitive(v) && WellFormed(v) && Has(js, st.pos, Text(v)) && |st.toks| < cap
    requires Delimited(js, st.pos + |Text(v)|)
    ensures
      var e := st.pos + |Text(v)|;
      Run(js, st, cap) == Run(js, State(e, Add(st.toks, st.super, Token(Primitive, st.pos, e, 0)), st.super), cap)
  {
    hide Run, Text;
    PrimitiveText(v);
    var e := st.pos + |Text(v)|;
    forall i | st.pos <= i < e ensures IsPrimitiveChar(js[i]) {
      HasAt(js, st.pos, Text(v), i - st.pos);
    }
    PrimitiveEndsAt(js, st.pos, e);
    PrimitiveStepOf(js, st, e, cap);
  }

  lemma PrimitiveStepOf(js: string, st: State, e: nat, cap: nat)
    requires st.Valid() && At(js, st.pos) && |st.toks| < cap
    requires IsPrimitiveChar(js[st.pos]) && PrimitiveEnd(js, st.pos) == e
    ensures
      var st' := State(e, Add(st.toks, st.super, Token(Primitive, st.pos, e, 0)), st.super);
      Run(js, st, cap) == Run(js, st', cap)
  {
    hide Run, PrimitiveEnd, Add;
    RunNext(js, st, cap, State(e, Add(st.toks, st.super, Token(Primitive, st.pos, e, 0)), st.super));
  }

  // ----- The token array while a value is parsed

  lemma {:induction false} LastOpenAppend(a: seq<Token>, b: seq<Token>)
    requires forall i :: 0 <= i < |b| ==> !b[i].Open()
    ensures LastOpen(a + b) == LastOpen(a)
    decreases |b|
  {
    if b == [] {
      assert a + b == a;
    } else {
      assert (a + b)[..|a + b| - 1] == a + b[..|b| - 1];
      LastOpenAppend(a, b[..|b| - 1]);
    }
  }

  lemma LastOpenSame(a: seq<Token>, b: seq<Token>)
    requires |a| == |b| && forall i :: 0 <= i < |a| ==> a[i].Open() == b[i].Open()
    ensures LastOpen(a) == LastOpen(b)
  {
  }

  ghost function BumpBy(toks: seq<Token>, i: int, n: nat): seq<Token>
    requires 0 <= i < |toks|
  {
    toks[i := toks[i].(size := toks[i].size + n)]
  }

  /** The state after the value `v` has been read from `st`. */
  ghost function After(st: State, v: Value): State
    requires st.Valid()
  {
    State(st.pos + |Text(v)|,
          Bump(st.toks, st.super) + Tokens(v, st.pos),
          if IsLeaf(v) then st.super else LastOpen(st.toks))
  }

  ghost function ContainerKind(v: Value): Kind
    requires v.Arr? || v.Obj?
  {
    if v.Arr? then Array else Object
  }

  /** The opening bracket. */
  lemma RunOpen(js: string, st: State, kind: Kind, cap: nat) returns (st1: State)
    requires st.Valid() && At(js, st.pos) && |st.toks| < cap
    requires js[st.pos] == (if kind == Array then '[' else '{') && (kind == Array || kind == Object)
    ensures st1 == State(st.pos + 1, Bump(st.toks, st.super) + [Token(kind, st.pos, -1, 0)], |st.toks|)
    ensures Inside(st1, |st.toks|, kind) && Run(js, st, cap) == Run(js, st1, cap)
  {
    st1 := State(st.pos + 1, Bump(st.toks, st.super) + [Token(kind, st.pos, -1, 0)], |st.toks|);
    hide Run;
    RunNext(js, st, cap, st1);
  }

  lemma LastOpenMiddle(front: seq<Token>, open: Token, inner: seq<Token>)
    requires open.Open() && forall i :: 0 <= i < |inner| ==> !inner[i].Open()
    ensures LastOpen(front + [open] + inner) == |front|
  {
    LastOpenAppend(front + [open], inner);
  }

  lemma UpdateMiddle(front: seq<Token>, x: Token, y: Token, inner: seq<Token>)
    ensures (front + [x] + inner)[|front|] == x
    ensures (front + [x] + inner)[|front| := y] == front + [y] + inner
    ensures (front + [x] + inner)[..|front|] == front
  {
  }

  lemma CloseStepAt(js: string, st: State, i: nat, front: seq<Token>, toks': seq<Token>)
    requires st.Valid() && At(js, st.pos) && LastOpen(st.toks) == i && st.toks[i].kind == KindOf(js[st.pos])
    requires st.toks[..i] == front && toks' == st.toks[i := st.toks[i].(end := st.pos + 1)]
    ensures CloseStep(js, st) == Next(State(st.pos + 1, toks', LastOpen(front)))
  {
  }

  lemma CloseStepOf(js: string, front: seq<Token>, open: Token, inner: seq<Token>, toks: seq<Token>, e: nat, s: int)
    requires At(js, e) && open.Open() && open.kind == KindOf(js[e]) && -1 <= s < |toks|
    requires toks == front + [open] + inner
    requires forall i :: 0 <= i < |inner| ==> !inner[i].Open()
    ensures CloseStep(js, State(e, toks, s))
         == Next(State(e + 1, front + [open.(end := e + 1)] + inner, LastOpen(front)))
  {
    LastOpenMiddle(front, open, inner);
    UpdateMiddle(front, open, open.(end := e + 1), inner);
    CloseStepAt(js, State(e, toks, s), |front|, front, front + [open.(end := e + 1)] + inner);
  }

  /** The closing bracket, after `n` children that left the closed tokens `inner`. */
  lemma RunClose(js: string, st: State, v: Value, n: nat, inner: seq<Token>, s: int, cap: nat)
    requires st.Valid() && (v.Arr? || v.Obj?) && 0 < |Text(v)| && st.pos + |Text(v)| <= |js|
    requires js[st.pos + |Text(v)| - 1] == if v.Arr? then ']' else '}'
    requires forall i :: 0 <= i < |inner| ==> !inner[i].Open()
    requires Tokens(v, st.pos) == [Token(ContainerKind(v), st.pos, st.pos + |Text(v)|, n)] + inner
    requires -1 <= s < |st.toks| + 1 + |inner|
    ensures
      var toks := Bump(st.toks, st.super) + [Token(ContainerKind(v), st.pos, -1, n)] + inner;
      Run(js, State(st.pos + |Text(v)| - 1, toks, s), cap) == Run(js, After(st, v), cap)
  {
    hide Run, Text, Tokens, LastOpen, CloseStep;
    var e := st.pos + |Text(v)| - 1;
    var open := Token(ContainerKind(v), st.pos, -1, n);
    var front := Bump(st.toks, st.super);
    CloseStepOf(js, front, open, inner, front + [open] + inner, e, s);
    LastOpenSame(st.toks, front);
    assert front + Tokens(v, st.pos) == front + [open.(end := e + 1)] + inner;
    RunNext(js, State(e, front + [open] + inner, s), cap, After(st, v));
  }

  lemma DelimitedBefore(js: string, p: nat, w: string)
    requires Has(js, p, w) && IsBlank(w) && Delimited(js, p + |w|)
    ensures Delimited(js, p)
  {
    if w != [] {
      HasAt(js, p, w, 0);
    }
  }

  // ----- Values, elements and members

  lemma {:induction false} RunValue(js: string, st: State, v: Value, cap: nat)
    requires st.Valid() && WellFormed(v) && Has(js, st.pos, Text(v)) && Delimited(js, st.pos + |Text(v)|)
    requires |st.toks| + |Tokens(v, st.pos)| <= cap
    ensures After(st, v).Valid() && Run(js, st, cap) == Run(js, After(st, v), cap)
    decreases v, 2
  {
    hide Run, LastOpen;
    match v
    case Str(cs) =>
      RunString(js, st, cs, cap);
    case Arr(_, _) =>
      RunArray(js, st, v, cap);
    case Obj(_, _) =>
      RunObject(js, st, v, cap);
    case _ =>
      RunPrimitive(js, st, v, cap);
  }

  lemma {:induction false} RunArray(js: string, st: State, v: Value, cap: nat)
    requires v.Arr? && st.Valid() && WellFormed(v) && Has(js, st.pos, Text(v))
    requires |st.toks| + |Tokens(v, st.pos)| <= cap
    ensures After(st, v).Valid() && Run(js, st, cap) == Run(js, After(st, v), cap)
    decreases v, 1
  {
    hide Run, LastOpen, Text, Has, Bump, BumpBy;
    var Arr(ws, elems) := v;
    ArrayPieces(js, st.pos, v);
    HasBound(js, st.pos, Text(v));
    var st1 := RunOpen(js, st, Array, cap);
    SkipBlank(js, st1, ws, cap);
    var st2 := st1.(pos := st1.pos + |ws|);
    RunElements(js, st2, elems, |st.toks|, cap);
    var front := Bump(st.toks, st.super);
    BumpLast(front, Token(Array, st.pos, -1, 0), |elems|);
    RunClose(js, st, v, |elems|, ElementTokens(elems, st2.pos), |st.toks|, cap);
  }

  /** An object up to its closing bracket. */
  lemma {:induction false} RunObjectBody(js: string, st: State, v: Value, cap: nat) returns (s: int)
    requires v.Obj? && st.Valid() && WellFormed(v) && Has(js, st.pos, Text(v))
    requires |st.toks| + 1 + |MemberTokens(v.members, st.pos + 1 + |v.ws|)| <= cap
    ensures
      var inner := MemberTokens(v.members, st.pos + 1 + |v.ws|);
      var toks := Bump(st.toks, st.super) + [Token(Object, st.pos, -1, |v.members|)] + inner;
      -1 <= s < |toks| && Run(js, st, cap) == Run(js, State(st.pos + |Text(v)| - 1, toks, s), cap)
    decreases v, 0
  {
    hide Run, LastOpen, Text, Has, Bump, BumpBy, MemberTokens, MembersText;
    ObjectPieces(js, st.pos, v);
    HasBound(js, st.pos, Text(v));
    var st1 := RunOpen(js, st, Object, cap);
    SkipBlank(js, st1, v.ws, cap);
    BumpLast(Bump(st.toks, st.super), Token(Object, st.pos, -1, 0), |v.members|);
    s := RunMembers(js, st1.(pos := st1.pos + |v.ws|), v.members, |st.toks|, cap);
  }

  lemma {:induction false} RunObject(js: string, st: State, v: Value, cap: nat)
    requires v.Obj? && st.Valid() && WellFormed(v) && Has(js, st.pos, Text(v))
    requires |st.toks| + |Tokens(v, st.pos)| <= cap
    ensures After(st, v).Valid() && Run(js, st, cap) == Run(js, After(st, v), cap)
    decreases v, 1
  {
    hide Run, LastOpen, Text, Has, Bump, WellFormed, MemberTokens;
    ObjectPieces(js, st.pos, v);
    HasBound(js, st.pos, Text(v));
    var s := RunObjectBody(js, st, v, cap);
    RunClose(js, st, v, |v.members|, MemberTokens(v.members, st.pos + 1 + |v.ws|), s, cap);
  }

  lemma BumpLast(front: seq<Token>, t: Token, n: nat)
    ensures BumpBy(front + [t], |front|, n) == front + [t.(size := t.size + n)]
  {
  }

  lemma HasBound(js: string, p: nat, t: string)
    requires Has(js, p, t)
    ensures p + |t| <= |js|
  {
  }

  ghost predicate ElementOk(e: Element) {
    IsBlank(e.before) && WellFormed(e.value) && IsBlank(e.after)
  }

  /** Standing directly inside the container with index `a`. */
  ghost predicate Inside(st: State, a: nat, kind: Kind) {
    st.Valid() && LastOpen(st.toks) == a && st.toks[a].kind == kind
  }

  /** Counting a child and appending closed tokens leaves us inside the same container. */
  lemma StaysInside(st: State, a: nat, kind: Kind, ts: seq<Token>, st': State)
    requires Inside(st, a, kind) && forall i :: 0 <= i < |ts| ==> !ts[i].Open()
    requires st'.toks == Bump(st.toks, a) + ts && st'.Valid()
    ensures Inside(st', a, kind)
  {
    hide LastOpen;
    LastOpenSame(st.toks, Bump(st.toks, a));
    LastOpenAppend(Bump(st.toks, a), ts);
  }

  lemma {:induction false} RunElement(js: string, st: State, e: Element, a: nat, cap: nat)
    requires Inside(st, a, Array) && st.super == a && ElementOk(e)
    requires Has(js, st.pos, ElementText(e)) && Delimited(js, st.pos + |ElementText(e)|)
    requires |st.toks| + |Tokens(e.value, st.pos + |e.before|)| <= cap
    ensures
      var st' := State(st.pos + |ElementText(e)|, Bump(st.toks, a) + Tokens(e.value, st.pos + |e.before|), a);
      Inside(st', a, Array) && Run(js, st, cap) == Run(js, st', cap)
    decreases e, 0
  {
    hide Run, LastOpen, Text, Has, ElementText, Tokens;
    ElementPieces(js, st.pos, e);
    SkipBlank(js, st, e.before, cap);
    var st1 := st.(pos := st.pos + |e.before|);
    DelimitedBefore(js, st1.pos + |Text(e.value)|, e.after);
    RunValue(js, st1, e.value, cap);
    SkipBlank(js, After(st1, e.value), e.after, cap);
    var ts := Tokens(e.value, st1.pos);
    StaysInside(st, a, Array, ts, State(st.pos + |ElementText(e)|, Bump(st.toks, a) + ts, a));
  }

  /** One child first, the others after it. */
  lemma BumpTogether(toks: seq<Token>, a: nat, n: nat, ts: seq<Token>, rest: seq<Token>)
    requires a < |toks|
    ensures BumpBy(Bump(toks, a) + ts, a, n) + rest == BumpBy(toks, a, n + 1) + (ts + rest)
    ensures BumpBy(toks, a, 1) == Bump(toks, a) && BumpBy(toks, a, 0) == toks
  {
  }

  lemma {:induction false} RunElements(js: string, st: State, es: seq<Element>, a: nat, cap: nat)
    requires Inside(st, a, Array) && st.super == a && forall e :: e in es ==> ElementOk(e)
    requires Has(js, st.pos, ElementsText(es)) && Delimited(js, st.pos + |ElementsText(es)|)
    requires |st.toks| + |ElementTokens(es, st.pos)| <= cap
    ensures
      var st' := State(st.pos + |ElementsText(es)|, BumpBy(st.toks, a, |es|) + ElementTokens(es, st.pos), a);
      Run(js, st, cap) == Run(js, st', cap)
    decreases es, 0
  {
    hide Run, LastOpen, Text, Has, ElementText, Tokens, ElementOk, Bump, BumpBy;
    if es == [] {
      BumpTogether(st.toks, a, 0, [], []);
      assert BumpBy(st.toks, a, 0) + [] == st.toks;
    } else {
      ElementsPieces(js, st.pos, es);
      var ts := Tokens(es[0].value, st.pos + |es[0].before|);
      var st1 := State(st.pos + |ElementText(es[0])|, Bump(st.toks, a) + ts, a);
      BumpTogether(st.toks, a, |es| - 1, ts, ElementTokens(es[1..], st1.pos + 1));
      RunElement(js, st, es[0], a, cap);
      if |es| == 1 {
        assert ElementTokens(es, st.pos) == ts;
      } else {
        RunComma(js, st1, a, Array, cap);
        RunElements(js, st1.(pos := st1.pos + 1), es[1..], a, cap);
      }
    }
  }

  ghost predicate MemberOk(m: Member) {
    && IsBlank(m.before) && ValidChars(m.key) && IsBlank(m.afterKey)
    && IsBlank(m.beforeValue) && WellFormed(m.value) && IsBlank(m.after)
  }

  lemma RunColon(js: string, st: State, cap: nat)
    requires st.Valid() && At(js, st.pos) && js[st.pos] == ':'
    ensures Run(js, st, cap) == Run(js, st.(pos := st.pos + 1, super := |st.toks| - 1), cap)
  {
  }

  /** The key, the colon and the blanks around them. */
  lemma RunKey(js: string, st: State, m: Member, o: nat, cap: nat)
    requires Inside(st, o, Object) && st.super == o && MemberOk(m) && Has(js, st.pos, KeyText(m)) && |st.toks| < cap
    ensures
      var st' := State(st.pos + |KeyText(m)|, Bump(st.toks, o) + [KeyToken(m, st.pos, 0)], |st.toks|);
      Inside(st', o, Object) && Run(js, st, cap) == Run(js, st', cap)
  {
    hide Run, LastOpen, Has, KeyText, CharsText, Bump;
    KeyPieces(js, st.pos, m);
    var p1 := st.pos + |m.before|;
    var p2 := p1 + |CharsText(m.key)| + 2;
    var p3 := p2 + |m.afterKey|;
    var toks := Bump(st.toks, o) + [KeyToken(m, st.pos, 0)];
    StaysInside(st, o, Object, [KeyToken(m, st.pos, 0)], State(st.pos + |KeyText(m)|, toks, |st.toks|));
    SkipBlank(js, st, m.before, cap);
    RunString(js, st.(pos := p1), m.key, cap);
    SkipBlank(js, State(p2, toks, o), m.afterKey, cap);
    RunColon(js, State(p3, toks, o), cap);
    SkipBlank(js, State(p3 + 1, toks, |st.toks|), m.beforeValue, cap);
  }

  ghost function OneMember(m: Member, p: nat): (r: seq<Token>)
    ensures forall i :: 0 <= i < |r| ==> !r[i].Open()
  {
    [KeyToken(m, p, 1)] + Tokens(m.value, p + |KeyText(m)|)
  }

  lemma BumpKey(toks: seq<Token>, m: Member, p: nat, ts: seq<Token>)
    ensures Bump(toks + [KeyToken(m, p, 0)], |toks|) + ts == toks + ([KeyToken(m, p, 1)] + ts)
  {
  }

  lemma {:induction false} RunMember(js: string, st: State, m: Member, o: nat, cap: nat) returns (s: int)
    requires Inside(st, o, Object) && st.super == o && MemberOk(m)
    requires Has(js, st.pos, MemberText(m)) && Delimited(js, st.pos + |MemberText(m)|)
    requires |st.toks| + |OneMember(m, st.pos)| <= cap
    ensures s == o || s == |st.toks|
    ensures
      var st' := State(st.pos + |MemberText(m)|, Bump(st.toks, o) + OneMember(m, st.pos), s);
      Inside(st', o, Object) && Run(js, st, cap) == Run(js, st', cap)
    decreases m, 0
  {
    hide Run, LastOpen, Has, KeyText, MemberText, Text, Tokens;
    MemberPieces(js, st.pos, m);
    RunKey(js, st, m, o, cap);
    var front := Bump(st.toks, o);
    var st1 := State(st.pos + |KeyText(m)|, front + [KeyToken(m, st.pos, 0)], |st.toks|);
    DelimitedBefore(js, st1.pos + |Text(m.value)|, m.after);
    RunValue(js, st1, m.value, cap);
    SkipBlank(js, After(st1, m.value), m.after, cap);
    s := After(st1, m.value).super;
    BumpKey(front, m, st.pos, Tokens(m.value, st1.pos));
    StaysInside(st, o, Object, OneMember(m, st.pos), State(st.pos + |MemberText(m)|, front + OneMember(m, st.pos), s));
  }

  lemma RunComma(js: string, st: State, o: nat, kind: Kind, cap: nat)
    requires Inside(st, o, kind) && (kind == Array || kind == Object) && At(js, st.pos) && js[st.pos] == ','
    requires st.super == o || (0 <= st.super && st.toks[st.super].kind == String)
    ensures Run(js, st, cap) == Run(js, st.(pos := st.pos + 1, super := o), cap)
  {
    assert CommaSuper(st) == o;
  }

  lemma {:induction false} RunMembers(js: string, st: State, ms: seq<Member>, o: nat, cap: nat) returns (s: int)
    requires Inside(st, o, Object) && st.super == o && forall m :: m in ms ==> MemberOk(m)
    requires Has(js, st.pos, MembersText(ms)) && Delimited(js, st.pos + |MembersText(ms)|)
    requires |st.toks| + |MemberTokens(ms, st.pos)| <= cap
    ensures -1 <= s < |st.toks| + |MemberTokens(ms, st.pos)|
    ensures
      var st' := State(st.pos + |MembersText(ms)|, BumpBy(st.toks, o, |ms|) + MemberTokens(ms, st.pos), s);
      Run(js, st, cap) == Run(js, st', cap)
    decreases ms, 0
  {
    hide Run, LastOpen, Has, Text, KeyText, MemberText, Tokens, MemberOk, BumpBy;
    if ms == [] {
      BumpTogether(st.toks, o, 0, [], []);
      assert BumpBy(st.toks, o, 0) + [] == st.toks;
      s := o;
    } else {
      MembersPieces(js, st.pos, ms);
      var ts := OneMember(ms[0], st.pos);
      var st1 := State(st.pos + |MemberText(ms[0])|, Bump(st.toks, o) + ts, o);
      BumpTogether(st.toks, o, |ms| - 1, ts, MemberTokens(ms[1..], st1.pos + 1));
      s := RunMember(js, st, ms[0], o, cap);
      if |ms| == 1 {
        assert MemberTokens(ms, st.pos) == ts;
      } else {
        RunComma(js, st1.(super := s), o, Object, cap);
        s := RunMembers(js, st1.(pos := st1.pos + 1), ms[1..], o, cap);
      }
    }
  }

  // ----- The expected tokens describe the nodes

  ghost predicate Describes(js: string, t: Token, n: Node) {
    t.kind == n.kind && t.size == n.size && 0 <= t.start <= t.end <= |js| && js[t.start..t.end] == n.text
  }

  ghost predicate DescribesAll(js: string, ts: seq<Token>, ns: seq<Node>) {
    |ts| == |ns| && forall i :: 0 <= i < |ts| ==> Describes(js, ts[i], ns[i])
  }

  lemma DescribesAppend(js: string, ts: seq<Token>, ns: seq<Node>, ts': seq<Token>, ns': seq<Node>)
    requires DescribesAll(js, ts, ns) && DescribesAll(js, ts', ns')
    ensures DescribesAll(js, ts + ts', ns + ns')
  {
  }

  lemma DescribesCons(js: string, t: Token, n: Node, ts: seq<Token>, ns: seq<Node>)
    requires Describes(js, t, n) && DescribesAll(js, ts, ns)
    ensures DescribesAll(js, [t] + ts, [n] + ns)
  {
  }

  lemma {:induction false} TokensDescribe(js: string, v: Value, p: nat)
    requires Has(js, p, Text(v))
    ensures DescribesAll(js, Tokens(v, p), Nodes(v))
    decreases v, 2
  {
    hide Tokens, Nodes, DescribesAll;
    if v.Arr? {
      ArrayDescribes(js, v, p);
    } else if v.Obj? {
      ObjectDescribes(js, v, p);
    } else {
      LeafDescribes(js, v, p);
    }
  }

  lemma LeafDescribes(js: string, v: Value, p: nat)
    requires IsLeaf(v) && Has(js, p, Text(v))
    ensures DescribesAll(js, Tokens(v, p), Nodes(v))
  {
    if v.Str? {
      StringPieces(js, p, v.cs);
      DescribesOne(js, Token(String, p + 1, p + |Text(v)| - 1, 0), Node(String, CharsText(v.cs), 0));
    } else {
      hide Text;
      DescribesOne(js, Token(Primitive, p, p + |Text(v)|, 0), Node(Primitive, Text(v), 0));
    }
  }

  lemma {:induction false} ArrayDescribes(js: string, v: Value, p: nat)
    requires v.Arr? && Has(js, p, Text(v))
    ensures DescribesAll(js, Tokens(v, p), Nodes(v))
    decreases v, 1
  {
    hide DescribesAll, ElementTokens, ElementNodes, Text;
    ArrayPieces(js, p, v);
    ElementsDescribe(js, v.elems, p + 1 + |v.ws|);
    assert Describes(js, Token(Array, p, p + |Text(v)|, |v.elems|), Node(Array, Text(v), |v.elems|));
    DescribesCons(js, Token(Array, p, p + |Text(v)|, |v.elems|), Node(Array, Text(v), |v.elems|),
                  ElementTokens(v.elems, p + 1 + |v.ws|), ElementNodes(v.elems));
  }

  lemma {:induction false} ObjectDescribes(js: string, v: Value, p: nat)
    requires v.Obj? && Has(js, p, Text(v))
    ensures DescribesAll(js, Tokens(v, p), Nodes(v))
    decreases v, 1
  {
    hide DescribesAll, MemberTokens, MemberNodes, Text;
    ObjectPieces(js, p, v);
    MembersDescribe(js, v.members, p + 1 + |v.ws|);
    assert Describes(js, Token(Object, p, p + |Text(v)|, |v.members|), Node(Object, Text(v), |v.members|));
    DescribesCons(js, Token(Object, p, p + |Text(v)|, |v.members|), Node(Object, Text(v), |v.members|),
                  MemberTokens(v.members, p + 1 + |v.ws|), MemberNodes(v.members));
  }

  lemma DescribesOne(js: string, t: Token, n: Node)
    requires Describes(js, t, n)
    ensures DescribesAll(js, [t], [n])
  {
  }

  lemma {:induction false} ElementsDescribe(js: string, es: seq<Element>, p: nat)
    requires Has(js, p, ElementsText(es))
    ensures DescribesAll(js, ElementTokens(es, p), ElementNodes(es))
    decreases es, 0
  {
    hide Has, Text, ElementText, Tokens, Nodes, Describes;
    if es == [] {
    } else {
      var e := es[0];
      ElementsPieces(js, p, es);
      ElementPieces(js, p, e);
      TokensDescribe(js, e.value, p + |e.before|);
      var p' := p + |ElementText(e)| + 1;
      if |es| > 1 {
        ElementsDescribe(js, es[1..], p');
      }
      var front, rest := Tokens(e.value, p + |e.before|), ElementTokens(es[1..], p');
      DescribesAppend(js, front, Nodes(e.value), rest, ElementNodes(es[1..]));
    }
  }

  lemma {:induction false} MembersDescribe(js: string, ms: seq<Member>, p: nat)
    requires Has(js, p, MembersText(ms))
    ensures DescribesAll(js, MemberTokens(ms, p), MemberNodes(ms))
    decreases ms, 0
  {
    hide Has, Text, KeyText, MemberText, Tokens, Nodes, Describes;
    if ms == [] {
    } else {
      var m := ms[0];
      MembersPieces(js, p, ms);
      MemberPieces(js, p, m);
      KeyDescribes(js, m, p);
      var ts := Tokens(m.value, p + |KeyText(m)|);
      TokensDescribe(js, m.value, p + |KeyText(m)|);
      var p' := p + |MemberText(m)| + 1;
      if |ms| > 1 {
        MembersDescribe(js, ms[1..], p');
      }
      var key, node := KeyToken(m, p, 1), Node(String, CharsText(m.key), 1);
      DescribesCons(js, key, node, ts, Nodes(m.value));
      DescribesAppend(js, [key] + ts, [node] + Nodes(m.value), MemberTokens(ms[1..], p'), MemberNodes(ms[1..]));
    }
  }

  lemma KeyDescribes(js: string, m: Member, p: nat)
    requires Has(js, p, KeyText(m))
    ensures Describes(js, KeyToken(m, p, 1), Node(String, CharsText(m.key), 1))
  {
    hide KeyText, CharsText;
    KeyPieces(js, p, m);
    StringPieces(js, p + |m.before|, m.key);
  }

  lemma HasWhole(lead: string, t: string, trail: string)
    ensures
      var js := lead + t + trail;
      Has(js, 0, lead) && Has(js, |lead|, t) && Has(js, |lead| + |t|, trail)
  {
  }

  /**
   The round trip. A JSON text (any value, any whitespace) with room for its nodes parses
   to the end, returns the number of nodes, and leaves one token per node, in preorder:
   same kind, same number of children, and a span that slices the node's own text back
   out of the input.
   */
  lemma RoundTrip(lead: string, v: Value, trail: string, cap: nat)
    requires WellFormed(v) && IsBlank(lead) && IsBlank(trail) && |Nodes(v)| <= cap
    ensures
      var js := lead + Text(v) + trail;
      var (st, r) := Run(js, INITIAL_STATE, cap);
      r == Ok(|Nodes(v)|) && st.pos == |js| && st.super == -1 && DescribesAll(js, st.toks, Nodes(v))
  {
    hide Run, LastOpen, Has, Text, Tokens, Nodes;
    var js := lead + Text(v) + trail;
    var p, q := |lead|, |lead| + |Text(v)|;
    HasWhole(lead, Text(v), trail);
    TokensDescribe(js, v, p);
    SkipBlank(js, INITIAL_STATE, lead, cap);
    DelimitedBefore(js, q, trail);
    var st := State(p, [], -1);
    RunValue(js, st, v, cap);
    SkipBlank(js, After(st, v), trail, cap);
    assert [] + Tokens(v, p) == Tokens(v, p);
    RunEnds(js, State(|js|, Tokens(v, p), After(st, v).super), cap);
  }

  lemma RunEnds(js: string, st: State, cap: nat)
    requires st.Valid() && st.pos == |js| && forall i :: 0 <= i < |st.toks| ==> !st.toks[i].Open()
    ensures Run(js, st, cap) == (st, Ok(|st.toks|))
  {
  }
}
