/**
 Which inputs the tokenizer accepts, and with how many tokens: a lexical reference that
 knows nothing of the token array, and a grammar of well-matched brackets.
 */
module JsmnAcceptance {
  import opened Basics
  import opened JsmnSpec

  // ----- The lexical reference

  datatype Lexeme = Opening(kind: Kind) | Closing(kind: Kind) | Leaf

  /** The brackets and leaves the main loop sees; `None` if some string scan fails. */
  ghost function Lex(js: string, p: nat): Option<seq<Lexeme>>
    decreases |js| - p
  {
    if p >= |js| || js[p] == '\0' then Some([])
    else if js[p] == '{' then Prepend(Opening(Object), Lex(js, p + 1))
    else if js[p] == '[' then Prepend(Opening(Array), Lex(js, p + 1))
    else if js[p] == '}' then Prepend(Closing(Object), Lex(js, p + 1))
    else if js[p] == ']' then Prepend(Closing(Array), Lex(js, p + 1))
    else if js[p] == '\"' then
      match StringScan(js, p + 1)
      case Closed(q) => Prepend(Leaf, Lex(js, q + 1))
      case _ => None
    else if js[p] in {' ', '\t', '\r', '\n', ':', ','} then Lex(js, p + 1)
    else Prepend(Leaf, Lex(js, PrimitiveEnd(js, p)))
  }

  ghost function Prepend(x: Lexeme, r: Option<seq<Lexeme>>): Option<seq<Lexeme>> {
    match r
    case None => None
    case Some(xs) => Some([x] + xs)
  }

  /** Every lexeme except a closing bracket takes a token. */
  ghost function TokenCount(xs: seq<Lexeme>): nat {
    if xs == [] then 0 else (if xs[0].Closing? then 0 else 1) + TokenCount(xs[1..])
  }

  /** The grammar: a sequence of leaves and of bracketed sequences, closed by their own kind. */
  datatype Nesting = Nil | Cons(item: Item, rest: Nesting)
  datatype Item = Single | Bracketed(kind: Kind, inner: Nesting)

  ghost function Flatten(f: Nesting): seq<Lexeme> {
    match f
    case Nil => []
    case Cons(Single, rest) => [Leaf] + Flatten(rest)
    case Cons(Bracketed(k, inner), rest) => [Opening(k)] + Flatten(inner) + [Closing(k)] + Flatten(rest)
  }

  ghost predicate WellMatched(xs: seq<Lexeme>) {
    exists f :: Flatten(f) == xs
  }

  // ----- A stack machine between the two

  ghost predicate Balances(xs: seq<Lexeme>, stack: seq<Kind>)
    decreases |xs|
  {
    if xs == [] then stack == []
    else
      match xs[0]
      case Leaf => Balances(xs[1..], stack)
      case Opening(k) => Balances(xs[1..], stack + [k])
      case Closing(k) => |stack| > 0 && stack[|stack| - 1] == k && Balances(xs[1..], stack[..|stack| - 1])
  }

  lemma {:induction false} BalancesFlatten(f: Nesting, xs: seq<Lexeme>, stack: seq<Kind>)
    ensures Balances(Flatten(f) + xs, stack) == Balances(xs, stack)
    decreases f
  {
    match f
    case Nil =>
      assert Flatten(f) + xs == xs;
    case Cons(Single, rest) =>
      assert (Flatten(f) + xs)[1..] == Flatten(rest) + xs;
      BalancesFlatten(rest, xs, stack);
    case Cons(Bracketed(k, inner), rest) =>
      var after := [Closing(k)] + (Flatten(rest) + xs);
      assert (Flatten(f) + xs)[1..] == Flatten(inner) + after;
      BalancesFlatten(inner, after, stack + [k]);
      assert after[1..] == Flatten(rest) + xs;
      assert (stack + [k])[..|stack|] == stack;
      BalancesFlatten(rest, xs, stack);
  }

  ghost predicate Closes(f: Nesting, stack: seq<Kind>, rest: seq<Lexeme>, xs: seq<Lexeme>)
    requires stack != []
  {
    xs == Flatten(f) + [Closing(stack[|stack| - 1])] + rest
  }

  /** `xs` finishes what `stack` has open: a nesting, a closing bracket, a nesting, and so on. */
  ghost predicate Finishes(xs: seq<Lexeme>, stack: seq<Kind>)
    decreases |stack|
  {
    if stack == [] then WellMatched(xs)
    else exists f, rest :: Closes(f, stack, rest, xs) && Finishes(rest, stack[..|stack| - 1])
  }

  lemma FinishesCons(item: Item, front: seq<Lexeme>, xs: seq<Lexeme>, stack: seq<Kind>)
    requires Finishes(xs, stack)
    requires forall f :: Flatten(Cons(item, f)) == front + Flatten(f)
    ensures Finishes(front + xs, stack)
  {
    if stack == [] {
      var f :| Flatten(f) == xs;
      assert Flatten(Cons(item, f)) == front + xs;
    } else {
      var top := stack[|stack| - 1];
      var f, rest :| Closes(f, stack, rest, xs) && Finishes(rest, stack[..|stack| - 1]);
      assert front + xs == front + Flatten(f) + [Closing(top)] + rest;
      assert Closes(Cons(item, f), stack, rest, front + xs);
    }
  }

  lemma FinishesOpening(k: Kind, xs: seq<Lexeme>, stack: seq<Kind>)
    requires Finishes(xs, stack + [k])
    ensures Finishes([Opening(k)] + xs, stack)
  {
    var stack' := stack + [k];
    var f, rest :| Closes(f, stack', rest, xs) && Finishes(rest, stack'[..|stack|]);
    assert stack'[..|stack|] == stack;
    var front := [Opening(k)] + Flatten(f) + [Closing(k)];
    FinishesCons(Bracketed(k, f), front, rest, stack);
    assert [Opening(k)] + xs == front + rest;
  }

  lemma {:induction false} BalancesFinishes(xs: seq<Lexeme>, stack: seq<Kind>)
    requires Balances(xs, stack)
    ensures Finishes(xs, stack)
    decreases |xs|
  {
    if xs == [] {
      assert Flatten(Nil) == xs;
    } else {
      assert xs == [xs[0]] + xs[1..];
      match xs[0]
      case Leaf =>
        BalancesFinishes(xs[1..], stack);
        FinishesCons(Single, [Leaf], xs[1..], stack);
      case Opening(k) =>
        BalancesFinishes(xs[1..], stack + [k]);
        FinishesOpening(k, xs[1..], stack);
      case Closing(k) =>
        BalancesFinishes(xs[1..], stack[..|stack| - 1]);
        assert Closes(Nil, stack, xs[1..], xs);
    }
  }

  lemma BalancesIsWellMatched(xs: seq<Lexeme>)
    ensures Balances(xs, []) <==> WellMatched(xs)
  {
    if Balances(xs, []) {
      BalancesFinishes(xs, []);
    }
    if WellMatched(xs) {
      var f :| Flatten(f) == xs;
      BalancesFlatten(f, [], []);
      assert Flatten(f) + [] == xs;
    }
  }

  // ----- The token array implements the stack

  /** A bracket of the text that is not closed yet. */
  datatype Bracket = Bracket(kind: Kind, start: int)

  /** The unclosed tokens, outermost first. */
  ghost function Opens(toks: seq<Token>): seq<Bracket> {
    if toks == [] then []
    else
      var front, last := Opens(toks[..|toks| - 1]), toks[|toks| - 1];
      if last.Open() then front + [Bracket(last.kind, last.start)] else front
  }

  ghost function Kinds(stack: seq<Bracket>): (r: seq<Kind>)
    ensures |r| == |stack|
  {
    seq(|stack|, i requires 0 <= i < |stack| => stack[i].kind)
  }

  ghost function Stack(toks: seq<Token>): seq<Kind> {
    Kinds(Opens(toks))
  }

  ghost function Pop(stack: seq<Bracket>): seq<Bracket> {
    if stack == [] then [] else stack[..|stack| - 1]
  }

  lemma {:induction false} OpensBump(toks: seq<Token>, i: int, t: Token)
    requires 0 <= i < |toks| && t.Open() == toks[i].Open() && t.kind == toks[i].kind && t.start == toks[i].start
    ensures Opens(toks[i := t]) == Opens(toks)
  {
    var n := |toks| - 1;
    if i == n {
      assert toks[i := t][..n] == toks[..n];
    } else {
      OpensBump(toks[..n], i, t);
      assert toks[i := t][..n] == toks[..n][i := t];
    }
  }

  lemma OpensAppend(toks: seq<Token>, t: Token)
    ensures Opens(toks + [t]) == if t.Open() then Opens(toks) + [Bracket(t.kind, t.start)] else Opens(toks)
  {
    assert (toks + [t])[..|toks|] == toks;
  }

  lemma OpensAdd(toks: seq<Token>, super: int, t: Token)
    requires -1 <= super < |toks|
    ensures Opens(Add(toks, super, t)) == if t.Open() then Opens(toks) + [Bracket(t.kind, t.start)] else Opens(toks)
  {
    hide Opens;
    if super != -1 {
      OpensBump(toks, super, toks[super].(size := toks[super].size + 1));
    }
    OpensAppend(Bump(toks, super), t);
  }

  lemma StackAdd(toks: seq<Token>, super: int, t: Token)
    requires -1 <= super < |toks|
    ensures Stack(Add(toks, super, t)) == if t.Open() then Stack(toks) + [t.kind] else Stack(toks)
  {
    hide Opens, Add;
    OpensAdd(toks, super, t);
  }

  /** The backward scan finds the innermost unclosed bracket, and closing that token pops it. */
  lemma {:induction false} LastOpenIsTop(toks: seq<Token>, e: nat)
    ensures
      var i := LastOpen(toks);
      if i == -1 then Opens(toks) == []
      else
        && |Opens(toks)| > 0
        && Opens(toks)[|Opens(toks)| - 1] == Bracket(toks[i].kind, toks[i].start)
        && Opens(toks[i := toks[i].(end := e)]) == Pop(Opens(toks))
        && Opens(toks[..i]) == Pop(Opens(toks))
  {
    if toks == [] {
    } else {
      var n := |toks| - 1;
      var i := LastOpen(toks);
      if toks[n].Open() {
        assert toks[n := toks[n].(end := e)][..n] == toks[..n];
      } else {
        LastOpenIsTop(toks[..n], e);
        if i != -1 {
          assert toks[i := toks[i].(end := e)][..n] == toks[..n][i := toks[..n][i].(end := e)];
          assert toks[..n][..i] == toks[..i];
        }
      }
    }
  }

  // ----- Which bracket each closing bracket closes, from the text alone

  datatype Pair = Pair(kind: Kind, start: int, end: int)

  datatype Brackets = Brackets(open: seq<Bracket>, closed: set<Pair>)

  /** What one lexeme at `p` does to the brackets seen so far. */
  ghost function Match(js: string, p: nat, b: Brackets): Brackets
    requires At(js, p)
  {
    if IsOpening(js[p]) then b.(open := b.open + [Bracket(KindOf(js[p]), p)])
    else if IsClosing(js[p]) && b.open != [] then
      var top := b.open[|b.open| - 1];
      Brackets(Pop(b.open), b.closed + {Pair(top.kind, top.start, p + 1)})
    else b
  }

  /** Where the lexeme at `p` ends; `None` for a string that does not. */
  ghost function LexemeEnd(js: string, p: nat): (r: Option<nat>)
    requires At(js, p)
    ensures r.Some? ==> p < r.value <= |js|
  {
    if js[p] == '\"' then
      match StringScan(js, p + 1)
      case Closed(q) => Some(q + 1)
      case _ => None
    else if IsOpening(js[p]) || EndsPrimitive(js[p]) then Some(p + 1)
    else Some(PrimitiveEnd(js, p))
  }

  /** The brackets of the text from `p` up to `end`, matched by a stack. */
  ghost function Matching(js: string, p: nat, end: nat, b: Brackets): Brackets
    decreases |js| - p
  {
    if p >= end || !At(js, p) then b
    else
      match LexemeEnd(js, p)
      case None => b
      case Some(q) => Matching(js, q, end, Match(js, p, b))
  }

  /** The same, read off the token array: unclosed tokens, and the spans of closed containers. */
  ghost function BracketsOf(toks: seq<Token>): Brackets {
    Brackets(Opens(toks), ClosedPairs(toks))
  }

  ghost function ClosedPairs(toks: seq<Token>): set<Pair> {
    set t | t in toks && t.IsContainer() && !t.Open() :: Pair(t.kind, t.start, t.end)
  }

  lemma PairsAdd(toks: seq<Token>, super: int, t: Token)
    requires -1 <= super < |toks| && (t.Open() || !t.IsContainer())
    ensures ClosedPairs(Add(toks, super, t)) == ClosedPairs(toks)
  {
    var r := Add(toks, super, t);
    assert forall k :: 0 <= k < |toks| ==>
        r[k].kind == toks[k].kind && r[k].start == toks[k].start && r[k].end == toks[k].end;
    forall x ensures x in ClosedPairs(r) <==> x in ClosedPairs(toks) {
      if x in ClosedPairs(r) {
        var k :| 0 <= k < |r| && r[k].IsContainer() && !r[k].Open() && x == Pair(r[k].kind, r[k].start, r[k].end);
        assert toks[k] in toks;
      }
      if x in ClosedPairs(toks) {
        var k :| 0 <= k < |toks| && toks[k].IsContainer() && !toks[k].Open()
                 && x == Pair(toks[k].kind, toks[k].start, toks[k].end);
        assert r[k] in r;
      }
    }
  }

  lemma PairsClose(toks: seq<Token>, i: nat, e: nat)
    requires i < |toks| && toks[i].Open() && toks[i].IsContainer()
    ensures ClosedPairs(toks[i := toks[i].(end := e)]) == ClosedPairs(toks) + {Pair(toks[i].kind, toks[i].start, e)}
  {
    var r := toks[i := toks[i].(end := e)];
    forall x ensures x in ClosedPairs(r) <==> x in ClosedPairs(toks) + {Pair(toks[i].kind, toks[i].start, e)} {
      if x in ClosedPairs(r) {
        var k :| 0 <= k < |r| && r[k].IsContainer() && !r[k].Open() && x == Pair(r[k].kind, r[k].start, r[k].end);
        assert k != i ==> toks[k] in toks;
      }
      if x in ClosedPairs(toks) {
        var k :| 0 <= k < |toks| && toks[k].IsContainer() && !toks[k].Open()
                 && x == Pair(toks[k].kind, toks[k].start, toks[k].end);
        assert r[k] in r;
      }
      assert r[i] in r;
    }
  }

  lemma StepMatches(js: string, st: State, cap: nat, st': State)
    requires st.Valid() && At(js, st.pos) && Step(js, st, cap) == Next(st')
    ensures LexemeEnd(js, st.pos) == Some(st'.pos)
    ensures BracketsOf(st'.toks) == Match(js, st.pos, BracketsOf(st.toks))
  {
    hide Opens, ClosedPairs, Add, StringScan, PrimitiveEnd;
    var c := js[st.pos];
    if IsClosing(c) {
      var i := LastOpen(st.toks);
      LastOpenIsTop(st.toks, st.pos + 1);
      PairsClose(st.toks, i, st.pos + 1);
    } else if IsOpening(c) {
      var t := Token(KindOf(c), st.pos, -1, 0);
      OpensAdd(st.toks, st.super, t);
      PairsAdd(st.toks, st.super, t);
    } else if c == '\"' {
      var t := Token(String, st.pos + 1, StringScan(js, st.pos + 1).quote, 0);
      OpensAdd(st.toks, st.super, t);
      PairsAdd(st.toks, st.super, t);
    } else if !EndsPrimitive(c) {
      var t := Token(Primitive, st.pos, PrimitiveEnd(js, st.pos), 0);
      OpensAdd(st.toks, st.super, t);
      PairsAdd(st.toks, st.super, t);
    }
  }

  /**
   In every state a run stops in, on success or error, the unclosed tokens are the text's
   unmatched opening brackets, by kind and position, and the spans of the closed
   containers are exactly its matched pairs: each closing bracket closed its own partner.
   */
  lemma {:induction false} TokensMatchText(js: string, st: State, cap: nat)
    requires st.Valid()
    ensures
      var end := Run(js, st, cap).0;
      st.pos <= end.pos && BracketsOf(end.toks) == Matching(js, st.pos, end.pos, BracketsOf(st.toks))
    decreases |js| - st.pos
  {
    hide Step, Match, BracketsOf, LexemeEnd;
    if !At(js, st.pos) || Step(js, st, cap).Stop? {
      assert Run(js, st, cap).0 == st;
    } else {
      var st' := Step(js, st, cap).state;
      StepMatches(js, st, cap, st');
      TokensMatchText(js, st', cap);
    }
  }

  /** What the lexical reference sees of one step that succeeds. */
  ghost function Seen(js: string, p: nat): seq<Lexeme>
    requires At(js, p)
  {
    if IsOpening(js[p]) then [Opening(KindOf(js[p]))]
    else if IsClosing(js[p]) then [Closing(KindOf(js[p]))]
    else if IsSpace(js[p]) || js[p] == ':' || js[p] == ',' then []
    else [Leaf]
  }

  lemma BalancesCons(x: Lexeme, xs: seq<Lexeme>, stack: seq<Kind>)
    ensures x.Leaf? ==> Balances([x] + xs, stack) == Balances(xs, stack)
    ensures x.Opening? ==> Balances([x] + xs, stack) == Balances(xs, stack + [x.kind])
    ensures x.Closing? ==>
              Balances([x] + xs, stack)
              == (|stack| > 0 && stack[|stack| - 1] == x.kind && Balances(xs, stack[..|stack| - 1]))
  {
    assert ([x] + xs)[1..] == xs;
  }

  lemma AddBalances(toks: seq<Token>, super: int, t: Token, xs: seq<Lexeme>)
    requires -1 <= super < |toks|
    ensures
      var x := if t.Open() then Opening(t.kind) else Leaf;
      Balances([x] + xs, Stack(toks)) == Balances(xs, Stack(Add(toks, super, t)))
  {
    hide Stack, Add;
    StackAdd(toks, super, t);
    BalancesCons(if t.Open() then Opening(t.kind) else Leaf, xs, Stack(toks));
  }

  lemma CloseBalances(js: string, st: State, st': State, xs: seq<Lexeme>)
    requires st.Valid() && At(js, st.pos) && CloseStep(js, st) == Next(st')
    ensures Balances([Closing(KindOf(js[st.pos]))] + xs, Stack(st.toks)) == Balances(xs, Stack(st'.toks))
  {
    LastOpenIsTop(st.toks, st.pos + 1);
    assert Kinds(Pop(Opens(st.toks))) == Stack(st.toks)[..|Stack(st.toks)| - 1];
    BalancesCons(Closing(KindOf(js[st.pos])), xs, Stack(st.toks));
  }

  /** A step consumes its lexeme from the input and applies it to the stack. */
  lemma StepBalances(js: string, st: State, cap: nat, st': State, xs: seq<Lexeme>)
    requires st.Valid() && At(js, st.pos) && Step(js, st, cap) == Next(st')
    ensures Balances(Seen(js, st.pos) + xs, Stack(st.toks)) == Balances(xs, Stack(st'.toks))
  {
    var c := js[st.pos];
    if IsClosing(c) {
      CloseBalances(js, st, st', xs);
    } else if IsOpening(c) {
      AddBalances(st.toks, st.super, Token(KindOf(c), st.pos, -1, 0), xs);
    } else if Seen(js, st.pos) == [] {
      assert [] + xs == xs;
    } else {
      AddBalances(st.toks, st.super, st'.toks[|st.toks|], xs);
    }
  }

  lemma StepCounts(js: string, st: State, cap: nat, st': State)
    requires st.Valid() && At(js, st.pos) && Step(js, st, cap) == Next(st')
    ensures |st'.toks| == |st.toks| + TokenCount(Seen(js, st.pos))
  {
    assert Seen(js, st.pos) != [] ==> Seen(js, st.pos)[1..] == [];
  }

  lemma LexStep(js: string, st: State, cap: nat, st': State)
    requires st.Valid() && At(js, st.pos) && Step(js, st, cap) == Next(st')
    ensures
      var xs, xs' := Lex(js, st.pos), Lex(js, st'.pos);
      xs == if xs'.Some? then Some(Seen(js, st.pos) + xs'.value) else None
  {
    var xs' := Lex(js, st'.pos);
    assert xs'.Some? ==> [] + xs'.value == xs'.value;
  }

  lemma TokenCountSplit(xs: seq<Lexeme>, ys: seq<Lexeme>)
    ensures TokenCount(xs + ys) == TokenCount(xs) + TokenCount(ys)
  {
    if xs == [] {
      assert xs + ys == ys;
    } else {
      assert (xs + ys)[1..] == xs[1..] + ys;
    }
  }

  /** A step that stops with room left stops for a reason the reference sees too. */
  lemma StopBalances(js: string, st: State, cap: nat, xs: seq<Lexeme>)
    requires st.Valid() && At(js, st.pos) && Step(js, st, cap).Stop?
    requires Lex(js, st.pos) == Some(xs) && |st.toks| + TokenCount(xs) <= cap
    ensures !Balances(xs, Stack(st.toks))
  {
    LastOpenIsTop(st.toks, st.pos + 1);
  }

  /** With room for all its tokens, a run succeeds exactly when the stack machine accepts. */
  lemma {:induction false} RunBalances(js: string, st: State, cap: nat)
    requires st.Valid()
    requires Lex(js, st.pos).Some? ==> |st.toks| + TokenCount(Lex(js, st.pos).value) <= cap
    ensures Run(js, st, cap).1.Ok? <==> Lex(js, st.pos).Some? && Balances(Lex(js, st.pos).value, Stack(st.toks))
    decreases |js| - st.pos
  {
    if !At(js, st.pos) {
      LastOpenIsTop(st.toks, st.pos + 1);
    } else {
      match Step(js, st, cap)
      case Stop(_) =>
        if Lex(js, st.pos).Some? {
          StopBalances(js, st, cap, Lex(js, st.pos).value);
        }
      case Next(st') =>
        LexStep(js, st, cap, st');
        if Lex(js, st'.pos).Some? {
          var xs := Lex(js, st'.pos).value;
          StepBalances(js, st, cap, st', xs);
          StepCounts(js, st, cap, st');
          TokenCountSplit(Seen(js, st.pos), xs);
        }
        RunBalances(js, st', cap);
    }
  }

  /**
   On every input, with enough tokens: parsing succeeds exactly when every string scan
   succeeds and the brackets seen by the main loop are well matched by kind.
   */
  lemma AcceptsExactly(js: string, cap: nat)
    requires Lex(js, 0).Some? ==> TokenCount(Lex(js, 0).value) <= cap
    ensures Run(js, INITIAL_STATE, cap).1.Ok? <==> Lex(js, 0).Some? && WellMatched(Lex(js, 0).value)
  {
    RunBalances(js, INITIAL_STATE, cap);
    if Lex(js, 0).Some? {
      BalancesIsWellMatched(Lex(js, 0).value);
    }
  }
}
