/**
 What every run of the tokenizer keeps, on any input: the shape of the spans and the
 bookkeeping of the sizes.
 */
module JsmnInvariants {
  import opened JsmnSpec

  // ----- Spans

  /** The characters around a span are the ones the token's kind calls for. */
  ghost predicate Framed(js: string, kind: Kind, start: int, end: int) {
    match kind
    case Undefined => false
    case Object => Bracketed(js, '{', start, end, '}')
    case Array => Bracketed(js, '[', start, end, ']')
    case String => 1 <= start <= |js| && 0 <= end && js[start - 1] == '\"' && StringScan(js, start) == Closed(end)
    case Primitive => 0 <= start < end <= |js| && end == PrimitiveEnd(js, start)
  }

  ghost predicate Bracketed(js: string, open: char, start: int, end: int, close: char) {
    && 0 <= start < |js| && js[start] == open
    && (end != -1 ==> start + 2 <= end <= |js| && js[end - 1] == close)
  }

  /** How an earlier token `a` lies to a later token `b`: before it, or strictly around it. */
  ghost predicate Laminar(a: Token, b: Token) {
    && a.start < b.start
    && (a.Open() || a.end <= b.start || (a.IsContainer() && !b.Open() && b.end < a.end))
  }

  ghost predicate Within(t: Token, pos: nat) {
    t.start < pos && t.end <= pos
  }

  ghost predicate Spans(js: string, st: State) {
    && st.Valid()
    && st.pos <= |js|
    && (forall i :: 0 <= i < |st.toks| ==>
          Framed(js, st.toks[i].kind, st.toks[i].start, st.toks[i].end) && Within(st.toks[i], st.pos))
    && (forall i, j :: 0 <= i < j < |st.toks| ==> Laminar(st.toks[i], st.toks[j]))
  }

  lemma AddAt(toks: seq<Token>, super: int, tok: Token)
    requires -1 <= super < |toks|
    ensures
      var r := Add(toks, super, tok);
      && |r| == |toks| + 1 && r[|toks|] == tok
      && forall i :: 0 <= i < |toks| ==>
           r[i].kind == toks[i].kind && r[i].start == toks[i].start && r[i].end == toks[i].end
  {
  }

  lemma AddKeepsSpans(js: string, st: State, tok: Token, st': State)
    requires Spans(js, st) && st.pos <= tok.start && Framed(js, tok.kind, tok.start, tok.end) && Within(tok, st'.pos)
    requires st'.Valid() && st.pos <= st'.pos <= |js| && st'.toks == Add(st.toks, st.super, tok)
    ensures Spans(js, st')
  {
    AddAt(st.toks, st.super, tok);
    var toks := st'.toks;
    forall i | 0 <= i < |toks|
      ensures Framed(js, toks[i].kind, toks[i].start, toks[i].end) && Within(toks[i], st'.pos)
    {
      if i < |st.toks| {
        assert Framed(js, st.toks[i].kind, st.toks[i].start, st.toks[i].end) && Within(st.toks[i], st.pos);
      }
    }
    forall i, j | 0 <= i < j < |toks| ensures Laminar(toks[i], toks[j]) {
      if j < |st.toks| {
        assert Laminar(st.toks[i], st.toks[j]);
      } else {
        assert Within(st.toks[i], st.pos);
      }
    }
  }

  lemma CloseKeepsSpans(js: string, st: State, st': State)
    requires Spans(js, st) && At(js, st.pos) && IsClosing(js[st.pos]) && CloseStep(js, st) == Next(st')
    ensures Spans(js, st')
  {
  }

  lemma LeafKeepsSpans(js: string, st: State, cap: nat, st': State)
    requires Spans(js, st) && At(js, st.pos)
    requires || (js[st.pos] == '\"' && StringStep(js, st, cap) == Next(st'))
             || (!EndsPrimitive(js[st.pos]) && PrimitiveStep(js, st, cap) == Next(st'))
    ensures Spans(js, st')
  {
    if js[st.pos] == '\"' && StringStep(js, st, cap) == Next(st') {
      var q := StringScan(js, st.pos + 1).quote;
      AddKeepsSpans(js, st, Token(String, st.pos + 1, q, 0), st');
    } else {
      AddKeepsSpans(js, st, Token(Primitive, st.pos, PrimitiveEnd(js, st.pos), 0), st');
    }
  }

  lemma StepKeepsSpans(js: string, st: State, cap: nat, st': State)
    requires Spans(js, st) && At(js, st.pos) && Step(js, st, cap) == Next(st')
    ensures Spans(js, st')
  {
    var c := js[st.pos];
    if IsOpening(c) {
      AddKeepsSpans(js, st, Token(KindOf(c), st.pos, -1, 0), st');
    } else if IsClosing(c) {
      CloseKeepsSpans(js, st, st');
    } else if IsSpace(c) || c == ':' || c == ',' {
      forall i | 0 <= i < |st.toks| ensures Within(st.toks[i], st'.pos) {
        assert Within(st.toks[i], st.pos);
      }
    } else {
      LeafKeepsSpans(js, st, cap, st');
    }
  }

  /** The state after `n` iterations of the main loop, or where it stopped before. */
  ghost function After(js: string, st: State, cap: nat, n: nat): (r: State)
    requires st.Valid()
    ensures r.Valid()
    decreases n
  {
    if n == 0 || !At(js, st.pos) then st
    else
      match Step(js, st, cap)
      case Stop(_) => st
      case Next(st') => After(js, st', cap, n - 1)
  }

  /** The last of these states is the one the run stops in. */
  lemma {:induction false} RunIsAfter(js: string, st: State, cap: nat, n: nat)
    requires st.Valid() && |js| <= st.pos + n
    ensures Run(js, st, cap).0 == After(js, st, cap, n)
    decreases n
  {
    if !At(js, st.pos) || Step(js, st, cap).Stop? {
    } else {
      RunIsAfter(js, Step(js, st, cap).state, cap, n - 1);
    }
  }

  /** Every state a run passes through has well-formed spans. */
  lemma {:induction false} RunKeepsSpans(js: string, st: State, cap: nat, n: nat)
    requires Spans(js, st)
    ensures Spans(js, After(js, st, cap, n))
    decreases n
  {
    if n == 0 || !At(js, st.pos) || Step(js, st, cap).Stop? {
    } else {
      var st' := Step(js, st, cap).state;
      StepKeepsSpans(js, st, cap, st');
      RunKeepsSpans(js, st', cap, n - 1);
    }
  }

  lemma {:induction false} OkClosesAll(js: string, st: State, cap: nat)
    requires st.Valid() && Run(js, st, cap).1.Ok?
    ensures forall i :: 0 <= i < |Run(js, st, cap).0.toks| ==> !Run(js, st, cap).0.toks[i].Open()
    ensures Run(js, st, cap).1.count == |Run(js, st, cap).0.toks|
    decreases |js| - st.pos
  {
    if !At(js, st.pos) {
    } else {
      OkClosesAll(js, Step(js, st, cap).state, cap);
    }
  }

  /**
   After any successful parse, of JSON or of anything else: starts strictly increase, all
   spans lie inside the input, and a token is either behind an earlier one or inside it,
   in which case it ends strictly before it does.
   */
  lemma SpansNest(js: string, cap: nat)
    requires Run(js, INITIAL_STATE, cap).1.Ok?
    ensures
      var toks := Run(js, INITIAL_STATE, cap).0.toks;
      && (forall i :: 0 <= i < |toks| ==>
            && 0 <= toks[i].start <= toks[i].end <= |js|
            && Framed(js, toks[i].kind, toks[i].start, toks[i].end))
      && (forall i, j :: 0 <= i < j < |toks| ==>
            && toks[i].start < toks[j].start
            && (toks[i].end <= toks[j].start || (toks[i].IsContainer() && toks[j].end < toks[i].end)))
  {
    RunIsAfter(js, INITIAL_STATE, cap, |js|);
    RunKeepsSpans(js, INITIAL_STATE, cap, |js|);
    OkClosesAll(js, INITIAL_STATE, cap);
    var toks := Run(js, INITIAL_STATE, cap).0.toks;
    forall i, j | 0 <= i < j < |toks|
      ensures toks[i].start < toks[j].start
      ensures toks[i].end <= toks[j].start || (toks[i].IsContainer() && toks[j].end < toks[i].end)
    {
      assert Laminar(toks[i], toks[j]);
    }
  }

  // ----- Sizes

  /** The superior token each allocation was made under, in allocation order. */
  ghost function Parents(js: string, st: State, cap: nat, ps: seq<int>): seq<int>
    requires st.Valid()
    decreases |js| - st.pos
  {
    if !At(js, st.pos) then ps
    else
      match Step(js, st, cap)
      case Stop(_) => ps
      case Next(st') => Parents(js, st', cap, if |st'.toks| > |st.toks| then ps + [st.super] else ps)
  }

  ghost function Children(ps: seq<int>, i: int): nat {
    if ps == [] then 0
    else Children(ps[..|ps| - 1], i) + if ps[|ps| - 1] == i then 1 else 0
  }

  ghost function SizeSum(toks: seq<Token>): int {
    if toks == [] then 0 else SizeSum(toks[..|toks| - 1]) + toks[|toks| - 1].size
  }

  /** `ps` is a forest on the tokens, and every size is a number of children in it. */
  ghost predicate Forest(toks: seq<Token>, ps: seq<int>) {
    && |ps| == |toks|
    && (forall i :: 0 <= i < |ps| ==> -1 <= ps[i] < i)
    && (forall i :: 0 <= i < |toks| ==> toks[i].size == Children(ps, i))
  }

  lemma NoChildrenYet(ps: seq<int>, n: int)
    requires forall i :: 0 <= i < |ps| ==> ps[i] < n
    ensures Children(ps, n) == 0
  {
  }

  lemma StepKeepsForest(js: string, st: State, cap: nat, ps: seq<int>)
    requires st.Valid() && At(js, st.pos) && Step(js, st, cap).Next? && Forest(st.toks, ps)
    ensures
      var st' := Step(js, st, cap).state;
      Forest(st'.toks, if |st'.toks| > |st.toks| then ps + [st.super] else ps)
  {
    var st' := Step(js, st, cap).state;
    if |st'.toks| > |st.toks| {
      var ps' := ps + [st.super];
      NoChildrenYet(ps, |st.toks|);
      assert ps'[..|ps|] == ps;
      forall i | 0 <= i < |st'.toks| ensures st'.toks[i].size == Children(ps', i) {
        assert i < |st.toks| ==> st.toks[i].size == Children(ps, i);
      }
    }
  }

  lemma {:induction false} RunKeepsForest(js: string, st: State, cap: nat, ps: seq<int>)
    requires st.Valid() && Forest(st.toks, ps)
    ensures Forest(Run(js, st, cap).0.toks, Parents(js, st, cap, ps))
    decreases |js| - st.pos
  {
    if !At(js, st.pos) || Step(js, st, cap).Stop? {
    } else {
      var st' := Step(js, st, cap).state;
      StepKeepsForest(js, st, cap, ps);
      RunKeepsForest(js, st', cap, if |st'.toks| > |st.toks| then ps + [st.super] else ps);
    }
  }

  /** Number of tokens whose parent is below `n`: the roots and the children of the first `n`. */
  ghost function Below(ps: seq<int>, n: nat): nat {
    if n == 0 then Children(ps, -1) else Below(ps, n - 1) + Children(ps, n - 1)
  }

  lemma {:induction false} BelowAppend(ps: seq<int>, p: int, n: nat)
    requires -1 <= p
    ensures Below(ps + [p], n) == Below(ps, n) + if p < n then 1 else 0
  {
    assert (ps + [p])[..|ps|] == ps;
    if n == 0 {
    } else {
      BelowAppend(ps, p, n - 1);
    }
  }

  lemma {:induction false} BelowAll(ps: seq<int>, n: nat)
    requires forall i :: 0 <= i < |ps| ==> -1 <= ps[i] < n
    ensures Below(ps, n) == |ps|
  {
    if ps == [] {
      BelowEmpty(n);
    } else {
      var front := ps[..|ps| - 1];
      BelowAll(front, n);
      BelowAppend(front, ps[|ps| - 1], n);
      assert ps == front + [ps[|ps| - 1]];
    }
  }

  lemma BelowEmpty(n: nat)
    ensures Below([], n) == 0
  {
  }

  lemma {:induction false} SizeSumIsBelow(toks: seq<Token>, ps: seq<int>, n: nat)
    requires n <= |toks| && Forest(toks, ps)
    ensures SizeSum(toks[..n]) + Children(ps, -1) == Below(ps, n)
  {
    if n == 0 {
    } else {
      SizeSumIsBelow(toks, ps, n - 1);
      assert toks[..n][..n - 1] == toks[..n - 1];
    }
  }

  /**
   Conservation over every run, successful or not: the recorded parents form a forest whose
   child counts are the sizes, so the sizes and the number of roots add up to `toknext`.
   */
  lemma SizesAreConserved(js: string, cap: nat)
    ensures
      var toks := Run(js, INITIAL_STATE, cap).0.toks;
      var ps := Parents(js, INITIAL_STATE, cap, []);
      Forest(toks, ps) && SizeSum(toks) + Children(ps, -1) == |toks|
  {
    var toks := Run(js, INITIAL_STATE, cap).0.toks;
    var ps := Parents(js, INITIAL_STATE, cap, []);
    RunKeepsForest(js, INITIAL_STATE, cap, []);
    SizeSumIsBelow(toks, ps, |toks|);
    BelowAll(ps, |toks|);
    assert toks[..|toks|] == toks;
  }
}
