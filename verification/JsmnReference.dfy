/**
 A reference tokenizer that scans no array: it keeps the open brackets on a stack and
 records under which token each one was read. The tokens of every run are the reference's,
 with the number of recorded children as size, and so is the return code.
 */
module JsmnReference {
  import opened JsmnSpec
  import opened JsmnInvariants

  /** A token, and the index of the one it belongs to; -1 for none. */
  datatype Item = Item(kind: Kind, start: nat, end: int, parent: int)

  /** `open` are the indices of the unclosed items, `under` the item that new ones belong to. */
  datatype Machine = Machine(pos: nat, items: seq<Item>, open: seq<nat>, under: int) {
    ghost predicate Valid() {
      && -1 <= under < |items|
      && (forall k :: 0 <= k < |open| ==> open[k] < |items|)
    }
  }

  ghost function Top(open: seq<nat>): int {
    if open == [] then -1 else open[|open| - 1]
  }

  ghost function Read(m: Machine, item: Item, pos: nat): Machine {
    m.(pos := pos, items := m.items + [item])
  }

  ghost function Opened(m: Machine, kind: Kind): Machine {
    var i := |m.items|;
    Read(m, Item(kind, m.pos, -1, m.under), m.pos + 1).(open := m.open + [i], under := i)
  }

  ghost function Closed(m: Machine): Machine
    requires m.Valid() && m.open != []
  {
    var i, rest := Top(m.open), m.open[..|m.open| - 1];
    Machine(m.pos + 1, m.items[i := m.items[i].(end := m.pos + 1)], rest, Top(rest))
  }

  /** A comma behind a string or primitive goes back to the innermost open bracket. */
  ghost function AfterComma(m: Machine): int
    requires m.Valid()
  {
    if m.under != -1 && m.items[m.under].kind in {String, Primitive} && m.open != [] then Top(m.open) else m.under
  }

  datatype Move = To(next: Machine) | Fail(code: int)

  /** What the character at the machine's position asks for. */
  ghost function Advance(js: string, m: Machine, cap: nat): (r: Move)
    requires m.Valid() && m.pos < |js| && js[m.pos] != '\0'
    ensures r.To? ==> r.next.Valid() && m.pos < r.next.pos <= |js|
  {
    var c, full := js[m.pos], |m.items| >= cap;
    if c == '{' then if full then Fail(-1) else To(Opened(m, Object))
    else if c == '[' then if full then Fail(-1) else To(Opened(m, Array))
    else if c == '}' || c == ']' then
      if m.open == [] || m.items[Top(m.open)].kind != (if c == '}' then Object else Array) then Fail(-2)
      else To(Closed(m))
    else if c == '\"' then
      match StringScan(js, m.pos + 1)
      case Bad => Fail(-2)
      case Unterminated => Fail(-3)
      case Closed(q) => if full then Fail(-1) else To(Read(m, Item(String, m.pos + 1, q, m.under), q + 1))
    else if c == ' ' || c == '\t' || c == '\n' || c == '\r' then To(m.(pos := m.pos + 1))
    else if c == ':' then To(m.(pos := m.pos + 1, under := |m.items| - 1))
    else if c == ',' then To(m.(pos := m.pos + 1, under := AfterComma(m)))
    else
      var e := PrimitiveEnd(js, m.pos);
      if full then Fail(-1) else To(Read(m, Item(Primitive, m.pos, e, m.under), e))
  }

  ghost function ParentsOf(items: seq<Item>): (ps: seq<int>)
    ensures |ps| == |items|
  {
    seq(|items|, i requires 0 <= i < |items| => items[i].parent)
  }

  /** The state is the machine's, as tokens: sizes are numbers of children. */
  ghost predicate Shows(st: State, m: Machine) {
    && m.Valid() && st.Valid()
    && st.pos == m.pos && st.super == m.under && SameSpans(st.toks, m.items)
    && Forest(st.toks, ParentsOf(m.items))
    && IsOpenList(st.toks, m.open)
    && AllTyped(st.toks)
  }

  ghost predicate SameSpans(toks: seq<Token>, items: seq<Item>) {
    && |toks| == |items|
    && forall i :: 0 <= i < |items| ==>
         toks[i].kind == items[i].kind && toks[i].start == items[i].start && toks[i].end == items[i].end
  }

  ghost predicate AllTyped(toks: seq<Token>) {
    forall i :: 0 <= i < |toks| ==> Typed(toks[i])
  }

  ghost predicate Typed(t: Token) {
    t.kind != Undefined && (t.Open() ==> t.IsContainer())
  }

  /** `open` lists the unclosed tokens in order. */
  ghost predicate IsOpenList(toks: seq<Token>, open: seq<nat>) {
    && (forall k :: 0 <= k < |open| ==> open[k] < |toks| && toks[open[k]].Open())
    && (forall k, l :: 0 <= k < l < |open| ==> open[k] < open[l])
    && (forall i :: 0 <= i < |toks| && toks[i].Open() ==> i in open)
  }

  lemma LastOpenIsListed(toks: seq<Token>, open: seq<nat>)
    requires IsOpenList(toks, open)
    ensures LastOpen(toks) == Top(open)
    ensures AllTyped(toks) ==> LastOpenContainer(toks) == Top(open)
  {
    hide LastOpen, LastOpenContainer;
    forall i | 0 <= i < |toks| && toks[i].Open() ensures i <= Top(open) {
      assert i in open;
    }
    if open != [] {
      assert toks[open[|open| - 1]].Open();
    }
  }

  lemma ListSame(toks: seq<Token>, toks': seq<Token>, open: seq<nat>)
    requires IsOpenList(toks, open) && |toks'| == |toks|
    requires forall i :: 0 <= i < |toks| ==> toks'[i].Open() == toks[i].Open()
    ensures IsOpenList(toks', open)
  {
  }

  lemma ListAppendClosed(toks: seq<Token>, t: Token, open: seq<nat>)
    requires IsOpenList(toks, open) && !t.Open()
    ensures IsOpenList(toks + [t], open)
  {
    forall i | 0 <= i < |toks + [t]| && (toks + [t])[i].Open() ensures i in open {
      assert toks[i].Open();
    }
  }

  lemma ListAppendOpen(toks: seq<Token>, t: Token, open: seq<nat>)
    requires IsOpenList(toks, open) && t.Open()
    ensures IsOpenList(toks + [t], open + [|toks|])
  {
    var r, open' := toks + [t], open + [|toks|];
    assert forall k :: 0 <= k < |open| ==> open[k] < |toks| && toks[open[k]].Open();
    forall k, l | 0 <= k < l < |open'| ensures open'[k] < open'[l] {
      assert l < |open| ==> open[k] < open[l];
    }
    forall i | 0 <= i < |r| && r[i].Open() ensures i in open' {
      if i < |toks| {
        assert toks[i].Open() && i in open;
      } else {
        assert open'[|open|] == i;
      }
    }
  }

  lemma ListAdd(toks: seq<Token>, super: int, t: Token, open: seq<nat>)
    requires -1 <= super < |toks| && IsOpenList(toks, open)
    ensures IsOpenList(Add(toks, super, t), if t.Open() then open + [|toks|] else open)
  {
    hide IsOpenList;
    ListSame(toks, Bump(toks, super), open);
    if t.Open() {
      ListAppendOpen(Bump(toks, super), t, open);
    } else {
      ListAppendClosed(Bump(toks, super), t, open);
    }
  }

  lemma ListClose(toks: seq<Token>, open: seq<nat>, e: nat)
    requires IsOpenList(toks, open) && open != []
    ensures
      var i, rest := Top(open), open[..|open| - 1];
      IsOpenList(toks[i := toks[i].(end := e)], rest) && IsOpenList(toks[..i], rest)
  {
    var i, rest := Top(open), open[..|open| - 1];
    assert open == rest + [i];
    forall j | 0 <= j < |toks| && j != i && toks[j].Open() ensures j in rest && j < i {
      assert j in open;
    }
  }

  lemma ForestAdd(toks: seq<Token>, super: int, t: Token, ps: seq<int>)
    requires -1 <= super < |toks| && Forest(toks, ps) && t.size == 0
    ensures Forest(Add(toks, super, t), ps + [super])
  {
    var r, ps' := Add(toks, super, t), ps + [super];
    NoChildrenYet(ps, |toks|);
    assert ps'[..|ps|] == ps;
    forall i | 0 <= i < |r| ensures r[i].size == Children(ps', i) {
      assert i < |toks| ==> toks[i].size == Children(ps, i);
    }
  }

  /** Adding a token to both sides. */
  lemma AddShows(st: State, m: Machine, t: Token, st': State, m': Machine)
    requires Shows(st, m) && t.start >= 0 && t.size == 0 && Typed(t)
    requires st'.toks == Add(st.toks, st.super, t) && st'.pos == m'.pos && st'.super == m'.under && st'.Valid()
    requires m'.items == m.items + [Item(t.kind, t.start, t.end, m.under)]
    requires m'.open == if t.Open() then m.open + [|m.items|] else m.open
    ensures Shows(st', m')
  {
    hide Forest, IsOpenList, Add;
    AddAt(st.toks, st.super, t);
    ListAdd(st.toks, st.super, t, m.open);
    ForestAdd(st.toks, st.super, t, ParentsOf(m.items));
    assert ParentsOf(m'.items) == ParentsOf(m.items) + [m.under];
    forall i | 0 <= i < |st'.toks| ensures Typed(st'.toks[i]) {
      assert i < |st.toks| ==> Typed(st.toks[i]);
    }
  }

  lemma CloseShows(js: string, st: State, m: Machine)
    requires Shows(st, m) && At(js, st.pos) && CloseStep(js, st).Next?
    ensures m.open != [] && Shows(CloseStep(js, st).state, Closed(m))
  {
    hide LastOpen, Forest, IsOpenList, AllTyped;
    LastOpenIsListed(st.toks, m.open);
    ListClose(st.toks, m.open, st.pos + 1);
    var i, rest := Top(m.open), m.open[..|m.open| - 1];
    LastOpenIsListed(st.toks[..i], rest);
    var st' := CloseStep(js, st).state;
    assert ParentsOf(Closed(m).items) == ParentsOf(m.items);
    ForestKeeps(st.toks, st'.toks, ParentsOf(m.items));
    CloseSpans(st.toks, m.items, i, st.pos + 1);
  }

  lemma CloseSpans(toks: seq<Token>, items: seq<Item>, i: nat, e: nat)
    requires SameSpans(toks, items) && AllTyped(toks) && i < |toks|
    ensures
      var toks' := toks[i := toks[i].(end := e)];
      SameSpans(toks', items[i := items[i].(end := e)]) && AllTyped(toks')
  {
    var toks' := toks[i := toks[i].(end := e)];
    forall j | 0 <= j < |toks'| ensures Typed(toks'[j]) {
      assert Typed(toks[j]);
    }
  }

  lemma ForestKeeps(toks: seq<Token>, toks': seq<Token>, ps: seq<int>)
    requires Forest(toks, ps) && |toks'| == |toks|
    requires forall i :: 0 <= i < |toks| ==> toks'[i].size == toks[i].size
    ensures Forest(toks', ps)
  {
    forall i | 0 <= i < |toks'| ensures toks'[i].size == Children(ps, i) {
      assert toks[i].size == Children(ps, i);
    }
  }

  lemma CommaShows(st: State, m: Machine)
    requires Shows(st, m)
    ensures CommaSuper(st) == AfterComma(m)
  {
    hide LastOpenContainer, IsOpenList, Forest;
    LastOpenIsListed(st.toks, m.open);
    if st.super != -1 {
      assert Typed(st.toks[st.super]);
    }
  }

  /** One iteration moves both alike. */
  lemma StepShows(js: string, st: State, m: Machine, cap: nat)
    requires Shows(st, m) && At(js, st.pos)
    ensures
      match Advance(js, m, cap)
      case To(m') => Step(js, st, cap).Next? && Shows(Step(js, st, cap).state, m')
      case Fail(code) => Step(js, st, cap).Stop? && Err(Step(js, st, cap).error).Code() == code
  {
    hide Forest, IsOpenList, Add, StringScan, PrimitiveEnd, LastOpen, LastOpenContainer, Typed;
    var c := js[st.pos];
    LastOpenIsListed(st.toks, m.open);
    if IsClosing(c) {
      if CloseStep(js, st).Next? {
        CloseShows(js, st, m);
      }
    } else if c == ',' {
      CommaShows(st, m);
    } else if Step(js, st, cap).Next? && !IsSpace(c) && c != ':' {
      AddStepShows(js, st, m, cap);
    }
  }

  lemma AddStepShows(js: string, st: State, m: Machine, cap: nat)
    requires Shows(st, m) && At(js, st.pos) && Step(js, st, cap).Next?
    requires !IsClosing(js[st.pos]) && !IsSpace(js[st.pos]) && js[st.pos] != ':' && js[st.pos] != ','
    ensures Advance(js, m, cap).To? && Shows(Step(js, st, cap).state, Advance(js, m, cap).next)
  {
    hide Forest, IsOpenList, Add, StringScan, PrimitiveEnd, Shows;
    ShowsSame(st, m);
    var c := js[st.pos];
    var st', m' := Step(js, st, cap).state, Advance(js, m, cap).next;
    if IsOpening(c) {
      AddShows(st, m, Token(KindOf(c), st.pos, -1, 0), st', m');
    } else if c == '\"' {
      AddShows(st, m, Token(String, st.pos + 1, StringScan(js, st.pos + 1).quote, 0), st', m');
    } else {
      AddShows(st, m, Token(Primitive, st.pos, PrimitiveEnd(js, st.pos), 0), st', m');
    }
  }

  lemma ShowsSame(st: State, m: Machine)
    requires Shows(st, m)
    ensures m.Valid() && st.Valid() && st.pos == m.pos && st.super == m.under && |st.toks| == |m.items|
  {
  }

  /** The whole reference run: where the machine stops, and the return code. */
  ghost function Tokenize(js: string, m: Machine, cap: nat): (Machine, int)
    requires m.Valid()
    decreases |js| - m.pos
  {
    if m.pos >= |js| || js[m.pos] == '\0' then (m, if m.open == [] then |m.items| else -3)
    else
      match Advance(js, m, cap)
      case Fail(code) => (m, code)
      case To(m') => Tokenize(js, m', cap)
  }

  lemma {:induction false} RunShows(js: string, st: State, m: Machine, cap: nat)
    requires Shows(st, m)
    ensures
      var (m', code) := Tokenize(js, m, cap);
      Shows(Run(js, st, cap).0, m') && Run(js, st, cap).1.Code() == code
    decreases |js| - st.pos
  {
    hide Shows, Advance, Step, LastOpen;
    ShowsSame(st, m);
    if !At(js, st.pos) {
      EndShows(st, m);
    } else {
      StepShows(js, st, m, cap);
      match Advance(js, m, cap)
      case Fail(_) =>
      case To(m') =>
        ShowsSame(Step(js, st, cap).state, m');
        RunShows(js, Step(js, st, cap).state, m', cap);
    }
  }

  lemma EndShows(st: State, m: Machine)
    requires Shows(st, m)
    ensures LastOpen(st.toks) == Top(m.open)
  {
    LastOpenIsListed(st.toks, m.open);
  }

  const START := Machine(0, [], [], -1)

  /**
   On every input and at every capacity, the tokenizer's return code is the reference's, and
   its tokens are the reference's items, in the same order and with the same spans, each
   with as many children as items were recorded under it.
   */
  lemma TokenizesLikeReference(js: string, cap: nat)
    ensures
      var ((st, r), (m, code)) := (Run(js, INITIAL_STATE, cap), Tokenize(js, START, cap));
      && r.Code() == code && st.pos == m.pos && st.super == m.under && |st.toks| == |m.items|
      && forall i :: 0 <= i < |m.items| ==>
           st.toks[i] == Token(m.items[i].kind, m.items[i].start, m.items[i].end, Children(ParentsOf(m.items), i))
  {
    hide Run, Tokenize;
    RunShows(js, INITIAL_STATE, START, cap);
  }
}
