/**
 The token array's capacity: the counting mode predicts it exactly, and a run that hit it
 can be resumed with a larger array.
 */
module JsmnCapacity {
  import opened Basics
  import opened JsmnSpec
  import opened JsmnAcceptance

  lemma CountStepLex(js: string, st: CountState, toknext: nat, st': CountState)
    requires At(js, st.pos) && CountStep(js, st, toknext) == CountNext(st')
    ensures
      var xs, xs' := Lex(js, st.pos), Lex(js, st'.pos);
      xs == if xs'.Some? then Some(Seen(js, st.pos) + xs'.value) else None
    ensures st'.count == st.count + TokenCount(Seen(js, st.pos))
  {
    var xs' := Lex(js, st'.pos);
    assert xs'.Some? ==> [] + xs'.value == xs'.value;
    assert Seen(js, st.pos) != [] ==> Seen(js, st.pos)[1..] == [];
  }

  /** The counting mode counts lexemes, and fails exactly when a string scan does. */
  lemma {:induction false} CountIsLex(js: string, st: CountState, toknext: nat)
    ensures
      var r, xs := CountRun(js, st, toknext).1, Lex(js, st.pos);
      if xs.Some? then r == Ok(st.count + TokenCount(xs.value)) else r.Err?
    decreases |js| - st.pos
  {
    if !At(js, st.pos) {
    } else {
      match CountStep(js, st, toknext)
      case CountStop(_) =>
      case CountNext(st') =>
        CountStepLex(js, st, toknext, st');
        CountIsLex(js, st', toknext);
        if Lex(js, st'.pos).Some? {
          TokenCountSplit(Seen(js, st.pos), Lex(js, st'.pos).value);
        }
    }
  }

  /** Where counting from `p` stops, its return code, and the superior token it leaves. */
  ghost function Tally(js: string, p: nat, n: nat, super: int, toknext: nat): (nat, int, int)
    decreases |js| - p
  {
    if p >= |js| || js[p] == '\0' then (p, n, super)
    else if js[p] == '{' || js[p] == '[' then Tally(js, p + 1, n + 1, super, toknext)
    else if js[p] == '\"' then
      match StringScan(js, p + 1)
      case Closed(q) => Tally(js, q + 1, n + 1, super, toknext)
      case Bad => (p, -2, super)
      case Unterminated => (p, -3, super)
    else if js[p] in {'}', ']', ',', ' ', '\t', '\r', '\n'} then Tally(js, p + 1, n, super, toknext)
    else if js[p] == ':' then Tally(js, p + 1, n, toknext - 1, toknext)
    else Tally(js, PrimitiveEnd(js, p), n + 1, super, toknext)
  }

  /** What counting returns and leaves behind, failing strings included. */
  lemma {:induction false} CountIsTally(js: string, st: CountState, toknext: nat)
    ensures
      var (st', r) := CountRun(js, st, toknext);
      (st'.pos, r.Code(), st'.super) == Tally(js, st.pos, st.count, st.super, toknext)
    decreases |js| - st.pos
  {
    if !At(js, st.pos) {
    } else {
      match CountStep(js, st, toknext)
      case CountStop(_) =>
      case CountNext(st') => CountIsTally(js, st', toknext);
    }
  }

  /** A filling run with room for every lexeme never runs out, and one that succeeds had the room. */
  lemma {:induction false} FillNeedsTokenCount(js: string, st: State, cap: nat)
    requires st.Valid()
    ensures
      var r, xs := Run(js, st, cap).1, Lex(js, st.pos);
      && (xs.Some? && |st.toks| + TokenCount(xs.value) <= cap ==> r != Err(NoMem))
      && (r.Ok? ==>
            && xs.Some?
            && r.count == |st.toks| + TokenCount(xs.value)
            && (r.count > |st.toks| ==> r.count <= cap))
    decreases |js| - st.pos
  {
    if !At(js, st.pos) {
    } else {
      match Step(js, st, cap)
      case Stop(_) =>
      case Next(st') =>
        LexStep(js, st, cap, st');
        StepCounts(js, st, cap, st');
        FillNeedsTokenCount(js, st', cap);
        if Lex(js, st'.pos).Some? {
          TokenCountSplit(Seen(js, st.pos), Lex(js, st'.pos).value);
        }
    }
  }

  ghost function Counted(js: string): Result {
    CountRun(js, CountState(0, -1, 0), 0).1
  }

  /**
   The counting mode is an exact oracle for the capacity. When it answers `n`, no run with
   room for `n` tokens hits NOMEM, no smaller one succeeds, and every success returns `n`;
   when it fails, no filling run succeeds.
   */
  lemma CountingIsAnOracle(js: string, cap: nat)
    ensures
      var r := Run(js, INITIAL_STATE, cap).1;
      match Counted(js)
      case Ok(n) => (n <= cap ==> r != Err(NoMem)) && (r.Ok? ==> n <= cap && r == Ok(n))
      case Err(_) => !r.Ok?
  {
    CountIsLex(js, CountState(0, -1, 0), 0);
    FillNeedsTokenCount(js, INITIAL_STATE, cap);
  }

  /** Success, for every input and every capacity. */
  lemma SucceedsExactly(js: string, cap: nat)
    ensures Run(js, INITIAL_STATE, cap).1.Ok? <==>
            Lex(js, 0).Some? && WellMatched(Lex(js, 0).value) && TokenCount(Lex(js, 0).value) <= cap
  {
    FillNeedsTokenCount(js, INITIAL_STATE, cap);
    if Lex(js, 0).Some? && TokenCount(Lex(js, 0).value) <= cap {
      AcceptsExactly(js, cap);
    }
  }

  /**
   Resumption: a run stopped by NOMEM, continued with a larger array, ends as if the larger
   array had been there from the start.
   */
  lemma {:induction false} ResumeAfterNoMem(js: string, st: State, cap: nat, cap': nat)
    requires st.Valid() && cap <= cap' && Run(js, st, cap).1 == Err(NoMem)
    ensures Run(js, Run(js, st, cap).0, cap') == Run(js, st, cap')
    decreases |js| - st.pos
  {
    match Step(js, st, cap)
    case Stop(_) =>
    case Next(st') =>
      assert Step(js, st, cap') == Next(st');
      ResumeAfterNoMem(js, st', cap, cap');
  }
}
