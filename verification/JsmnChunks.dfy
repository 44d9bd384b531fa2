/**
 Parsing text that arrives in pieces: the parser is called on a prefix, then again on the
 longer text with the same state. In the non-strict variant this agrees with one call
 unless the cut falls inside a primitive.
 */
module JsmnChunks {
  import opened Basics
  import opened JsmnSpec
  import opened JsmnInvariants

  /** A primitive that stops at `e` would go on there. */
  ghost predicate GoesOn(js: string, e: nat) {
    At(js, e) && !EndsPrimitive(js[e])
  }

  lemma AtExtends(js: string, more: string, p: nat)
    ensures At(js, p) ==> At(js + more, p) && (js + more)[p] == js[p]
  {
  }

  lemma {:induction false} PrimitiveExtends(js: string, more: string, p: nat)
    requires p <= |js|
    ensures
      var e := PrimitiveEnd(js, p);
      if e == |js| && GoesOn(js + more, e) then PrimitiveEnd(js + more, p) > e else PrimitiveEnd(js + more, p) == e
    decreases |js| - p
  {
    if !At(js, p) || EndsPrimitive(js[p]) {
    } else {
      PrimitiveExtends(js, more, p + 1);
    }
  }

  lemma {:induction false} HexExtends(js: string, more: string, p: nat, n: nat)
    requires p <= |js| && HexScan(js, p, n).Some? && HexScan(js, p, n).value < |js|
    ensures HexScan(js + more, p, n) == HexScan(js, p, n)
    decreases n
  {
    if n == 0 || !At(js, p) {
    } else {
      HexExtends(js, more, p + 1, n - 1);
    }
  }

  /** A string that closes within the prefix closes at the same quote. */
  lemma {:induction false} StringExtends(js: string, more: string, p: nat)
    requires StringScan(js, p).Closed?
    ensures StringScan(js + more, p) == StringScan(js, p)
    decreases |js| - p
  {
    var js' := js + more;
    if js[p] == '\"' {
    } else if js[p] == '\\' && p + 1 < |js| {
      if IsSimpleEscape(js[p + 1]) {
        StringExtends(js, more, p + 2);
      } else {
        var q := HexScan(js, p + 2, 4).value;
        HexExtends(js, more, p + 2, 4);
        StringExtends(js, more, q);
      }
    } else {
      StringExtends(js, more, p + 1);
    }
  }

  ghost predicate StartsPrimitive(c: char) {
    !IsOpening(c) && !IsClosing(c) && c != '\"' && !EndsPrimitive(c)
  }

  lemma StepExtends(js: string, more: string, st: State, cap: nat, st': State)
    requires st.Valid() && At(js, st.pos) && Step(js, st, cap) == Next(st')
    requires StartsPrimitive(js[st.pos]) ==> st'.pos < |js| || !GoesOn(js + more, st'.pos)
    ensures Step(js + more, st, cap) == Next(st')
  {
    hide LastOpen, LastOpenContainer, Add;
    var c := js[st.pos];
    if c == '\"' {
      StringExtends(js, more, st.pos + 1);
    } else if StartsPrimitive(c) {
      PrimitiveExtends(js, more, st.pos);
    }
  }

  /** The prefix ended inside a primitive that the rest continues. */
  ghost predicate CutsPrimitive(js: string, more: string, st: State) {
    && st.pos == |js| && st.toks != [] && GoesOn(js + more, |js|)
    && var last := st.toks[|st.toks| - 1]; last.kind == Primitive && last.end == |js|
  }

  lemma EndsInPrimitive(js: string, more: string, st: State, cap: nat, st': State)
    requires Spans(js, st) && At(js, st.pos) && Step(js, st, cap) == Next(st') && CutsPrimitive(js, more, st')
    ensures StartsPrimitive(js[st.pos])
  {
    hide LastOpen, StringScan, PrimitiveEnd, Framed, Laminar;
    var last := |st'.toks| - 1;
    if last < |st.toks| {
      assert Within(st.toks[last], st.pos);
    }
  }

  lemma PrimitiveAtEndIsCut(js: string, more: string, st: State, cap: nat, st': State)
    requires st.Valid() && At(js, st.pos) && Step(js, st, cap) == Next(st')
    requires StartsPrimitive(js[st.pos]) && st'.pos == |js| && GoesOn(js + more, |js|)
    ensures CutsPrimitive(js, more, st')
  {
  }

  /** Without such a cut, parsing the prefix first makes no difference. */
  lemma {:induction false} ChunksAgree(js: string, more: string, st: State, cap: nat)
    requires st.Valid() && (At(js, st.pos) ==> !CutsPrimitive(js, more, Run(js, st, cap).0))
    ensures Run(js + more, Run(js, st, cap).0, cap) == Run(js + more, st, cap)
    decreases |js| - st.pos
  {
    hide CutsPrimitive, Step, GoesOn;
    if !At(js, st.pos) || Step(js, st, cap).Stop? {
    } else {
      var st' := Step(js, st, cap).state;
      if StartsPrimitive(js[st.pos]) && st'.pos == |js| && GoesOn(js + more, |js|) {
        PrimitiveAtEndIsCut(js, more, st, cap, st');
      }
      StepExtends(js, more, st, cap, st');
      AtExtends(js, more, st.pos);
      ChunksAgree(js, more, st', cap);
    }
  }

  /** The end of a token that has one never changes again. */
  lemma {:induction false} ClosedStays(js: string, st: State, cap: nat, i: nat)
    requires st.Valid() && i < |st.toks| && !st.toks[i].Open()
    ensures
      var toks := Run(js, st, cap).0.toks;
      i < |toks| && toks[i].end == st.toks[i].end
    decreases |js| - st.pos
  {
    if !At(js, st.pos) || Step(js, st, cap).Stop? {
    } else {
      ClosedStaysStep(js, st, cap, i);
      ClosedStays(js, Step(js, st, cap).state, cap, i);
    }
  }

  lemma ClosedStaysStep(js: string, st: State, cap: nat, i: nat)
    requires st.Valid() && i < |st.toks| && !st.toks[i].Open() && At(js, st.pos) && Step(js, st, cap).Next?
    ensures
      var toks := Step(js, st, cap).state.toks;
      i < |toks| && toks[i].end == st.toks[i].end && !toks[i].Open()
  {
    hide StringScan, PrimitiveEnd;
  }

  /** With one, the token that was cut keeps its short span. */
  lemma {:induction false} ChunksDiffer(js: string, more: string, st: State, cap: nat)
    requires Spans(js, st) && At(js, st.pos) && CutsPrimitive(js, more, Run(js, st, cap).0)
    ensures Run(js + more, Run(js, st, cap).0, cap).0 != Run(js + more, st, cap).0
    decreases |js| - st.pos
  {
    hide Step, Framed, Laminar, Within;
    var js' := js + more;
    AtExtends(js, more, st.pos);
    var st' := Step(js, st, cap).state;
    StepKeepsSpans(js, st, cap, st');
    if At(js, st'.pos) {
      assert st'.pos < |js|;
      StepExtends(js, more, st, cap, st');
      ChunksDiffer(js, more, st', cap);
    } else {
      EndsInPrimitive(js, more, st, cap, st');
      LongerToken(js, more, st, cap, st');
      var n := |st.toks|;
      ClosedStays(js', st', cap, n);
      ClosedStays(js', Step(js', st, cap).state, cap, n);
    }
  }

  lemma LongerToken(js: string, more: string, st: State, cap: nat, st': State)
    requires st.Valid() && At(js, st.pos) && At(js + more, st.pos) && StartsPrimitive(js[st.pos])
    requires Step(js, st, cap) == Next(st') && st'.pos == |js| && GoesOn(js + more, |js|)
    ensures
      var r, n := Step(js + more, st, cap), |st.toks|;
      && r.Next? && |r.state.toks| == n + 1 == |st'.toks|
      && !r.state.toks[n].Open() && !st'.toks[n].Open() && r.state.toks[n].end > st'.toks[n].end
  {
    PrimitiveExtends(js, more, st.pos);
  }

  /**
   Two calls, on a prefix and then on the whole text, end like one call on the whole text
   exactly when the prefix does not end inside a primitive that the rest continues.
   */
  lemma ChunksAgreeExactly(js: string, more: string, cap: nat)
    ensures Run(js + more, Run(js, INITIAL_STATE, cap).0, cap) == Run(js + more, INITIAL_STATE, cap)
            <==> !CutsPrimitive(js, more, Run(js, INITIAL_STATE, cap).0)
  {
    hide CutsPrimitive;
    if CutsPrimitive(js, more, Run(js, INITIAL_STATE, cap).0) {
      NothingIsNotCut(js, more);
      ChunksDiffer(js, more, INITIAL_STATE, cap);
    } else {
      ChunksAgree(js, more, INITIAL_STATE, cap);
    }
  }

  lemma NothingIsNotCut(js: string, more: string)
    ensures !CutsPrimitive(js, more, INITIAL_STATE)
  {
  }

  /** The number 12 handed over as 1 and then 12 becomes two tokens for which one entry is not enough. */
  lemma NumberCanBeCut()
    ensures Run("1" + "2", Run("1", INITIAL_STATE, 1).0, 1) != Run("1" + "2", INITIAL_STATE, 1)
  {
    var st := State(1, [Token(Primitive, 0, 1, 0)], -1);
    assert PrimitiveEnd("1", 0) == 1;
    assert Step("1", INITIAL_STATE, 1) == Next(st);
    assert Run("1", INITIAL_STATE, 1).0 == st;
    assert CutsPrimitive("1", "2", st);
    ChunksAgreeExactly("1", "2", 1);
  }
}
