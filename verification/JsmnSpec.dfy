/**
 The JSON tokenizer of `jsmn.h` (non-strict, no parent links) as a step function on values.

 A `State` is what `jsmn_parser` and the filled part of the token array hold together:
 `toks` is `tokens[0..toknext)`. Every error exit of the C code restores the parser to
 what it was before the offending character, so `Run` pairs the state with the result.
 */
module JsmnSpec {
  import opened Basics

  datatype Kind = Undefined | Object | Array | String | Primitive

  datatype Token = Token(kind: Kind, start: int, end: int, size: int) {
    predicate Open() {
      start != -1 && end == -1
    }

    predicate IsContainer() {
      kind == Array || kind == Object
    }
  }

  datatype Error = NoMem | Inval | Part

  datatype Result = Ok(count: nat) | Err(error: Error) {
    /** The `int` that `jsmn_parse` returns. */
    function Code(): int {
      match this
      case Ok(n) => n
      case Err(NoMem) => -1
      case Err(Inval) => -2
      case Err(Part) => -3
    }
  }

  datatype State = State(pos: nat, toks: seq<Token>, super: int) {
    ghost predicate Valid() {
      -1 <= super < |toks|
    }
  }

  datatype StepResult = Next(state: State) | Stop(error: Error)

  /** `jsmn_init`. */
  const INITIAL_STATE := State(0, [], -1)

  // ----- Scanning

  /** The guard shared by all scanning loops. */
  predicate At(js: string, p: nat) {
    p < |js| && js[p] != '\0'
  }

  predicate IsSpace(c: char) {
    c == '\t' || c == '\r' || c == '\n' || c == ' '
  }

  predicate EndsPrimitive(c: char) {
    c == ':' || IsSpace(c) || c == ',' || c == ']' || c == '}'
  }

  predicate IsHex(c: char) {
    '0' <= c <= '9' || 'A' <= c <= 'F' || 'a' <= c <= 'f'
  }

  predicate IsSimpleEscape(c: char) {
    c == '\"' || c == '/' || c == '\\' || c == 'b' || c == 'f' || c == 'r' || c == 'n' || c == 't'
  }

  function PrimitiveEnd(js: string, p: nat): (e: nat)
    requires p <= |js|
    ensures p <= e <= |js|
    ensures At(js, e) ==> EndsPrimitive(js[e])
    ensures forall i :: p <= i < e ==> At(js, i) && !EndsPrimitive(js[i])
    decreases |js| - p
  {
    if At(js, p) && !EndsPrimitive(js[p]) then PrimitiveEnd(js, p + 1) else p
  }

  /** Up to `n` hex digits from `p`; `None` on the first character that is not one. */
  function HexScan(js: string, p: nat, n: nat): (r: Option<nat>)
    requires p <= |js|
    ensures r.Some? ==> p <= r.value <= |js|
    decreases n
  {
    if n == 0 || !At(js, p) then Some(p)
    else if IsHex(js[p]) then HexScan(js, p + 1, n - 1)
    else None
  }

  datatype Scan = Closed(quote: nat) | Bad | Unterminated

  /** The loop of `jsmn_parse_string`, standing at `p` inside the string. */
  function StringScan(js: string, p: nat): (r: Scan)
    ensures r.Closed? ==> p <= r.quote < |js| && js[r.quote] == '\"'
    decreases |js| - p
  {
    if !At(js, p) then Unterminated
    else if js[p] == '\"' then Closed(p)
    else if js[p] == '\\' && p + 1 < |js| then
      if IsSimpleEscape(js[p + 1]) then StringScan(js, p + 2)
      else if js[p + 1] == 'u' then
        match HexScan(js, p + 2, 4)
        case Some(q) => StringScan(js, q)
        case None => Bad
      else Bad
    else StringScan(js, p + 1)
  }

  // ----- The token array

  /** Where the backward scan for an unclosed token stops; -1 if it falls off the front. */
  function LastOpen(toks: seq<Token>): (i: int)
    ensures -1 <= i < |toks|
    ensures i >= 0 ==> toks[i].Open()
    ensures forall j :: i < j < |toks| ==> !toks[j].Open()
  {
    if toks == [] then -1
    else if toks[|toks| - 1].Open() then |toks| - 1
    else LastOpen(toks[..|toks| - 1])
  }

  /** The scan of the `,` case, which looks at the type as well. */
  function LastOpenContainer(toks: seq<Token>): (i: int)
    ensures -1 <= i < |toks|
    ensures i >= 0 ==> toks[i].Open() && toks[i].IsContainer()
    ensures forall j :: i < j < |toks| ==> !(toks[j].Open() && toks[j].IsContainer())
  {
    if toks == [] then -1
    else
      var last := toks[|toks| - 1];
      if last.Open() && last.IsContainer() then |toks| - 1 else LastOpenContainer(toks[..|toks| - 1])
  }

  function Bump(toks: seq<Token>, super: int): (r: seq<Token>)
    requires -1 <= super < |toks|
    ensures |r| == |toks|
  {
    if super == -1 then toks else toks[super := toks[super].(size := toks[super].size + 1)]
  }

  /** Allocate `tok` under the current superior token. */
  function Add(toks: seq<Token>, super: int, tok: Token): seq<Token>
    requires -1 <= super < |toks|
  {
    Bump(toks, super) + [tok]
  }

  function KindOf(c: char): Kind {
    if c == '{' || c == '}' then Object else Array
  }

  // ----- One iteration of the main loop

  predicate IsOpening(c: char) { c == '{' || c == '[' }
  predicate IsClosing(c: char) { c == '}' || c == ']' }

  function OpenStep(js: string, st: State, cap: nat): StepResult
    requires st.Valid() && At(js, st.pos)
  {
    if |st.toks| >= cap then Stop(NoMem)
    else Next(State(st.pos + 1, Add(st.toks, st.super, Token(KindOf(js[st.pos]), st.pos, -1, 0)), |st.toks|))
  }

  function CloseStep(js: string, st: State): StepResult
    requires st.Valid() && At(js, st.pos)
  {
    var i := LastOpen(st.toks);
    if i == -1 || st.toks[i].kind != KindOf(js[st.pos]) then Stop(Inval)
    else Next(State(st.pos + 1, st.toks[i := st.toks[i].(end := st.pos + 1)], LastOpen(st.toks[..i])))
  }

  function StringStep(js: string, st: State, cap: nat): StepResult
    requires st.Valid() && At(js, st.pos)
  {
    match StringScan(js, st.pos + 1)
    case Bad => Stop(Inval)
    case Unterminated => Stop(Part)
    case Closed(q) =>
      if |st.toks| >= cap then Stop(NoMem)
      else Next(State(q + 1, Add(st.toks, st.super, Token(String, st.pos + 1, q, 0)), st.super))
  }

  function PrimitiveStep(js: string, st: State, cap: nat): StepResult
    requires st.Valid() && At(js, st.pos)
  {
    var e := PrimitiveEnd(js, st.pos);
    if |st.toks| >= cap then Stop(NoMem)
    else Next(State(e, Add(st.toks, st.super, Token(Primitive, st.pos, e, 0)), st.super))
  }

  /** The superior token after a `,`. */
  function CommaSuper(st: State): (s: int)
    requires st.Valid()
    ensures -1 <= s < |st.toks|
  {
    if st.super != -1 && !st.toks[st.super].IsContainer() && LastOpenContainer(st.toks) != -1
    then LastOpenContainer(st.toks)
    else st.super
  }

  function Step(js: string, st: State, cap: nat): (r: StepResult)
    requires st.Valid() && At(js, st.pos)
    ensures r.Next? ==> r.state.Valid() && st.pos < r.state.pos <= |js|
  {
    var c := js[st.pos];
    if IsOpening(c) then OpenStep(js, st, cap)
    else if IsClosing(c) then CloseStep(js, st)
    else if c == '\"' then StringStep(js, st, cap)
    else if IsSpace(c) then Next(st.(pos := st.pos + 1))
    else if c == ':' then Next(st.(pos := st.pos + 1, super := |st.toks| - 1))
    else if c == ',' then Next(st.(pos := st.pos + 1, super := CommaSuper(st)))
    else PrimitiveStep(js, st, cap)
  }

  /** `jsmn_parse` with a token array of which `cap` entries may be used. */
  function Run(js: string, st: State, cap: nat): (r: (State, Result))
    requires st.Valid()
    ensures r.0.Valid()
    decreases |js| - st.pos
  {
    if !At(js, st.pos) then
      (st, if LastOpen(st.toks) >= 0 then Err(Part) else Ok(|st.toks|))
    else
      match Step(js, st, cap)
      case Next(st') => Run(js, st', cap)
      case Stop(e) => (st, Err(e))
  }

  // ----- Counting mode (`tokens == NULL`): nothing is allocated, brackets are not matched

  datatype CountState = CountState(pos: nat, super: int, count: nat)

  datatype CountResult = CountNext(state: CountState) | CountStop(error: Error)

  function CountStep(js: string, st: CountState, toknext: nat): (r: CountResult)
    requires At(js, st.pos)
    ensures r.CountNext? ==> st.pos < r.state.pos <= |js|
  {
    var c := js[st.pos];
    if IsOpening(c) then CountNext(st.(pos := st.pos + 1, count := st.count + 1))
    else if IsClosing(c) || IsSpace(c) || c == ',' then CountNext(st.(pos := st.pos + 1))
    else if c == '\"' then
      match StringScan(js, st.pos + 1)
      case Bad => CountStop(Inval)
      case Unterminated => CountStop(Part)
      case Closed(q) => CountNext(st.(pos := q + 1, count := st.count + 1))
    else if c == ':' then CountNext(st.(pos := st.pos + 1, super := toknext - 1))
    else CountNext(st.(pos := PrimitiveEnd(js, st.pos), count := st.count + 1))
  }

  function CountRun(js: string, st: CountState, toknext: nat): (CountState, Result)
    decreases |js| - st.pos
  {
    if !At(js, st.pos) then (st, Ok(st.count))
    else
      match CountStep(js, st, toknext)
      case CountNext(st') => CountRun(js, st', toknext)
      case CountStop(e) => (st, Err(e))
  }
}
