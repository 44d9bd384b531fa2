/**
 The parser as `jsmn.h` runs it: a mutable record, a token array written in place, and
 backward scans over that array. Each method is proved against `JsmnSpec`.
 A null `tokens` is the counting mode; `js` carries its own length.
 */
module JsmnParser {
  import opened Basics
  import opened JsmnSpec

  class Parser {
    var pos: nat
    var toknext: nat
    var toksuper: int

    /** `jsmn_init`. */
    constructor ()
      ensures pos == 0 && toknext == 0 && toksuper == -1
    {
      pos, toknext, toksuper := 0, 0, -1;
    }

    /** What a call needs: the allocated tokens exist, and the superior token is one of them. */
    ghost predicate Fits(tokens: array<Token>, numTokens: nat)
      reads this
    {
      toknext <= tokens.Length && numTokens <= tokens.Length && -1 <= toksuper < toknext
    }

    ghost function View(tokens: array<Token>): (st: State)
      requires toknext <= tokens.Length
      reads this, tokens
    {
      State(pos, tokens[..toknext], toksuper)
    }

    /** Returns the index of the new token, or -1 for the null pointer. */
    method AllocToken(tokens: array<Token>, numTokens: nat) returns (i: int)
      requires numTokens <= tokens.Length
      modifies this`toknext, tokens
      ensures old(toknext) >= numTokens ==> i == -1 && toknext == old(toknext) && tokens[..] == old(tokens[..])
      ensures old(toknext) < numTokens ==>
                && i == old(toknext) && toknext == i + 1
                && tokens[..] == old(tokens[..])[i := Token(old(tokens[i].kind), -1, -1, 0)]
    {
      if toknext >= numTokens {
        return -1;
      }
      i := toknext;
      toknext := toknext + 1;
      tokens[i] := Token(tokens[i].kind, -1, -1, 0);
    }

    method FillToken(tokens: array<Token>, i: nat, kind: Kind, start: int, end: int)
      requires i < tokens.Length
      modifies tokens
      ensures tokens[..] == old(tokens[..])[i := Token(kind, start, end, 0)]
    {
      tokens[i] := Token(kind, start, end, 0);
    }

    /** Stops on the last character of the primitive; the caller's loop steps over it. */
    method ParsePrimitive(js: string, tokens: array?<Token>, numTokens: nat) returns (r: int)
      requires At(js, pos) && !EndsPrimitive(js[pos])
      requires tokens != null ==> Fits(tokens, numTokens)
      modifies this, tokens
      ensures toksuper == old(toksuper)
      ensures tokens == null ==> r == 0 && pos + 1 == PrimitiveEnd(js, old(pos)) && toknext == old(toknext)
      ensures tokens != null && old(toknext) >= numTokens ==>
                r == -1 && pos == old(pos) && toknext == old(toknext) && tokens[..] == old(tokens[..])
      ensures tokens != null && old(toknext) < numTokens ==>
                && r == 0 && pos + 1 == PrimitiveEnd(js, old(pos)) && toknext == old(toknext) + 1
                && tokens[..] == old(tokens[..])[old(toknext) := Token(Primitive, old(pos), pos + 1, 0)]
    {
      var start := pos;
      while At(js, pos) && !EndsPrimitive(js[pos])
        invariant start <= pos <= |js|
        invariant PrimitiveEnd(js, pos) == PrimitiveEnd(js, start)
        invariant toknext == old(toknext) && toksuper == old(toksuper)
        invariant tokens != null ==> tokens[..] == old(tokens[..])
        decreases |js| - pos
      {
        pos := pos + 1;
      }
      if tokens == null {
        pos := pos - 1;
        return 0;
      }
      var i := AllocToken(tokens, numTokens);
      if i == -1 {
        pos := start;
        return -1;
      }
      FillToken(tokens, i, Primitive, start, pos);
      pos := pos - 1;
      return 0;
    }

    /** The `\uXXXX` loop; returns false on a character that is not a hex digit. */
    method SkipHex(js: string) returns (ok: bool)
      requires pos <= |js|
      modifies this`pos
      ensures ok == HexScan(js, old(pos), 4).Some?
      ensures ok ==> pos == HexScan(js, old(pos), 4).value
    {
      var i := 0;
      while i < 4 && At(js, pos)
        invariant i <= 4 && pos <= |js|
        invariant HexScan(js, pos, 4 - i) == HexScan(js, old(pos), 4)
      {
        if !IsHex(js[pos]) {
          return false;
        }
        pos := pos + 1;
        i := i + 1;
      }
      return true;
    }

    /** Stops on the closing quote; every failure puts `pos` back on the opening one. */
    method ParseString(js: string, tokens: array?<Token>, numTokens: nat) returns (r: int)
      requires At(js, pos)
      requires tokens != null ==> Fits(tokens, numTokens)
      modifies this, tokens
      ensures toksuper == old(toksuper)
      ensures StringScan(js, old(pos) + 1).Bad? ==> r == -2
      ensures StringScan(js, old(pos) + 1).Unterminated? ==> r == -3
      ensures StringScan(js, old(pos) + 1).Closed? ==>
                r == if tokens != null && old(toknext) >= numTokens then -1 else 0
      ensures r != 0 ==> pos == old(pos)
      ensures r == 0 ==> StringScan(js, old(pos) + 1) == Closed(pos)
      ensures r != 0 || tokens == null ==> toknext == old(toknext)
      ensures r != 0 && tokens != null ==> tokens[..] == old(tokens[..])
      ensures r == 0 && tokens != null ==>
                && toknext == old(toknext) + 1
                && tokens[..] == old(tokens[..])[old(toknext) := Token(String, old(pos) + 1, pos, 0)]
    {
      var start := pos;
      pos := pos + 1;
      while At(js, pos)
        invariant start < pos
        invariant StringScan(js, pos) == StringScan(js, start + 1)
        invariant toknext == old(toknext) && toksuper == old(toksuper)
        invariant tokens != null ==> tokens[..] == old(tokens[..])
        decreases |js| - pos
      {
        var c := js[pos];
        if c == '\"' {
          if tokens == null {
            return 0;
          }
          var i := AllocToken(tokens, numTokens);
          if i == -1 {
            pos := start;
            return -1;
          }
          FillToken(tokens, i, String, start + 1, pos);
          return 0;
        }
        if c == '\\' && pos + 1 < |js| {
          pos := pos + 1;
          if js[pos] == 'u' {
            pos := pos + 1;
            var ok := SkipHex(js);
            if !ok {
              pos := start;
              return -2;
            }
            pos := pos - 1;
          } else if !IsSimpleEscape(js[pos]) {
            pos := start;
            return -2;
          }
        }
        pos := pos + 1;
      }
      pos := start;
      return -3;
    }

    /** The `{` and `[` case. */
    method OpenContainer(js: string, tokens: array<Token>, numTokens: nat) returns (r: int)
      requires At(js, pos) && IsOpening(js[pos]) && Fits(tokens, numTokens)
      modifies this, tokens
      ensures pos == old(pos) && Fits(tokens, numTokens)
      ensures old(toknext) >= numTokens ==> r == -1 && View(tokens) == old(View(tokens))
      ensures old(toknext) < numTokens ==>
                r == 0 && Next(View(tokens).(pos := pos + 1)) == OpenStep(js, old(View(tokens)), numTokens)
      ensures tokens[toknext..] == old(tokens[..])[toknext..]
    {
      var c := js[pos];
      var i := AllocToken(tokens, numTokens);
      if i == -1 {
        return -1;
      }
      if toksuper != -1 {
        tokens[toksuper] := tokens[toksuper].(size := tokens[toksuper].size + 1);
      }
      tokens[i] := tokens[i].(kind := if c == '{' then Object else Array);
      tokens[i] := tokens[i].(start := pos);
      toksuper := toknext - 1;
      assert tokens[..toknext] == OpenStep(js, old(View(tokens)), numTokens).state.toks;
      return 0;
    }

    /** The backward scan for an unclosed token, starting at index `i`. */
    method ScanOpen(tokens: array<Token>, i: int) returns (j: int)
      requires -1 <= i < tokens.Length
      ensures j == LastOpen(tokens[..i + 1])
    {
      j := i;
      while j >= 0 && !tokens[j].Open()
        invariant -1 <= j <= i
        invariant LastOpen(tokens[..j + 1]) == LastOpen(tokens[..i + 1])
      {
        assert tokens[..j + 1][..j] == tokens[..j];
        j := j - 1;
      }
    }

    /** The `}` and `]` case: two backward scans over the array. */
    method CloseContainer(js: string, tokens: array<Token>, numTokens: nat) returns (r: int)
      requires At(js, pos) && IsClosing(js[pos]) && Fits(tokens, numTokens)
      modifies this`toksuper, tokens
      ensures Fits(tokens, numTokens)
      ensures tokens[toknext..] == old(tokens[..])[toknext..]
      ensures r == 0 || r == -2
      ensures r == 0 ==> CloseStep(js, old(View(tokens))) == Next(View(tokens).(pos := pos + 1))
      ensures r == -2 ==> CloseStep(js, old(View(tokens))) == Stop(Inval) && View(tokens) == old(View(tokens))
    {
      var kind := if js[pos] == '}' then Object else Array;
      var i := ScanOpen(tokens, toknext - 1);
      if i == -1 || tokens[i].kind != kind {
        return -2;
      }
      tokens[i] := tokens[i].(end := pos + 1);
      // The token just closed is the first one the second scan looks at.
      toksuper := ScanOpen(tokens, i);
      assert tokens[..i + 1][..i] == old(tokens[..toknext])[..i];
      return 0;
    }

    /** The `,` case. */
    method Comma(tokens: array<Token>, numTokens: nat)
      requires Fits(tokens, numTokens)
      modifies this`toksuper
      ensures toksuper == CommaSuper(old(View(tokens)))
    {
      if toksuper != -1 && !tokens[toksuper].IsContainer() {
        var i := toknext - 1;
        while i >= 0
          invariant -1 <= i < toknext && toksuper == old(toksuper)
          invariant LastOpenContainer(tokens[..i + 1]) == LastOpenContainer(tokens[..toknext])
        {
          if tokens[i].IsContainer() && tokens[i].Open() {
            toksuper := i;
            break;
          }
          assert tokens[..i + 1][..i] == tokens[..i];
          i := i - 1;
        }
      }
    }

    /** `tokens[parser->toksuper].size++`, after a string or primitive was allocated. */
    method CountChild(tokens: array<Token>, ghost before: seq<Token>, ghost tok: Token)
      requires 0 < toknext <= tokens.Length && -1 <= toksuper < toknext - 1
      requires tokens[..toknext] == before + [tok]
      modifies tokens
      ensures tokens[..toknext] == Add(before, toksuper, tok)
      ensures tokens[toknext..] == old(tokens[toknext..])
    {
      if toksuper != -1 {
        tokens[toksuper] := tokens[toksuper].(size := tokens[toksuper].size + 1);
      }
    }

    /** One iteration of the main loop's switch; `pos` still has to be incremented. */
    method Dispatch(js: string, tokens: array<Token>, numTokens: nat) returns (r: int)
      requires At(js, pos) && Fits(tokens, numTokens)
      modifies this, tokens
      ensures Fits(tokens, numTokens)
      ensures tokens[toknext..] == old(tokens[..])[toknext..]
      ensures r >= 0 ==> Step(js, old(View(tokens)), numTokens) == Next(View(tokens).(pos := pos + 1))
      ensures r >= 0 ==> r == toknext - old(toknext)
      ensures r < 0 ==>
                && View(tokens) == old(View(tokens))
                && exists e :: Step(js, View(tokens), numTokens) == Stop(e) && r == Err(e).Code()
    {
      hide StringScan, PrimitiveEnd, LastOpen, LastOpenContainer, Bump;
      var c := js[pos];
      ghost var before := tokens[..toknext];
      if IsOpening(c) {
        r := OpenContainer(js, tokens, numTokens);
        if r < 0 {
          assert Step(js, View(tokens), numTokens) == Stop(NoMem);
          return r;
        }
        return 1;
      } else if IsClosing(c) {
        r := CloseContainer(js, tokens, numTokens);
        if r < 0 {
          assert Step(js, View(tokens), numTokens) == Stop(Inval);
        }
      } else if c == '\"' {
        r := ParseString(js, tokens, numTokens);
        if r < 0 {
          assert View(tokens) == old(View(tokens));
          assert StringStep(js, View(tokens), numTokens)
                 == Stop(if r == -1 then NoMem else if r == -2 then Inval else Part);
          return r;
        }
        CountChild(tokens, before, Token(String, old(pos) + 1, pos, 0));
        return 1;
      } else if IsSpace(c) {
        return 0;
      } else if c == ':' {
        toksuper := toknext - 1;
        return 0;
      } else if c == ',' {
        Comma(tokens, numTokens);
        return 0;
      } else {
        r := ParsePrimitive(js, tokens, numTokens);
        if r < 0 {
          assert View(tokens) == old(View(tokens));
          assert PrimitiveStep(js, View(tokens), numTokens) == Stop(NoMem);
          return r;
        }
        CountChild(tokens, before, Token(Primitive, old(pos), pos + 1, 0));
        return 1;
      }
    }

    /** `jsmn_parse` with a token array. */
    method Fill(js: string, tokens: array<Token>, numTokens: nat) returns (r: int)
      requires Fits(tokens, numTokens)
      modifies this, tokens
      ensures Fits(tokens, numTokens)
      ensures View(tokens) == Run(js, old(View(tokens)), numTokens).0
      ensures r == Run(js, old(View(tokens)), numTokens).1.Code()
      ensures tokens[toknext..] == old(tokens[..])[toknext..]
    {
      hide Step;
      var count := toknext;
      while At(js, pos)
        invariant Fits(tokens, numTokens)
        invariant count == toknext
        invariant Run(js, View(tokens), numTokens) == Run(js, old(View(tokens)), numTokens)
        invariant toknext >= old(toknext)
        invariant tokens[toknext..] == old(tokens[..])[toknext..]
        decreases |js| - pos
      {
        ghost var st := View(tokens);
        var added := Dispatch(js, tokens, numTokens);
        if added < 0 {
          return added;
        }
        count := count + added;
        pos := pos + 1;
        assert Step(js, st, numTokens) == Next(View(tokens));
      }
      var i := ScanOpen(tokens, toknext - 1);
      if i >= 0 {
        return -3;
      }
      return count;
    }

    /** `jsmn_parse` with a null token array. */
    method Count(js: string) returns (r: int)
      modifies this
      ensures toknext == old(toknext)
      ensures
        var (st, res) := CountRun(js, CountState(old(pos), old(toksuper), old(toknext)), toknext);
        pos == st.pos && toksuper == st.super && r == res.Code()
    {
      var count := toknext;
      while At(js, pos)
        invariant toknext == old(toknext)
        invariant CountRun(js, CountState(pos, toksuper, count), toknext)
               == CountRun(js, CountState(old(pos), old(toksuper), old(toknext)), toknext)
        decreases |js| - pos
      {
        var c := js[pos];
        if IsOpening(c) {
          count := count + 1;
        } else if c == '\"' {
          var s := ParseString(js, null, 0);
          if s < 0 {
            return s;
          }
          count := count + 1;
        } else if c == ':' {
          toksuper := toknext - 1;
        } else if !IsClosing(c) && !IsSpace(c) && c != ',' {
          var s := ParsePrimitive(js, null, 0);
          count := count + 1;
        }
        pos := pos + 1;
      }
      return count;
    }

    /** `jsmn_parse`: a null token array selects the counting mode. */
    method Parse(js: string, tokens: array?<Token>, numTokens: nat) returns (r: int)
      requires tokens != null ==> Fits(tokens, numTokens)
      modifies this, tokens
      ensures tokens != null ==>
                && Fits(tokens, numTokens)
                && (View(tokens), r)
                   == (Run(js, old(View(tokens)), numTokens).0, Run(js, old(View(tokens)), numTokens).1.Code())
                && tokens[toknext..] == old(tokens[..])[toknext..]
      ensures tokens == null ==>
                var (st, res) := CountRun(js, CountState(old(pos), old(toksuper), old(toknext)), toknext);
                toknext == old(toknext) && pos == st.pos && toksuper == st.super && r == res.Code()
    {
      if tokens != null {
        r := Fill(js, tokens, numTokens);
      } else {
        r := Count(js);
      }
    }
  }
}
