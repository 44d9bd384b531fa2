/**
 The configuration language by its spelling: lines are put together from names, values,
 conditions, whitespace and comments, and a document means what its conditions say. The
 scanner and the evaluator are proved against this, for every spelling.
 */
module ConfigText {
  import opened Basics
  import opened ConfigMatch

  // ----- Pieces of a line

  /** The characters Python's `str.isspace` accepts. */
  ghost predicate Space(c: char) {
    c in {
      '\t', '\n', '\U{b}', '\U{c}', '\r', '\U{1c}', '\U{1d}', '\U{1e}', '\U{1f}', ' ', '\U{85}', '\U{a0}', '\U{1680}',
      '\U{2000}', '\U{2001}', '\U{2002}', '\U{2003}', '\U{2004}', '\U{2005}', '\U{2006}', '\U{2007}', '\U{2008}',
      '\U{2009}', '\U{200a}', '\U{2028}', '\U{2029}', '\U{202f}', '\U{205f}', '\U{3000}'
    }
  }

  ghost predicate Blank(s: string) {
    forall i :: 0 <= i < |s| ==> Space(s[i])
  }

  /** No comment sign, and no whitespace at either end. */
  ghost predicate Bare(s: string) {
    && '#' !in s && ';' !in s
    && (s != "" ==> !Space(s[0]) && !Space(s[|s| - 1]))
  }

  /** What may follow on a line: whitespace, and a comment. */
  datatype Tail = Tail(space: string, comment: string) {
    ghost predicate Valid() {
      Blank(space) && (comment != "" ==> comment[0] == '#' || comment[0] == ';')
    }

    ghost function Text(): string { space + comment }
  }

  ghost function Spell(indent: string, text: string, tail: Tail): string {
    indent + text + tail.Text()
  }

  ghost predicate ValidLine(indent: string, text: string, tail: Tail) {
    Blank(indent) && Bare(text) && tail.Valid()
  }

  lemma SpaceIs(c: char)
    ensures IsSpace(c) <==> Space(c)
  {
    if IsSpace(c) && '\U{2000}' <= c <= '\U{200a}' {
      var k := c as int - 0x2000;
      assert 0 <= k <= 10;
      assert c == (0x2000 + k) as char;
    }
  }

  lemma {:induction false} CutBehind(s: string, rest: string, c: char)
    requires c !in s
    ensures CutAt(s + rest, c) == s + CutAt(rest, c)
    decreases |s|
  {
    if s == "" {
      assert s + rest == rest;
    } else {
      assert (s + rest)[1..] == s[1..] + rest;
      CutBehind(s[1..], rest, c);
    }
  }

  lemma CommentIsCut(s: string, comment: string)
    requires '#' !in s && ';' !in s && (comment != "" ==> comment[0] == '#' || comment[0] == ';')
    ensures Clean(s + comment) == s
  {
    CutBehind(s, comment, '#');
    CutBehind(s, CutAt(comment, '#'), ';');
  }

  lemma {:induction false} BlankInFront(w: string, s: string)
    requires Blank(w)
    ensures LStrip(w + s) == LStrip(s)
    decreases |w|
  {
    hide Space, IsSpace;
    if w == "" {
      assert w + s == s;
    } else {
      SpaceIs(w[0]);
      assert (w + s)[1..] == w[1..] + s;
      BlankInFront(w[1..], s);
    }
  }

  lemma {:induction false} BlankBehind(s: string, w: string)
    requires Blank(w)
    ensures RStrip(s + w) == RStrip(s)
    decreases |w|
  {
    hide Space, IsSpace;
    if w == "" {
      assert s + w == s;
    } else {
      var n := |w| - 1;
      SpaceIs(w[n]);
      assert (s + w)[..|s + w| - 1] == s + w[..n];
      BlankBehind(s, w[..n]);
    }
  }

  /** Whitespace around a bare text is stripped. */
  lemma StripsTo(a: string, s: string, b: string)
    requires Blank(a) && Blank(b) && (s != "" ==> !Space(s[0]) && !Space(s[|s| - 1]))
    ensures Strip(a + s + b) == s
  {
    hide Space, IsSpace;
    assert a + s + b == a + (s + b);
    BlankInFront(a, s + b);
    if s == "" {
      assert s + b == b + "";
      BlankInFront(b, "");
    } else {
      SpaceIs(s[0]);
      SpaceIs(s[|s| - 1]);
      assert (s + b)[0] == s[0];
      BlankBehind(s, b);
    }
  }

  lemma BlankHasNoComment(w: string)
    requires Blank(w)
    ensures '#' !in w && ';' !in w && '=' !in w
  {
    SignsAreNoSpaces();
  }

  lemma SignsAreNoSpaces()
    ensures forall c :: c in {'[', ']', '=', '#', ';'} ==> !Space(c)
  {
  }

  /** What is left of a line: its text, and whether it is indented. */
  lemma LineReads(indent: string, text: string, tail: Tail)
    requires ValidLine(indent, text, tail)
    ensures
      var line := Spell(indent, text, tail);
      && Clean(line) == indent + text + tail.space && Strip(Clean(line)) == text
      && (text != "" ==> Clean(line) != "" && (IsSpace(Clean(line)[0]) <==> indent != ""))
  {
    hide Space, IsSpace;
    BlankHasNoComment(indent);
    BlankHasNoComment(tail.space);
    assert Spell(indent, text, tail) == (indent + text + tail.space) + tail.comment;
    CommentIsCut(indent + text + tail.space, tail.comment);
    StripsTo(indent, text, tail.space);
    if text != "" {
      var first := (indent + text + tail.space)[0];
      assert first == if indent != "" then indent[0] else text[0];
      SpaceIs(first);
    }
  }

  lemma {:induction false} FindsFirst(key: string, rest: string)
    requires '=' !in key
    ensures Find(key + "=" + rest, '=') == |key|
    decreases |key|
  {
    if key == "" {
    } else {
      assert (key + "=" + rest)[1..] == key[1..] + "=" + rest;
      FindsFirst(key[1..], rest);
    }
  }

  lemma {:induction false} FindsNone(s: string)
    ensures Find(s, '=') == |s| <==> '=' !in s
    ensures Find(s, '=') == 0 <==> s == "" || s[0] == '='
    decreases |s|
  {
    if s == "" {
    } else {
      FindsNone(s[1..]);
    }
  }

  // ----- Every line has such a spelling, and which ones are refused

  lemma {:induction false} Dissect(line: string) returns (indent: string, text: string, tail: Tail)
    ensures ValidLine(indent, text, tail) && line == Spell(indent, text, tail)
    decreases |line|
  {
    hide Space, IsSpace;
    if line == "" {
      return "", "", Tail("", "");
    }
    var n := |line| - 1;
    var c := line[n];
    indent, text, tail := Dissect(line[..n]);
    assert line == line[..n] + [c];
    if tail.comment != "" || c == '#' || c == ';' {
      assert line == indent + text + (tail.space + (tail.comment + [c]));
      tail := Tail(tail.space, tail.comment + [c]);
    } else if Space(c) {
      assert line == indent + text + ((tail.space + [c]) + "");
      tail := Tail(tail.space + [c], "");
    } else if text == "" {
      assert line == (indent + tail.space) + [c] + ("" + "");
      indent, text, tail := indent + tail.space, [c], Tail("", "");
    } else {
      assert line == indent + (text + tail.space + [c]) + ("" + "");
      BlankHasNoComment(tail.space);
      text, tail := text + tail.space + [c], Tail("", "");
    }
  }

  /** A header without a name or without its closing bracket. */
  ghost predicate BadHeader(text: string) {
    text != "" && text[0] == '[' && (text[|text| - 1] != ']' || Blank(text[1..|text| - 1]))
  }

  ghost predicate BadSetting(text: string) {
    text != "" && (text[0] == '=' || '=' !in text)
  }

  /** A line is refused exactly for these reasons; a blank or continuing line never is. */
  lemma RefusesExactly(st: Scanner, indent: string, text: string, tail: Tail)
    requires ValidLine(indent, text, tail)
    ensures
      var continues := st.section.Some? && st.entry.Some? && indent != "";
      ScanLine(st, Spell(indent, text, tail)).1.None? <==>
        && text != "" && !continues
        && if text[0] == '[' then BadHeader(text)
           else st.section.None? || (st.section.value in {"Match", "TriggerMatch"} && BadSetting(text))
  {
    hide Space, IsSpace, Strip, Clean, Blank, Bare, Find;
    LineReads(indent, text, tail);
    if text != "" {
      FindsNone(text);
      if text[0] == '[' && text[|text| - 1] == ']' {
        StripsToNothing(text[1..|text| - 1]);
      }
    }
  }

  lemma StripsToNothing(s: string)
    ensures Strip(s) == "" <==> Blank(s)
  {
    hide Space, IsSpace;
    if Blank(s) {
      assert s == s + "" + "";
      StripsTo(s, "", "");
    } else {
      var i :| 0 <= i < |s| && !Space(s[i]);
      StripKeeps(s, i);
    }
  }

  lemma {:induction false} StripKeeps(s: string, i: nat)
    requires i < |s| && !Space(s[i])
    ensures Strip(s) != ""
    decreases |s|
  {
    hide Space, IsSpace;
    SpaceIs(s[i]);
    if !IsSpace(s[0]) {
    } else {
      StripKeeps(s[1..], i - 1);
    }
  }

  /** A text whose first line that is not blank opens no section is an error. */
  lemma NeedsASection(eval: Evaluator, blanks: seq<string>, indent: string, text: string, tail: Tail, rest: seq<string>)
    requires forall l :: l in blanks ==> exists t: Tail :: t.Valid() && l == t.Text()
    requires ValidLine(indent, text, tail) && text != "" && (text[0] == '[' ==> BadHeader(text))
    ensures Match(eval, blanks + ([Spell(indent, text, tail)] + rest)) == Exits
  {
    hide Space, IsSpace;
    var line, st := Spell(indent, text, tail), Scanner(None, None);
    forall l | l in blanks ensures IsBlank(l) {
      var t: Tail :| t.Valid() && l == t.Text();
      LineReads("", "", t);
      assert "" + "" + t.Text() == t.Text();
    }
    ScanPreamble(blanks, [line] + rest, st);
    RefusesExactly(st, indent, text, tail);
    ScanCons(st, line, rest);
    LineReads(indent, text, tail);
  }

  // ----- Conditions

  /** `|` for one of several alternatives, `!` for the contrary. */
  datatype Condition = Condition(trigger: bool, negated: bool, key: string, operand: string) {
    ghost function Value(): string {
      (if trigger then "|" else "") + (if negated then "!" else "") + operand
    }

    /** The operand does not read as a sign that is not there. */
    ghost predicate Valid() {
      && key != ""
      && (!negated && operand != "" ==> operand[0] != '!' && (!trigger ==> operand[0] != '|'))
    }

    ghost predicate Known(eval: Evaluator) {
      eval(key, operand).Some?
    }

    ghost predicate True(eval: Evaluator) {
      eval(key, operand) == Some(!negated)
    }
  }

  lemma ConditionReads(eval: Evaluator, c: Condition)
    requires c.Valid()
    ensures IsTrigger((c.key, c.Value())) == c.trigger
    ensures Outcome(eval, c.key, c.Value()).Some? == c.Known(eval)
    ensures IsTrue(eval, (c.key, c.Value())) == c.True(eval)
  {
    var v := RemovePrefix(c.Value(), '|');
    assert v == (if c.negated then "!" else "") + c.operand;
    assert RemovePrefix(v, '!') == c.operand;
  }

  // ----- Sections

  /** A further line of a setting: indented text, or a blank line. */
  datatype More = More(indent: string, text: string, tail: Tail) {
    ghost predicate Valid() {
      ValidLine(indent, text, tail) && (text != "" ==> indent != "")
    }
  }

  /** The value on the first line and the texts of the others, one per line. */
  ghost function Lines(value: string, more: seq<More>): string
    decreases |more|
  {
    if more == [] then value
    else Lines(if more[0].text == "" then value else value + "\n" + more[0].text, more[1..])
  }

  datatype Written =
    | Says(condition: Condition, left: string, right: string, value: string, tail: Tail, more: seq<More>)
    | Skips(indent: string, text: string, tail: Tail)
  {
    ghost predicate Valid(section: string) {
      match this
      case Says(c, left, right, value, tail, more) =>
        && section in {"Match", "TriggerMatch"} && c.Valid()
        && Bare(c.key) && c.key[0] != '[' && '=' !in c.key && Bare(value)
        && Blank(left) && Blank(right) && tail.Valid()
        && (forall m :: m in more ==> m.Valid())
        && c.Value() == Lines(value, more)
      case Skips(indent, text, tail) =>
        ValidLine(indent, text, tail) && (text != "" ==> section !in {"Match", "TriggerMatch"} && text[0] != '[')
    }

    /** The text of a setting's first line, up to its value. */
    ghost function Setting(): string
      requires Says?
    {
      condition.key + left + "=" + right + value
    }
  }

  datatype Part = Part(left: string, name: string, right: string, tail: Tail, body: seq<Written>) {
    ghost predicate Valid() {
      && name != "" && Bare(name) && Blank(left) && Blank(right) && tail.Valid()
      && forall w :: w in body ==> w.Valid(name)
    }

    ghost function Header(): string {
      "[" + left + name + right + "]" + tail.Text()
    }
  }

  ghost function Said(body: seq<Written>): seq<Condition> {
    if body == [] then []
    else (if body[0].Says? then [body[0].condition] else []) + Said(body[1..])
  }

  // ----- As the scanner sees them

  ghost function MoreLines(more: seq<More>): (r: seq<string>)
    ensures |r| == |more|
  {
    seq(|more|, i requires 0 <= i < |more| => Spell(more[i].indent, more[i].text, more[i].tail))
  }

  ghost function AsBody(w: Written): Body {
    match w
    case Says(c, left, right, value, tail, more) =>
      Setting(Entry(w.Setting() + tail.Text(), MoreLines(more), c.key, value))
    case Skips(indent, text, tail) => Ignored(Spell(indent, text, tail))
  }

  ghost function AsBodies(body: seq<Written>): (r: seq<Body>)
    ensures |r| == |body| && forall i :: 0 <= i < |r| ==> r[i] == AsBody(body[i])
  {
    seq(|body|, i requires 0 <= i < |body| => AsBody(body[i]))
  }

  ghost function AsSection(p: Part): Section {
    Section(p.Header(), p.name, AsBodies(p.body))
  }

  ghost function AsSections(parts: seq<Part>): (r: seq<Section>)
    ensures |r| == |parts| && forall i :: 0 <= i < |r| ==> r[i] == AsSection(parts[i])
  {
    seq(|parts|, i requires 0 <= i < |parts| => AsSection(parts[i]))
  }

  lemma MoreReads(m: More)
    requires m.Valid()
    ensures
      var line := Spell(m.indent, m.text, m.tail);
      Continues(line) && Strip(Clean(line)) == m.text && (IsBlank(line) <==> m.text == "")
  {
    LineReads(m.indent, m.text, m.tail);
  }

  lemma {:induction false} LinesAreJoined(value: string, more: seq<More>)
    requires forall m :: m in more ==> m.Valid()
    ensures Joined(value, MoreLines(more)) == Lines(value, more)
    ensures forall l :: l in MoreLines(more) ==> Continues(l)
    decreases |more|
  {
    if more == [] {
    } else {
      MoreReads(more[0]);
      assert MoreLines(more)[1..] == MoreLines(more[1..]);
      LinesAreJoined(if more[0].text == "" then value else value + "\n" + more[0].text, more[1..]);
      assert MoreLines(more) == [MoreLines(more)[0]] + MoreLines(more[1..]);
    }
  }

  /** A key, the sign and a value, without whitespace at the end. */
  lemma AssignmentReads(key: string, left: string, right: string, value: string)
    requires key != "" && Bare(key) && '=' !in key && Blank(left) && Bare(value) && Blank(right)
    requires value == "" ==> right == ""
    ensures
      var text, i := key + left + "=" + (right + value), |key + left|;
      && Bare(text) && Find(text, '=') == i && i < |text|
      && Strip(text[..i]) == key && Strip(text[i + 1..]) == value
  {
    hide Space, IsSpace;
    SignsAreNoSpaces();
    var text, i := key + left + "=" + (right + value), |key + left|;
    BlankHasNoComment(left);
    BlankHasNoComment(right);
    FindsFirst(key + left, right + value);
    StripsTo("", key, left);
    assert "" + key + left == text[..i];
    StripsTo(right, value, "");
    assert right + value + "" == text[i + 1..];
  }

  lemma SettingReads(name: string, w: Written)
    requires w.Valid(name) && w.Says?
    ensures IsSetting(w.Setting() + w.tail.Text(), w.condition.key, w.value)
  {
    hide Find, Strip, Clean, Blank, Space, IsSpace;
    // Without a value the whitespace behind the sign belongs to the end of the line.
    var right, space := if w.value == "" then "" else w.right, if w.value == "" then w.right else "";
    var text, tail := w.condition.key + w.left + "=" + (right + w.value), Tail(space + w.tail.space, w.tail.comment);
    BlankParts(w.right, w.tail.space);
    AssignmentReads(w.condition.key, w.left, right, w.value);
    LineReads("", text, tail);
    SameLine(w, right, space);
    assert text[0] == w.condition.key[0];
  }

  lemma BlankParts(a: string, b: string)
    requires Blank(a) && Blank(b)
    ensures Blank("") && Blank(a + b) && Blank("" + b)
  {
  }

  lemma SameLine(w: Written, right: string, space: string)
    requires w.Says?
    requires (w.value == "" && right == "" && space == w.right) || (right == w.right && space == "")
    ensures w.Setting() + w.tail.Text() ==
            Spell("", w.condition.key + w.left + "=" + (right + w.value), Tail(space + w.tail.space, w.tail.comment))
  {
  }

  /** The text of a header, without what follows it. */
  lemma HeaderText(left: string, name: string, right: string)
    requires name != "" && Bare(name) && Blank(left) && Blank(right)
    ensures
      var text := "[" + left + name + right + "]";
      && Bare(text) && |text| >= 2 && text[0] == '[' && text[|text| - 1] == ']'
      && text[1..|text| - 1] == left + name + right && Strip(left + name + right) == name
  {
    hide Space, Strip;
    SignsAreNoSpaces();
    BlankHasNoComment(left);
    BlankHasNoComment(right);
    StripsTo(left, name, right);
  }

  lemma HeaderReads(p: Part)
    requires p.Valid()
    ensures IsHeader(p.Header(), p.name)
  {
    hide Space, IsSpace, Strip, Clean, Blank, Bare;
    var text := "[" + p.left + p.name + p.right + "]";
    HeaderText(p.left, p.name, p.right);
    NothingIsBlank();
    LineReads("", text, p.tail);
    assert p.Header() == Spell("", text, p.tail);
  }

  lemma NothingIsBlank()
    ensures Blank("")
  {
  }

  lemma BodyReads(name: string, w: Written)
    requires w.Valid(name)
    ensures WellFormedBody(name, AsBody(w))
  {
    hide Space, IsSpace;
    if w.Says? {
      SettingReads(name, w);
      LinesAreJoined(w.value, w.more);
    } else {
      LineReads(w.indent, w.text, w.tail);
    }
  }

  lemma PartReads(p: Part)
    requires p.Valid()
    ensures WellFormedSection(AsSection(p))
  {
    hide IsHeader, WellFormedBody;
    HeaderReads(p);
    forall b | b in AsBodies(p.body) ensures WellFormedBody(p.name, b) {
      var i :| 0 <= i < |p.body| && b == AsBody(p.body[i]);
      BodyReads(p.name, p.body[i]);
    }
  }

  ghost function Pairs(cs: seq<Condition>): (r: seq<(string, string)>)
    ensures |r| == |cs| && forall i :: 0 <= i < |r| ==> r[i] == (cs[i].key, cs[i].Value())
  {
    seq(|cs|, i requires 0 <= i < |cs| => (cs[i].key, cs[i].Value()))
  }

  lemma {:induction false} SaidReads(name: string, body: seq<Written>)
    requires forall w :: w in body ==> w.Valid(name)
    ensures Conditions(AsBodies(body)) == Pairs(Said(body))
    ensures forall c :: c in Said(body) ==> c.Valid()
    decreases |body|
  {
    hide Joined;
    if body == [] {
    } else {
      var w, bodies := body[0], AsBodies(body);
      assert w.Valid(name);
      assert bodies[1..] == AsBodies(body[1..]);
      SaidReads(name, body[1..]);
      if w.Says? {
        LinesAreJoined(w.value, w.more);
        assert ConditionOf(bodies[0]) == [(w.condition.key, w.condition.Value())];
      }
      assert Conditions(bodies) == ConditionOf(bodies[0]) + Conditions(bodies[1..]);
      assert Pairs(Said(body)) == ConditionOf(bodies[0]) + Pairs(Said(body[1..]));
    }
  }

  // ----- What a document means

  /** All plain conditions are true, and if there are alternatives one of them is. */
  ghost predicate AllSaid(eval: Evaluator, cs: seq<Condition>) {
    && (forall c :: c in cs && !c.trigger ==> c.True(eval))
    && ((exists c :: c in cs && c.trigger) ==> exists c :: c in cs && c.trigger && c.True(eval))
  }

  ghost predicate PartHolds(eval: Evaluator, p: Part) {
    AllSaid(eval, Said(p.body))
  }

  ghost predicate Means(eval: Evaluator, parts: seq<Part>) {
    && (forall p :: p in parts && p.name == "Match" ==> PartHolds(eval, p))
    && ((exists p :: p in parts && p.name == "TriggerMatch") ==>
          exists p :: p in parts && p.name == "TriggerMatch" && PartHolds(eval, p))
  }

  ghost predicate AllKnown(eval: Evaluator, p: Part) {
    forall c :: c in Said(p.body) ==> c.Known(eval)
  }

  lemma PairsHold(eval: Evaluator, cs: seq<Condition>)
    requires forall c :: c in cs ==> c.Valid()
    ensures Holds(eval, Pairs(cs)) <==> AllSaid(eval, cs)
    ensures (forall c :: c in Pairs(cs) ==> Outcome(eval, c.0, c.1).Some?) <==> forall c :: c in cs ==> c.Known(eval)
  {
    hide Outcome, IsTrigger, IsTrue;
    var ps := Pairs(cs);
    forall i | 0 <= i < |cs|
      ensures IsTrigger(ps[i]) == cs[i].trigger && IsTrue(eval, ps[i]) == cs[i].True(eval)
      ensures Outcome(eval, ps[i].0, ps[i].1).Some? == cs[i].Known(eval)
    {
      ConditionReads(eval, cs[i]);
    }
    assert forall c :: c in cs ==> exists i :: 0 <= i < |cs| && cs[i] == c && ps[i] in ps;
    assert forall c :: c in ps ==> exists i :: 0 <= i < |cs| && ps[i] == c && cs[i] in cs;
  }

  lemma PartMeans(eval: Evaluator, p: Part)
    requires p.Valid()
    ensures SectionHolds(eval, AsSection(p)) <==> PartHolds(eval, p)
    ensures Evaluable(eval, [AsSection(p)]) <==> AllKnown(eval, p)
  {
    hide Holds, Outcome, AllSaid;
    SaidReads(p.name, p.body);
    PairsHold(eval, Said(p.body));
  }

  /** The flags after a section tell whether its conditions hold. */
  lemma PartFeeds(eval: Evaluator, p: Part, triggered: Option<bool>)
    requires p.Valid() && AllKnown(eval, p)
    ensures
      var s, st := AsSection(p), Matcher(None, triggered, false);
      FeedAll(eval, st, ConditionEvents(s.name, Conditions(s.body)) + [Event(s.name, "", "")])
      == if p.name == "Match" && !PartHolds(eval, p) then Done(Differs)
         else if p.name == "TriggerMatch" then
           Running(Matcher(None, Some(triggered == Some(true) || PartHolds(eval, p)), false))
         else Running(Matcher(None, triggered, false))
  {
    hide FeedAll, ConditionEvents, Conditions, WellFormedSection, Evaluable, PartHolds, AllKnown, SectionHolds;
    PartReads(p);
    PartMeans(eval, p);
    FeedSection(eval, AsSection(p), triggered);
  }

  /** The lines in front of the first section. */
  ghost function Preamble(blanks: seq<Tail>): (r: seq<string>)
    ensures |r| == |blanks| && forall i :: 0 <= i < |r| ==> r[i] == blanks[i].Text()
  {
    seq(|blanks|, i requires 0 <= i < |blanks| => blanks[i].Text())
  }

  lemma PreambleIsBlank(blanks: seq<Tail>)
    requires forall t :: t in blanks ==> t.Valid()
    ensures forall l :: l in Preamble(blanks) ==> IsBlank(l)
  {
    forall l | l in Preamble(blanks) ensures IsBlank(l) {
      var i :| 0 <= i < |blanks| && l == blanks[i].Text();
      LineReads("", "", blanks[i]);
      assert Spell("", "", blanks[i]) == l;
    }
  }

  ghost function TextOf(blanks: seq<Tail>, parts: seq<Part>): seq<string> {
    Text(Document(Preamble(blanks), AsSections(parts)))
  }

  /**
   For every document, however it is spelt, whose conditions are all known: the file matches
   exactly when every [Match] section holds and, if there are [TriggerMatch] sections, at
   least one of those holds.
   */
  lemma MatchMeans(eval: Evaluator, blanks: seq<Tail>, parts: seq<Part>)
    requires (forall t :: t in blanks ==> t.Valid()) && (forall p :: p in parts ==> p.Valid())
    requires forall p :: p in parts ==> AllKnown(eval, p)
    ensures Match(eval, TextOf(blanks, parts)) == if Means(eval, parts) then Matches else Differs
  {
    hide WellFormedSection, SectionHolds, PartHolds, AllKnown, Outcome, Match, Text;
    var preamble, sections := Preamble(blanks), AsSections(parts);
    PreambleIsBlank(blanks);
    forall i | 0 <= i < |parts|
      ensures WellFormedSection(sections[i]) && Evaluable(eval, [sections[i]])
      ensures SectionHolds(eval, sections[i]) <==> PartHolds(eval, parts[i])
    {
      PartReads(parts[i]);
      PartMeans(eval, parts[i]);
    }
    SectionsMean(eval, parts);
    EvaluableAll(eval, sections);
    MatchMeansDocument(eval, Document(preamble, sections));
  }

  lemma EvaluableAll(eval: Evaluator, sections: seq<Section>)
    requires forall i :: 0 <= i < |sections| ==> Evaluable(eval, [sections[i]])
    ensures Evaluable(eval, sections)
  {
    hide Outcome, Conditions;
    forall s, c | s in sections && c in Conditions(s.body) ensures Outcome(eval, c.0, c.1).Some? {
      var i :| 0 <= i < |sections| && sections[i] == s;
      assert Evaluable(eval, [sections[i]]) && s in [s];
    }
  }

  lemma SectionsMean(eval: Evaluator, parts: seq<Part>)
    requires forall i :: 0 <= i < |parts| ==> (SectionHolds(eval, AsSection(parts[i])) <==> PartHolds(eval, parts[i]))
    ensures DocumentMatches(eval, AsSections(parts)) <==> Means(eval, parts)
  {
    hide SectionHolds, PartHolds;
    var sections := AsSections(parts);
    forall p | p in parts ensures AsSection(p) in sections {
      var i :| 0 <= i < |parts| && parts[i] == p;
      assert sections[i] in sections;
    }
    forall s | s in sections ensures exists p :: p in parts && AsSection(p) == s {
      var i :| 0 <= i < |sections| && sections[i] == s;
      assert parts[i] in parts;
    }
  }

  /**
   Where the evaluation reaches a condition it does not know, it exits with an error:
   neither an earlier [Match] section nor an earlier condition has settled the matter.
   */
  lemma UnknownMeansExit(eval: Evaluator, blanks: seq<Tail>, before: seq<Part>, p: Part, after: seq<Part>, k: nat)
    requires (forall t :: t in blanks ==> t.Valid()) && (forall q :: q in before + [p] + after ==> q.Valid())
    requires forall q :: q in before ==> AllKnown(eval, q) && (q.name == "Match" ==> PartHolds(eval, q))
    requires
      var cs := Said(p.body);
      && k < |cs| && !cs[k].Known(eval)
      && forall j :: 0 <= j < k ==> cs[j].Known(eval) && (cs[j].trigger || cs[j].True(eval))
    ensures Match(eval, TextOf(blanks, before + [p] + after)) == Exits
  {
    hide WellFormedSection, SectionHolds, PartHolds, AllKnown, Outcome, Match;
    hide Text, Conditions, IsTrue, IsTrigger, Said;
    var parts := before + [p] + after;
    var preamble, sections := Preamble(blanks), AsSections(parts);
    PreambleIsBlank(blanks);
    forall i | 0 <= i < |parts| ensures WellFormedSection(sections[i]) {
      PartReads(parts[i]);
    }
    assert p in parts && forall q :: q in before ==> q in parts;
    var s := AsSection(p);
    assert sections == AsSections(before) + [s] + AsSections(after);
    forall i | 0 <= i < |before|
      ensures Evaluable(eval, [AsSections(before)[i]])
      ensures before[i].name == "Match" ==> SectionHolds(eval, AsSections(before)[i])
    {
      PartMeans(eval, before[i]);
    }
    EvaluableAll(eval, AsSections(before));
    var cs := Said(p.body);
    SaidReads(p.name, p.body);
    forall j | 0 <= j <= k
      ensures
        var c := Conditions(s.body)[j];
        && Outcome(eval, c.0, c.1).Some? == cs[j].Known(eval)
        && IsTrigger(c) == cs[j].trigger && IsTrue(eval, c) == cs[j].True(eval)
    {
      ConditionReads(eval, cs[j]);
    }
    UnknownExits(eval, Document(preamble, sections), AsSections(before), s, AsSections(after), k);
  }
}
