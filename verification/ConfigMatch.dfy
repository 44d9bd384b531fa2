/**
 `match_config` reading `parse_ini`: a line-by-line scanner feeding a streaming evaluator
 that may stop early. Lines are those of the dedented text. The outcome of a condition is
 given: `eval(key, value)` is `None` where the evaluator exits with an error.
 */
module ConfigMatch {
  import opened Basics

  // ----- Lines

  /** `str.isspace` of one character. */
  predicate IsSpace(c: char) {
    || c == ' ' || '\t' <= c <= '\r' || '\U{1c}' <= c <= '\U{1f}' || c == '\U{85}' || c == '\U{a0}'
    || c == '\U{1680}' || '\U{2000}' <= c <= '\U{200a}' || c == '\U{2028}' || c == '\U{2029}'
    || c == '\U{202f}' || c == '\U{205f}' || c == '\U{3000}'
  }

  function LStrip(s: string): (r: string)
    ensures r != "" ==> !IsSpace(r[0])
  {
    if s != "" && IsSpace(s[0]) then LStrip(s[1..]) else s
  }

  function RStrip(s: string): (r: string)
    ensures r <= s
    ensures s != "" && !IsSpace(s[0]) ==> r != ""
  {
    if s != "" && IsSpace(s[|s| - 1]) then RStrip(s[..|s| - 1]) else s
  }

  function Strip(s: string): (r: string)
    ensures r != "" ==> !IsSpace(r[0])
  {
    RStrip(LStrip(s))
  }

  function CutAt(line: string, c: char): string {
    if line == "" || line[0] == c then "" else [line[0]] + CutAt(line[1..], c)
  }

  /** The line without its comment. */
  function Clean(line: string): string {
    CutAt(CutAt(line, '#'), ';')
  }

  function Find(s: string, c: char): (i: nat)
    ensures i <= |s|
    ensures i < |s| ==> s[i] == c
  {
    if s == "" || s[0] == c then 0 else 1 + Find(s[1..], c)
  }

  // ----- parse_ini

  datatype Event = Event(section: string, key: string, value: string)

  datatype Scanner = Scanner(section: Option<string>, entry: Option<(string, string)>)

  predicate Wanted(section: string) {
    section == "Match" || section == "TriggerMatch"
  }

  function Pending(st: Scanner): seq<Event> {
    if st.section.Some? && st.entry.Some? then [Event(st.section.value, st.entry.value.0, st.entry.value.1)] else []
  }

  function EndOf(st: Scanner): seq<Event> {
    if st.section.Some? then [Event(st.section.value, "", "")] else []
  }

  /** What one line yields, and the next state; `None` where the scanner exits with an error. */
  function ScanLine(st: Scanner, line: string): (seq<Event>, Option<Scanner>) {
    var l := Clean(line);
    var t := Strip(l);
    if t == "" then ([], Some(st))
    else if st.section.Some? && st.entry.Some? && l != "" && IsSpace(l[0]) then
      ([], Some(st.(entry := Some((st.entry.value.0, st.entry.value.1 + "\n" + t)))))
    else if t[0] == '[' then
      if t[|t| - 1] != ']' then (Pending(st), None)
      else
        var name := Strip(t[1..|t| - 1]);
        (Pending(st) + EndOf(st), if name == "" then None else Some(Scanner(Some(name), None)))
    else if st.section.None? then (Pending(st), None)
    else if !Wanted(st.section.value) then (Pending(st), Some(Scanner(st.section, None)))
    else
      var i := Find(t, '=');
      if i == |t| || i == 0 then (Pending(st), None)
      else (Pending(st), Some(Scanner(st.section, Some((Strip(t[..i]), Strip(t[i + 1..]))))))
  }

  /** All events, and whether the scanner reached the end of the text. */
  function Scan(st: Scanner, lines: seq<string>): (seq<Event>, bool)
    decreases |lines|
  {
    if lines == [] then (Pending(st) + EndOf(st), true)
    else
      match ScanLine(st, lines[0])
      case (events, None) => (events, false)
      case (events, Some(st')) =>
        var (rest, ended) := Scan(st', lines[1..]);
        (events + rest, ended)
  }

  // ----- match_config

  datatype Verdict = Matches | Differs | Exits

  datatype Matcher = Matcher(condition: Option<bool>, triggered: Option<bool>, skip: bool)

  datatype Progress = Running(state: Matcher) | Done(verdict: Verdict)

  type Evaluator = (string, string) -> Option<bool>

  function RemovePrefix(s: string, c: char): string {
    if s != "" && s[0] == c then s[1..] else s
  }

  predicate HasPrefix(s: string, c: char) {
    s != "" && s[0] == c
  }

  /** The outcome of a condition, with its `|` removed and its `!` applied. */
  function Outcome(eval: Evaluator, key: string, value: string): Option<bool> {
    var v := RemovePrefix(value, '|');
    match eval(key, RemovePrefix(v, '!'))
    case None => None
    case Some(b) => Some(if HasPrefix(v, '!') then !b else b)
  }

  function EndSection(st: Matcher, section: string): Progress {
    if section == "Match" && st.condition == Some(false) then Done(Differs)
    else
      var held := st.triggered == Some(true) || st.condition != Some(false);
      Running(Matcher(None, if section == "TriggerMatch" then Some(held) else st.triggered, false))
  }

  function Feed(eval: Evaluator, st: Matcher, e: Event): Progress {
    if e.key == "" && e.value == "" then EndSection(st, e.section)
    else if st.skip then Running(st)
    else
      match Outcome(eval, e.key, e.value)
      case None => Done(Exits)
      case Some(result) =>
        if HasPrefix(e.value, '|') then Running(st.(condition := Some(st.condition == Some(true) || result)))
        else if result then Running(st)
        else if e.section == "TriggerMatch" then Running(st.(condition := Some(false), skip := true))
        else Done(Differs)
  }

  function FeedAll(eval: Evaluator, st: Matcher, events: seq<Event>): Progress
    decreases |events|
  {
    if events == [] then Running(st)
    else
      match Feed(eval, st, events[0])
      case Done(v) => Done(v)
      case Running(st') => FeedAll(eval, st', events[1..])
  }

  const START := Matcher(None, None, false)

  /** The evaluator pulls events one at a time, so it may return before the scanner's error. */
  function Match(eval: Evaluator, lines: seq<string>): Verdict {
    var (events, ended) := Scan(Scanner(None, None), lines);
    match FeedAll(eval, START, events)
    case Done(v) => v
    case Running(st) => if !ended then Exits else if st.triggered == Some(false) then Differs else Matches
  }

  // ----- The two loops, in step

  lemma {:induction false} FeedAppend(eval: Evaluator, st: Matcher, xs: seq<Event>, ys: seq<Event>)
    ensures
      var p := FeedAll(eval, st, xs);
      FeedAll(eval, st, xs + ys) == if p.Done? then p else FeedAll(eval, p.state, ys)
    decreases |xs|
  {
    if xs == [] {
      assert xs + ys == ys;
    } else {
      assert (xs + ys)[1..] == xs[1..] + ys;
      var p := Feed(eval, st, xs[0]);
      if p.Running? {
        FeedAppend(eval, p.state, xs[1..], ys);
      }
    }
  }

  method FeedEvents(eval: Evaluator, start: Matcher, events: seq<Event>) returns (p: Progress)
    ensures p == FeedAll(eval, start, events)
  {
    p := Running(start);
    for i := 0 to |events|
      invariant p.Running? && FeedAll(eval, p.state, events[i..]) == FeedAll(eval, start, events)
    {
      assert events[i..][1..] == events[i + 1..];
      p := Feed(eval, p.state, events[i]);
      if p.Done? {
        return;
      }
    }
  }

  method MatchConfig(eval: Evaluator, fileExists: bool, lines: seq<string>) returns (r: Verdict)
    ensures r == if fileExists then Match(eval, lines) else Matches
  {
    if !fileExists {
      return Matches;
    }
    var st, matcher := Scanner(None, None), START;
    ghost var rest := Scan(st, lines);
    for i := 0 to |lines|
      invariant rest == Scan(st, lines[i..])
      invariant FeedAll(eval, matcher, rest.0) == FeedAll(eval, START, Scan(Scanner(None, None), lines).0)
      invariant rest.1 == Scan(Scanner(None, None), lines).1
    {
      assert lines[i..][1..] == lines[i + 1..];
      var (events, next) := ScanLine(st, lines[i]);
      var p := FeedEvents(eval, matcher, events);
      FeedAppend(eval, matcher, events, if next.Some? then Scan(next.value, lines[i + 1..]).0 else []);
      assert events + [] == events;
      if p.Done? {
        return p.verdict;
      }
      if next.None? {
        return Exits;
      }
      st, matcher := next.value, p.state;
      rest := Scan(st, lines[i + 1..]);
    }
    var p := FeedEvents(eval, matcher, Pending(st) + EndOf(st));
    match p {
      case Done(v) => r := v;
      case Running(m) => r := if m.triggered == Some(false) then Differs else Matches;
    }
  }

  // ----- The language: documents, their text and their meaning

  /** A setting line, the indented lines that continue it, and what they spell. */
  datatype Entry = Entry(line: string, more: seq<string>, key: string, first: string)

  /** A part of a section's body: a setting, or a line without one. */
  datatype Body = Setting(entry: Entry) | Ignored(line: string)

  datatype Section = Section(header: string, name: string, body: seq<Body>)

  datatype Document = Document(preamble: seq<string>, sections: seq<Section>)

  ghost predicate IsBlank(line: string) {
    Strip(Clean(line)) == ""
  }

  ghost predicate IsHeader(line: string, name: string) {
    var t := Strip(Clean(line));
    && |t| >= 2 && t[0] == '[' && t[|t| - 1] == ']' && Strip(t[1..|t| - 1]) == name && name != ""
    && !IsSpace(Clean(line)[0])
  }

  ghost predicate IsSetting(line: string, key: string, value: string) {
    var t := Strip(Clean(line));
    var i := Find(t, '=');
    && t != "" && t[0] != '[' && 0 < i < |t| && Strip(t[..i]) == key && Strip(t[i + 1..]) == value
    && Clean(line) != "" && !IsSpace(Clean(line)[0])
  }

  ghost predicate Continues(line: string) {
    IsBlank(line) || (Clean(line) != "" && IsSpace(Clean(line)[0]))
  }

  /** The value with its continuation lines, stripped and joined by newlines. */
  ghost function Joined(value: string, more: seq<string>): string
    decreases |more|
  {
    if more == [] then value
    else Joined(if IsBlank(more[0]) then value else value + "\n" + Strip(Clean(more[0])), more[1..])
  }

  ghost predicate WellFormedBody(name: string, b: Body) {
    match b
    case Setting(e) => Wanted(name) && IsSetting(e.line, e.key, e.first) && forall l :: l in e.more ==> Continues(l)
    case Ignored(line) => IsBlank(line) || (!Wanted(name) && Strip(Clean(line))[0] != '[')
  }

  ghost predicate WellFormedSection(s: Section) {
    IsHeader(s.header, s.name) && forall b :: b in s.body ==> WellFormedBody(s.name, b)
  }

  ghost predicate WellFormed(d: Document) {
    (forall l :: l in d.preamble ==> IsBlank(l)) && forall s :: s in d.sections ==> WellFormedSection(s)
  }

  ghost function BodyLines(body: seq<Body>): seq<string> {
    if body == [] then []
    else (match body[0] case Setting(e) => [e.line] + e.more case Ignored(l) => [l]) + BodyLines(body[1..])
  }

  ghost function SectionLines(sections: seq<Section>): seq<string> {
    if sections == [] then [] else [sections[0].header] + BodyLines(sections[0].body) + SectionLines(sections[1..])
  }

  ghost function Text(d: Document): seq<string> {
    d.preamble + SectionLines(d.sections)
  }

  ghost function ConditionOf(b: Body): seq<(string, string)> {
    match b
    case Setting(e) => [(e.key, Joined(e.first, e.more))]
    case Ignored(_) => []
  }

  /** The conditions of a section, in order. */
  ghost function Conditions(body: seq<Body>): seq<(string, string)> {
    if body == [] then []
    else ConditionOf(body[0]) + Conditions(body[1..])
  }

  ghost predicate IsTrigger(c: (string, string)) {
    HasPrefix(c.1, '|')
  }

  ghost predicate IsTrue(eval: Evaluator, c: (string, string)) {
    Outcome(eval, c.0, c.1) == Some(true)
  }

  ghost predicate PlainHold(eval: Evaluator, cs: seq<(string, string)>) {
    forall c :: c in cs && !IsTrigger(c) ==> IsTrue(eval, c)
  }

  ghost predicate HasTrigger(cs: seq<(string, string)>) {
    exists c :: c in cs && IsTrigger(c)
  }

  ghost predicate HasTrueTrigger(eval: Evaluator, cs: seq<(string, string)>) {
    exists c :: c in cs && IsTrigger(c) && IsTrue(eval, c)
  }

  /** All plain conditions hold, and if there are `|` conditions one of them does. */
  ghost predicate Holds(eval: Evaluator, cs: seq<(string, string)>) {
    PlainHold(eval, cs) && (HasTrigger(cs) ==> HasTrueTrigger(eval, cs))
  }

  ghost predicate SectionHolds(eval: Evaluator, s: Section) {
    Holds(eval, Conditions(s.body))
  }

  ghost predicate MatchesHold(eval: Evaluator, sections: seq<Section>) {
    forall s :: s in sections && s.name == "Match" ==> SectionHolds(eval, s)
  }

  ghost predicate HasTriggerMatch(sections: seq<Section>) {
    exists s :: s in sections && s.name == "TriggerMatch"
  }

  ghost predicate TriggerMatchHolds(eval: Evaluator, sections: seq<Section>) {
    exists s :: s in sections && s.name == "TriggerMatch" && SectionHolds(eval, s)
  }

  /** Every [Match] section holds, and if there are [TriggerMatch] sections one of them does. */
  ghost predicate DocumentMatches(eval: Evaluator, sections: seq<Section>) {
    MatchesHold(eval, sections) && (HasTriggerMatch(sections) ==> TriggerMatchHolds(eval, sections))
  }

  /** Every condition of the document has an outcome. */
  ghost predicate Evaluable(eval: Evaluator, sections: seq<Section>) {
    forall s, c :: s in sections && c in Conditions(s.body) ==> Outcome(eval, c.0, c.1).Some?
  }

  // ----- Scanning the text of a document

  ghost function ConditionEvents(name: string, cs: seq<(string, string)>): seq<Event> {
    if cs == [] then [] else [Event(name, cs[0].0, cs[0].1)] + ConditionEvents(name, cs[1..])
  }

  ghost function SectionEvents(sections: seq<Section>): seq<Event> {
    if sections == [] then []
    else
      var s := sections[0];
      ConditionEvents(s.name, Conditions(s.body)) + [Event(s.name, "", "")] + SectionEvents(sections[1..])
  }

  lemma ScanCons(st: Scanner, line: string, rest: seq<string>)
    ensures
      var r := ScanLine(st, line);
      Scan(st, [line] + rest) ==
        if r.1.None? then (r.0, false) else (r.0 + Scan(r.1.value, rest).0, Scan(r.1.value, rest).1)
  {
    assert ([line] + rest)[1..] == rest;
  }

  lemma ScanBlank(st: Scanner, line: string, rest: seq<string>)
    requires IsBlank(line)
    ensures Scan(st, [line] + rest) == Scan(st, rest)
  {
    ScanCons(st, line, rest);
    assert [] + Scan(st, rest).0 == Scan(st, rest).0;
  }

  lemma {:induction false} ScanMore(st: Scanner, more: seq<string>, rest: seq<string>)
    requires st.section.Some? && st.entry.Some? && forall l :: l in more ==> Continues(l)
    ensures
      var st' := st.(entry := Some((st.entry.value.0, Joined(st.entry.value.1, more))));
      Scan(st, more + rest) == Scan(st', rest)
    decreases |more|
  {
    if more == [] {
      assert more + rest == rest;
    } else {
      var (key, value) := st.entry.value;
      assert Continues(more[0]);
      assert more + rest == [more[0]] + (more[1..] + rest);
      if IsBlank(more[0]) {
        ScanBlank(st, more[0], more[1..] + rest);
        ScanMore(st, more[1..], rest);
      } else {
        var st1 := st.(entry := Some((key, value + "\n" + Strip(Clean(more[0])))));
        ScanCons(st, more[0], more[1..] + rest);
        assert ScanLine(st, more[0]) == ([], Some(st1));
        assert [] + Scan(st1, more[1..] + rest).0 == Scan(st1, more[1..] + rest).0;
        ScanMore(st1, more[1..], rest);
      }
    }
  }

  lemma ScanSetting(st: Scanner, line: string, key: string, value: string, rest: seq<string>)
    requires st.section.Some? && Wanted(st.section.value) && IsSetting(line, key, value)
    ensures
      var st' := Scanner(st.section, Some((key, value)));
      Scan(st, [line] + rest) == (Pending(st) + Scan(st', rest).0, Scan(st', rest).1)
  {
    ScanCons(st, line, rest);
  }

  lemma ScanHeader(st: Scanner, line: string, name: string, rest: seq<string>)
    requires IsHeader(line, name)
    ensures
      var st' := Scanner(Some(name), None);
      Scan(st, [line] + rest) == (Pending(st) + EndOf(st) + Scan(st', rest).0, Scan(st', rest).1)
  {
    ScanCons(st, line, rest);
  }

  /** `rest` yields what is pending and then `tail`, whatever is pending. */
  ghost predicate Yields(name: string, rest: seq<string>, tail: seq<Event>) {
    forall entry :: Scan(Scanner(Some(name), entry), rest) == (Pending(Scanner(Some(name), entry)) + tail, true)
  }

  /** A line without a setting yields nothing and changes nothing. */
  lemma ScanIgnored(st: Scanner, line: string, rest: seq<string>)
    requires st.section.Some? && WellFormedBody(st.section.value, Ignored(line))
    requires !Wanted(st.section.value) ==> st.entry.None?
    ensures Scan(st, [line] + rest) == Scan(st, rest)
  {
    hide Scan;
    if IsBlank(line) {
      ScanBlank(st, line, rest);
    } else {
      ScanCons(st, line, rest);
      assert [] + Scan(st, rest).0 == Scan(st, rest).0;
    }
  }

  /** A setting yields what was pending, and is pending itself afterwards. */
  lemma ScanEntry(st: Scanner, e: Entry, rest: seq<string>)
    requires st.section.Some? && WellFormedBody(st.section.value, Setting(e))
    ensures
      var st' := Scanner(st.section, Some((e.key, Joined(e.first, e.more))));
      Scan(st, [e.line] + (e.more + rest)) == (Pending(st) + Scan(st', rest).0, Scan(st', rest).1)
  {
    hide Scan, IsSetting, Continues;
    ScanSetting(st, e.line, e.key, e.first, e.more + rest);
    ScanMore(Scanner(st.section, Some((e.key, e.first))), e.more, rest);
  }

  lemma BodyLinesCons(body: seq<Body>, rest: seq<string>)
    requires body != []
    ensures body[0].Ignored? ==> BodyLines(body) + rest == [body[0].line] + (BodyLines(body[1..]) + rest)
    ensures body[0].Setting? ==>
              BodyLines(body) + rest == [body[0].entry.line] + (body[0].entry.more + (BodyLines(body[1..]) + rest))
  {
    var tail := BodyLines(body[1..]);
    if body[0].Ignored? {
      Associate([body[0].line], tail, rest);
    } else {
      var e := body[0].entry;
      Associate([e.line] + e.more, tail, rest);
      Associate([e.line], e.more, tail + rest);
    }
  }

  lemma ConditionsCons(body: seq<Body>)
    requires body != []
    ensures body[0].Ignored? ==> Conditions(body) == Conditions(body[1..])
    ensures body[0].Setting? ==>
              Conditions(body) == ConditionOf(body[0]) + Conditions(body[1..])
  {
    hide Joined;
    assert [] + Conditions(body[1..]) == Conditions(body[1..]);
  }

  lemma {:induction false} ScanBody(name: string, entry: Option<(string, string)>, body: seq<Body>,
                                    rest: seq<string>, tail: seq<Event>)
    requires Yields(name, rest, tail) && (forall b :: b in body ==> WellFormedBody(name, b))
    requires !Wanted(name) ==> entry.None?
    ensures
      var st := Scanner(Some(name), entry);
      Scan(st, BodyLines(body) + rest) == (Pending(st) + (ConditionEvents(name, Conditions(body)) + tail), true)
    decreases |body|
  {
    var st := Scanner(Some(name), entry);
    if body == [] {
      assert BodyLines(body) + rest == rest;
      assert [] + tail == tail;
    } else {
      hide Scan, Joined, WellFormedBody, BodyLines, Conditions, ConditionEvents;
      assert WellFormedBody(name, body[0]);
      BodyLinesCons(body, rest);
      ConditionsCons(body);
      var others := BodyLines(body[1..]) + rest;
      if body[0].Ignored? {
        ScanIgnored(st, body[0].line, others);
        ScanBody(name, entry, body[1..], rest, tail);
      } else {
        var e := body[0].entry;
        var c := (e.key, Joined(e.first, e.more));
        ScanEntry(st, e, others);
        OnlyWanted(name, e);
        ScanBody(name, Some(c), body[1..], rest, tail);
        ConditionEventsCons(name, c, Conditions(body[1..]), tail);
      }
    }
  }

  lemma OnlyWanted(name: string, e: Entry)
    requires WellFormedBody(name, Setting(e))
    ensures Wanted(name)
  {
  }

  lemma ConditionEventsCons(name: string, c: (string, string), cs: seq<(string, string)>, tail: seq<Event>)
    ensures ConditionEvents(name, [c] + cs) + tail == [Event(name, c.0, c.1)] + (ConditionEvents(name, cs) + tail)
  {
    assert ([c] + cs)[1..] == cs;
  }

  lemma ScanEnd(st: Scanner)
    ensures Scan(st, []) == (Pending(st) + EndOf(st), true)
  {
  }

  lemma SectionsCons(sections: seq<Section>)
    requires sections != []
    ensures
      var s := sections[0];
      SectionLines(sections) == [s.header] + (BodyLines(s.body) + SectionLines(sections[1..]))
    ensures
      var s := sections[0];
      SectionEvents(sections) ==
        ConditionEvents(s.name, Conditions(s.body)) + ([Event(s.name, "", "")] + SectionEvents(sections[1..]))
  {
    hide BodyLines, ConditionEvents, Conditions;
    var s := sections[0];
    Associate([s.header], BodyLines(s.body), SectionLines(sections[1..]));
    Associate(ConditionEvents(s.name, Conditions(s.body)), [Event(s.name, "", "")], SectionEvents(sections[1..]));
  }

  lemma {:induction false} ScanSections(sections: seq<Section>, st: Scanner)
    requires forall s :: s in sections ==> WellFormedSection(s)
    ensures Scan(st, SectionLines(sections)) == (Pending(st) + EndOf(st) + SectionEvents(sections), true)
    decreases |sections|, 0
  {
    if sections == [] {
      ScanEnd(st);
      assert Pending(st) + EndOf(st) + [] == Pending(st) + EndOf(st);
    } else {
      hide Scan, IsHeader, WellFormedBody, BodyLines, ConditionEvents, Conditions, Yields, SectionLines, SectionEvents;
      var s, rest := sections[0], SectionLines(sections[1..]);
      assert WellFormedSection(s);
      SectionsCons(sections);
      SectionsYield(sections[1..], s.name);
      var tail := [Event(s.name, "", "")] + SectionEvents(sections[1..]);
      ScanBody(s.name, None, s.body, rest, tail);
      ScanHeader(st, s.header, s.name, BodyLines(s.body) + rest);
      var events := ConditionEvents(s.name, Conditions(s.body)) + tail;
      assert [] + events == events;
    }
  }

  lemma {:induction false} SectionsYield(sections: seq<Section>, name: string)
    requires forall s :: s in sections ==> WellFormedSection(s)
    ensures Yields(name, SectionLines(sections), [Event(name, "", "")] + SectionEvents(sections))
    decreases |sections|, 1
  {
    hide Scan, WellFormedSection, SectionLines, SectionEvents;
    var rest, tail := SectionLines(sections), [Event(name, "", "")] + SectionEvents(sections);
    forall entry ensures Scan(Scanner(Some(name), entry), rest) == (Pending(Scanner(Some(name), entry)) + tail, true) {
      ScanSections(sections, Scanner(Some(name), entry));
      Associate(Pending(Scanner(Some(name), entry)), [Event(name, "", "")], SectionEvents(sections));
    }
  }

  lemma Associate<T>(x: seq<T>, y: seq<T>, z: seq<T>)
    ensures x + y + z == x + (y + z)
  {
  }

  lemma {:induction false} ScanPreamble(preamble: seq<string>, rest: seq<string>, st: Scanner)
    requires forall l :: l in preamble ==> IsBlank(l)
    ensures Scan(st, preamble + rest) == Scan(st, rest)
    decreases |preamble|
  {
    if preamble == [] {
      assert preamble + rest == rest;
    } else {
      assert preamble + rest == [preamble[0]] + (preamble[1..] + rest);
      ScanBlank(st, preamble[0], preamble[1..] + rest);
      ScanPreamble(preamble[1..], rest, st);
    }
  }

  /** The scanner recovers the sections and settings of every well-formed document. */
  lemma ScanDocument(d: Document)
    requires WellFormed(d)
    ensures Scan(Scanner(None, None), Text(d)) == (SectionEvents(d.sections), true)
  {
    var st := Scanner(None, None);
    ScanPreamble(d.preamble, SectionLines(d.sections), st);
    ScanSections(d.sections, st);
    assert [] + [] + SectionEvents(d.sections) == SectionEvents(d.sections);
  }

  // ----- Evaluating the events of a document

  ghost predicate Named(cs: seq<(string, string)>) {
    forall c :: c in cs ==> c.0 != ""
  }

  lemma KeyIsNotEmpty(e: Entry)
    requires IsSetting(e.line, e.key, e.first)
    ensures e.key != ""
  {
  }

  lemma {:induction false} ConditionsNamed(name: string, body: seq<Body>)
    requires forall b :: b in body ==> WellFormedBody(name, b)
    ensures Named(Conditions(body))
    ensures !Wanted(name) ==> Conditions(body) == []
    decreases |body|
  {
    hide IsSetting, IsBlank, Strip, Joined;
    if body == [] {
    } else {
      assert WellFormedBody(name, body[0]);
      ConditionsNamed(name, body[1..]);
      if body[0].Setting? {
        KeyIsNotEmpty(body[0].entry);
      }
    }
  }

  lemma {:induction false} FeedSkipped(eval: Evaluator, name: string, cs: seq<(string, string)>, st: Matcher)
    requires st.skip && Named(cs)
    ensures FeedAll(eval, st, ConditionEvents(name, cs)) == Running(st)
    decreases |cs|
  {
    if cs == [] {
    } else {
      var es := ConditionEvents(name, cs);
      assert es[0] == Event(name, cs[0].0, cs[0].1) && es[1..] == ConditionEvents(name, cs[1..]);
      assert cs[0] in cs;
      FeedSkipped(eval, name, cs[1..], st);
    }
  }

  /** The condition flag after the `|` conditions of `cs`. */
  ghost function Raised(eval: Evaluator, before: Option<bool>, cs: seq<(string, string)>): Option<bool> {
    if HasTrigger(cs) then Some(before == Some(true) || HasTrueTrigger(eval, cs)) else before
  }

  ghost function AfterConditions(eval: Evaluator, name: string, cs: seq<(string, string)>, st: Matcher): Progress {
    if PlainHold(eval, cs) then Running(st.(condition := Raised(eval, st.condition, cs)))
    else if name == "TriggerMatch" then Running(st.(condition := Some(false), skip := true))
    else Done(Differs)
  }

  /** What one condition does to the evaluation of the remaining ones. */
  lemma AfterCons(eval: Evaluator, name: string, c: (string, string), cs: seq<(string, string)>, st: Matcher)
    requires IsTrigger(c) || IsTrue(eval, c)
    ensures
      var st' := if IsTrigger(c) then st.(condition := Some(st.condition == Some(true) || IsTrue(eval, c))) else st;
      AfterConditions(eval, name, [c] + cs, st) == AfterConditions(eval, name, cs, st')
  {
  }

  lemma {:induction false} FeedConditions(eval: Evaluator, name: string, cs: seq<(string, string)>, st: Matcher)
    requires Wanted(name) && !st.skip && Named(cs) && forall c :: c in cs ==> Outcome(eval, c.0, c.1).Some?
    ensures FeedAll(eval, st, ConditionEvents(name, cs)) == AfterConditions(eval, name, cs, st)
    decreases |cs|
  {
    hide Outcome;
    if cs == [] {
    } else {
      var c, es := cs[0], ConditionEvents(name, cs);
      assert es[0] == Event(name, c.0, c.1) && es[1..] == ConditionEvents(name, cs[1..]);
      assert cs == [c] + cs[1..];
      assert c in cs;
      if IsTrigger(c) || IsTrue(eval, c) {
        AfterCons(eval, name, c, cs[1..], st);
        var st' := if IsTrigger(c) then st.(condition := Some(st.condition == Some(true) || IsTrue(eval, c))) else st;
        assert Feed(eval, st, es[0]) == Running(st');
        FeedConditions(eval, name, cs[1..], st');
      } else {
        assert !PlainHold(eval, cs);
        if name == "TriggerMatch" {
          FeedSkipped(eval, name, cs[1..], st.(condition := Some(false), skip := true));
        }
      }
    }
  }

  ghost function AfterSection(eval: Evaluator, s: Section, triggered: Option<bool>): Progress {
    if s.name == "Match" && !SectionHolds(eval, s) then Done(Differs)
    else if s.name == "TriggerMatch" then
      Running(Matcher(None, Some(triggered == Some(true) || SectionHolds(eval, s)), false))
    else Running(Matcher(None, triggered, false))
  }

  lemma FeedSection(eval: Evaluator, s: Section, triggered: Option<bool>)
    requires WellFormedSection(s) && Evaluable(eval, [s])
    ensures
      var events := ConditionEvents(s.name, Conditions(s.body)) + [Event(s.name, "", "")];
      FeedAll(eval, Matcher(None, triggered, false), events) == AfterSection(eval, s, triggered)
  {
    hide IsHeader, WellFormedBody, Outcome, PlainHold, HasTrigger, HasTrueTrigger;
    var cs, st, end := Conditions(s.body), Matcher(None, triggered, false), [Event(s.name, "", "")];
    ConditionsNamed(s.name, s.body);
    FeedAppend(eval, st, ConditionEvents(s.name, cs), end);
    if Wanted(s.name) {
      assert s in [s];
      FeedConditions(eval, s.name, cs, st);
    }
  }

  ghost function AfterSections(eval: Evaluator, sections: seq<Section>, triggered: Option<bool>): Progress {
    if !MatchesHold(eval, sections) then Done(Differs)
    else if HasTriggerMatch(sections) then
      Running(Matcher(None, Some(triggered == Some(true) || TriggerMatchHolds(eval, sections)), false))
    else Running(Matcher(None, triggered, false))
  }

  lemma AfterSectionsCons(eval: Evaluator, s: Section, rest: seq<Section>, triggered: Option<bool>)
    ensures
      var p := AfterSection(eval, s, triggered);
      AfterSections(eval, [s] + rest, triggered) == if p.Done? then p else AfterSections(eval, rest, p.state.triggered)
  {
  }

  lemma {:induction false} FeedSections(eval: Evaluator, sections: seq<Section>, triggered: Option<bool>)
    requires (forall s :: s in sections ==> WellFormedSection(s)) && Evaluable(eval, sections)
    ensures
      var st := Matcher(None, triggered, false);
      FeedAll(eval, st, SectionEvents(sections)) == AfterSections(eval, sections, triggered)
    decreases |sections|
  {
    hide WellFormedSection, Outcome, SectionHolds, FeedAll, ConditionEvents, Conditions, AfterSections;
    if sections == [] {
      NoSections(eval, triggered);
    } else {
      var s, rest := sections[0], sections[1..];
      var events := ConditionEvents(s.name, Conditions(s.body)) + [Event(s.name, "", "")];
      assert sections == [s] + rest;
      FeedSection(eval, s, triggered);
      FeedAppend(eval, Matcher(None, triggered, false), events, SectionEvents(rest));
      AfterSectionsCons(eval, s, rest, triggered);
      var p := AfterSection(eval, s, triggered);
      if p.Running? {
        FeedSections(eval, rest, p.state.triggered);
      }
    }
  }

  lemma NoSections(eval: Evaluator, triggered: Option<bool>)
    ensures FeedAll(eval, Matcher(None, triggered, false), []) == AfterSections(eval, [], triggered)
  {
  }

  /**
   For every well-formed document whose conditions all have an outcome: the file matches
   exactly when every [Match] section holds and, if there are [TriggerMatch] sections, at
   least one of those holds.
   */
  lemma MatchMeansDocument(eval: Evaluator, d: Document)
    requires WellFormed(d) && Evaluable(eval, d.sections)
    ensures Match(eval, Text(d)) == if DocumentMatches(eval, d.sections) then Matches else Differs
  {
    hide SectionHolds, Scan, Text, FeedAll, SectionEvents;
    ScanDocument(d);
    FeedSections(eval, d.sections, None);
  }

  // ----- A condition without an outcome

  lemma {:induction false} FeedUnknown(eval: Evaluator, name: string, cs: seq<(string, string)>, k: nat, st: Matcher)
    requires !st.skip && Named(cs) && k < |cs| && Outcome(eval, cs[k].0, cs[k].1).None?
    requires forall j :: 0 <= j < k ==>
               Outcome(eval, cs[j].0, cs[j].1).Some? && (IsTrigger(cs[j]) || IsTrue(eval, cs[j]))
    ensures FeedAll(eval, st, ConditionEvents(name, cs)) == Done(Exits)
    decreases |cs|
  {
    hide Outcome;
    var c, es := cs[0], ConditionEvents(name, cs);
    assert es[0] == Event(name, c.0, c.1) && es[1..] == ConditionEvents(name, cs[1..]);
    assert c in cs;
    if k == 0 {
    } else {
      var st' := if IsTrigger(c) then st.(condition := Some(st.condition == Some(true) || IsTrue(eval, c))) else st;
      assert Feed(eval, st, es[0]) == Running(st');
      FeedUnknown(eval, name, cs[1..], k - 1, st');
    }
  }

  lemma {:induction false} SectionEventsAppend(a: seq<Section>, b: seq<Section>)
    ensures SectionEvents(a + b) == SectionEvents(a) + SectionEvents(b)
    decreases |a|
  {
    hide ConditionEvents, Conditions;
    if a == [] {
      assert a + b == b;
    } else {
      assert (a + b)[1..] == a[1..] + b;
      SectionEventsAppend(a[1..], b);
    }
  }

  /** Where the evaluation reaches a condition it cannot decide, it exits with an error. */
  lemma UnknownExits(eval: Evaluator, d: Document, before: seq<Section>, s: Section, after: seq<Section>, k: nat)
    requires WellFormed(d) && d.sections == before + [s] + after
    requires Evaluable(eval, before) && MatchesHold(eval, before)
    requires
      var cs := Conditions(s.body);
      && k < |cs| && Outcome(eval, cs[k].0, cs[k].1).None?
      && forall j :: 0 <= j < k ==> Outcome(eval, cs[j].0, cs[j].1).Some? && (IsTrigger(cs[j]) || IsTrue(eval, cs[j]))
    ensures Match(eval, Text(d)) == Exits
  {
    hide Outcome, Scan, Text, FeedAll, SectionEvents, Conditions, ConditionEvents, WellFormedSection, IsTrue, IsTrigger;
    ScanDocument(d);
    var rest := [s] + after;
    assert before + [s] + after == before + rest;
    assert WellFormedSection(s) by { assert s in d.sections; }
    assert forall x :: x in before ==> x in d.sections;
    SectionEventsAppend(before, rest);
    FeedSections(eval, before, None);
    var st := FeedAll(eval, START, SectionEvents(before)).state;
    assert rest[1..] == after;
    SectionsCons(rest);
    SectionConditionsNamed(s);
    FeedUnknown(eval, s.name, Conditions(s.body), k, st);
    var end := [Event(s.name, "", "")] + SectionEvents(after);
    FeedAppend(eval, st, ConditionEvents(s.name, Conditions(s.body)), end);
    FeedAppend(eval, START, SectionEvents(before), SectionEvents(rest));
  }

  lemma SectionConditionsNamed(s: Section)
    requires WellFormedSection(s)
    ensures Named(Conditions(s.body))
  {
    hide IsHeader, WellFormedBody;
    ConditionsNamed(s.name, s.body);
  }
}
