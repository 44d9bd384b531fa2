/**
 The JSON grammar of sections 2 to 7 of RFC 8259, as syntax trees that also record the
 whitespace, with their text and the nodes a tokenizer should report for them.
 */
module Json {
  import opened Basics
  import JsmnSpec

  type Kind = JsmnSpec.Kind

  /** Section 2. */
  const WHITESPACE: set<char> := {' ', '\t', '\n', '\r'}

  /** Section 7: the characters that may follow a backslash, and the hexadecimal digits. */
  const ESCAPES: set<char> := {'\"', '\\', '/', 'b', 'f', 'n', 'r', 't'}
  const HEX_DIGITS: set<char> := {
    '0', '1', '2', '3', '4', '5', '6', '7', '8', '9',
    'A', 'B', 'C', 'D', 'E', 'F', 'a', 'b', 'c', 'd', 'e', 'f'
  }

  datatype Char = Plain(c: char) | Escape(c: char) | Unicode(hex: string) {
    predicate Valid() {
      match this
      case Plain(c) => ' ' <= c && c != '\"' && c != '\\'
      case Escape(c) => c in ESCAPES
      case Unicode(hex) => |hex| == 4 && forall i :: 0 <= i < 4 ==> hex[i] in HEX_DIGITS
    }

    function Text(): string {
      match this
      case Plain(c) => [c]
      case Escape(c) => ['\\', c]
      case Unicode(hex) => ['\\', 'u'] + hex
    }
  }

  datatype Exponent = Exponent(e: char, sign: string, digits: string)

  datatype Number = Number(minus: bool, integer: string, fraction: Option<string>, exponent: Option<Exponent>) {
    predicate Valid() {
      && IsDigits(integer) && (integer[0] == '0' ==> |integer| == 1)
      && (fraction.Some? ==> IsDigits(fraction.value))
      && (exponent.Some? ==>
            && (exponent.value.e == 'e' || exponent.value.e == 'E')
            && (exponent.value.sign == "" || exponent.value.sign == "+" || exponent.value.sign == "-")
            && IsDigits(exponent.value.digits))
    }

    function Text(): string {
      (if minus then "-" else "") + integer
      + (if fraction.Some? then "." + fraction.value else "")
      + (if exponent.Some? then [exponent.value.e] + exponent.value.sign + exponent.value.digits else "")
    }
  }

  predicate IsDigits(s: string) {
    s != [] && forall i :: 0 <= i < |s| ==> '0' <= s[i] <= '9'
  }

  datatype Value =
    | Null
    | Bool(b: bool)
    | Num(n: Number)
    | Str(cs: seq<Char>)
    | Arr(ws: string, elems: seq<Element>)
    | Obj(ws: string, members: seq<Member>)

  datatype Element = Element(before: string, value: Value, after: string)

  datatype Member = Member(
    before: string, key: seq<Char>, afterKey: string, beforeValue: string, value: Value, after: string)

  predicate IsBlank(s: string) {
    forall i :: 0 <= i < |s| ==> s[i] in WHITESPACE
  }

  predicate WellFormed(v: Value) {
    match v
    case Null => true
    case Bool(_) => true
    case Num(n) => n.Valid()
    case Str(cs) => ValidChars(cs)
    case Arr(ws, elems) =>
      IsBlank(ws) && forall e :: e in elems ==> IsBlank(e.before) && WellFormed(e.value) && IsBlank(e.after)
    case Obj(ws, members) =>
      IsBlank(ws) && forall m :: m in members ==>
        && IsBlank(m.before) && ValidChars(m.key) && IsBlank(m.afterKey)
        && IsBlank(m.beforeValue) && WellFormed(m.value) && IsBlank(m.after)
  }

  predicate ValidChars(cs: seq<Char>) {
    forall c :: c in cs ==> c.Valid()
  }

  function CharsText(cs: seq<Char>): string {
    if cs == [] then "" else cs[0].Text() + CharsText(cs[1..])
  }

  predicate IsPrimitive(v: Value) {
    v.Null? || v.Bool? || v.Num?
  }

  predicate IsLeaf(v: Value) {
    IsPrimitive(v) || v.Str?
  }

  function Text(v: Value): string
    decreases v, 1
  {
    match v
    case Null => "null"
    case Bool(b) => if b then "true" else "false"
    case Num(n) => n.Text()
    case Str(cs) => "\"" + CharsText(cs) + "\""
    case Arr(ws, elems) => "[" + ws + ElementsText(elems) + "]"
    case Obj(ws, members) => "{" + ws + MembersText(members) + "}"
  }

  function ElementText(e: Element): string
    decreases e, 0
  {
    e.before + Text(e.value) + e.after
  }

  function ElementsText(es: seq<Element>): string
    decreases es, 0
  {
    if es == [] then ""
    else if |es| == 1 then ElementText(es[0])
    else ElementText(es[0]) + "," + ElementsText(es[1..])
  }

  /** The part of a member in front of its value. */
  function KeyText(m: Member): string {
    m.before + "\"" + CharsText(m.key) + "\"" + m.afterKey + ":" + m.beforeValue
  }

  function MemberText(m: Member): string
    decreases m, 0
  {
    KeyText(m) + Text(m.value) + m.after
  }

  function MembersText(ms: seq<Member>): string
    decreases ms, 0
  {
    if ms == [] then ""
    else if |ms| == 1 then MemberText(ms[0])
    else MemberText(ms[0]) + "," + MembersText(ms[1..])
  }

  /** What a tokenizer should report: kind, text and number of children, in preorder. */
  datatype Node = Node(kind: Kind, text: string, size: nat)

  ghost function Nodes(v: Value): seq<Node>
    decreases v, 1
  {
    match v
    case Str(cs) => [Node(JsmnSpec.String, CharsText(cs), 0)]
    case Arr(_, elems) => [Node(JsmnSpec.Array, Text(v), |elems|)] + ElementNodes(elems)
    case Obj(_, members) => [Node(JsmnSpec.Object, Text(v), |members|)] + MemberNodes(members)
    case _ => [Node(JsmnSpec.Primitive, Text(v), 0)]
  }

  ghost function ElementNodes(es: seq<Element>): seq<Node>
    decreases es, 0
  {
    if es == [] then [] else Nodes(es[0].value) + ElementNodes(es[1..])
  }

  ghost function MemberNodes(ms: seq<Member>): seq<Node>
    decreases ms, 0
  {
    if ms == [] then []
    else [Node(JsmnSpec.String, CharsText(ms[0].key), 1)] + Nodes(ms[0].value) + MemberNodes(ms[1..])
  }

  // ----- Facts about the text of a primitive

  ghost predicate IsPrimitiveChar(c: char) {
    'a' <= c <= 'z' || '0' <= c <= '9' || c == 'E' || c == '+' || c == '-' || c == '.'
  }

  lemma PrimitiveText(v: Value)
    requires IsPrimitive(v) && WellFormed(v)
    ensures Text(v) != []
    ensures forall i :: 0 <= i < |Text(v)| ==> IsPrimitiveChar(Text(v)[i])
  {
    if v.Num? {
      NumberText(v.n);
    }
  }

  lemma NumberText(n: Number)
    requires n.Valid()
    ensures n.Text() != []
    ensures forall i :: 0 <= i < |n.Text()| ==> IsPrimitiveChar(n.Text()[i])
  {
  }
}
