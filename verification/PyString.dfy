/** Python's order on `str`, by code points. */
module PyString {

  function CompareText(a: string, b: string): (r: int)
    ensures -1 <= r <= 1
  {
    if a == "" && b == "" then 0
    else if a == "" then -1
    else if b == "" then 1
    else if a[0] < b[0] then -1
    else if a[0] > b[0] then 1
    else CompareText(a[1..], b[1..])
  }

  lemma CompareTextSwap(a: string, b: string)
    ensures CompareText(b, a) == -CompareText(a, b)
  {
  }

  lemma CompareTextEqual(a: string, b: string)
    ensures CompareText(a, b) == 0 <==> a == b
  {
  }

  lemma CompareTextTransitive(a: string, b: string, c: string)
    requires CompareText(a, b) < 0 && CompareText(b, c) < 0
    ensures CompareText(a, c) < 0
  {
  }

  /** `a` ends inside `b`, or has the smaller code point where they first differ. */
  ghost predicate TextBelow(a: string, b: string) {
    a < b || exists i :: 0 <= i < |a| && i < |b| && a[..i] == b[..i] && a[i] < b[i]
  }

  lemma {:induction false} TextOrder(a: string, b: string)
    ensures CompareText(a, b) == -1 <==> TextBelow(a, b)
    ensures CompareText(a, b) == 1 <==> TextBelow(b, a)
    decreases |a|
  {
    if a == "" || b == "" || a[0] != b[0] {
      assert a[..0] == b[..0];
    } else {
      TextOrder(a[1..], b[1..]);
      BelowCons(a, b);
      BelowCons(b, a);
    }
  }

  lemma BelowCons(a: string, b: string)
    requires a != "" && b != "" && a[0] == b[0]
    ensures TextBelow(a, b) <==> TextBelow(a[1..], b[1..])
  {
    var x, y := a[1..], b[1..];
    assert a == [a[0]] + x && b == [b[0]] + y;
    if i :| 0 <= i < |a| && i < |b| && a[..i] == b[..i] && a[i] < b[i] {
      assert x[..i - 1] == a[..i][1..] && y[..i - 1] == b[..i][1..];
      assert x[i - 1] < y[i - 1];
    }
    if i :| 0 <= i < |x| && i < |y| && x[..i] == y[..i] && x[i] < y[i] {
      assert a[..i + 1] == [a[0]] + x[..i] && b[..i + 1] == [b[0]] + y[..i];
      assert a[i + 1] < b[i + 1];
    }
  }
}
