/**
 `finalize_mounts`: which bind mounts it drops, and when dropping them leaves every path
 of the sandbox resolving as before. Paths are sequences of components.
 */
module Mounts {
  import opened Basics
  import opened PyString

  type Path = seq<string>

  datatype Mount = Mount(src: Path, dst: Path, devices: bool, ro: bool, required: bool) {
    /** The bubblewrap option that `options()` emits for the mount. */
    function Opt(): string {
      if devices then (if required then "--dev-bind" else "--dev-bind-try")
      else if ro then (if required then "--ro-bind" else "--ro-bind-try")
      else (if required then "--bind" else "--bind-try")
    }
  }

  /** The test of the comprehension: `m` is what `n` already mounts below its destination. */
  predicate Subsumes(n: Mount, m: Mount) {
    && m != n && m.devices == n.devices && m.ro == n.ro && m.required == n.required
    && n.src <= m.src && n.dst <= m.dst && m.src[|n.src|..] == m.dst[|n.dst|..]
  }

  // ----- The sort key

  function ComparePaths(a: Path, b: Path): (r: int)
    ensures -1 <= r <= 1
  {
    if a == [] && b == [] then 0
    else if a == [] then -1
    else if b == [] then 1
    else Then(CompareText(a[0], b[0]), ComparePaths(a[1..], b[1..]))
  }

  function CompareBools(a: bool, b: bool): (r: int)
    ensures -1 <= r <= 1
  {
    if a == b then 0 else if a then 1 else -1
  }

  function Then(first: int, second: int): int {
    if first != 0 then first else second
  }

  /** The order of the keys `(dst, devices, not ro, required, src)`. */
  function CompareMounts(m: Mount, n: Mount): (r: int)
    ensures -1 <= r <= 1
  {
    Then(ComparePaths(m.dst, n.dst),
         Then(CompareBools(m.devices, n.devices),
              Then(CompareBools(!m.ro, !n.ro),
                   Then(CompareBools(m.required, n.required), ComparePaths(m.src, n.src)))))
  }

  lemma PathsSwap(a: Path, b: Path)
    ensures ComparePaths(b, a) == -ComparePaths(a, b)
  {
    if a != [] && b != [] {
      CompareTextSwap(a[0], b[0]);
    }
  }

  lemma PathsEqual(a: Path, b: Path)
    ensures ComparePaths(a, b) == 0 <==> a == b
  {
    if a != [] && b != [] {
      CompareTextEqual(a[0], b[0]);
      assert a == [a[0]] + a[1..] && b == [b[0]] + b[1..];
    }
  }

  lemma PathsTransitive(a: Path, b: Path, c: Path)
    requires ComparePaths(a, b) < 0 && ComparePaths(b, c) < 0
    ensures ComparePaths(a, c) < 0
  {
    if a == [] || c == [] {
    } else {
      CompareTextEqual(a[0], b[0]);
      CompareTextEqual(b[0], c[0]);
      if CompareText(a[0], b[0]) < 0 && CompareText(b[0], c[0]) < 0 {
        CompareTextTransitive(a[0], b[0], c[0]);
      } else if CompareText(a[0], b[0]) == 0 && CompareText(b[0], c[0]) == 0 {
        PathsTransitive(a[1..], b[1..], c[1..]);
      }
    }
  }

  lemma PrefixFirst(a: Path, b: Path)
    requires a < b
    ensures ComparePaths(a, b) == -1
  {
    if a != [] {
      CompareTextEqual(a[0], b[0]);
    }
  }

  lemma MountsSwap(m: Mount, n: Mount)
    ensures CompareMounts(n, m) == -CompareMounts(m, n)
  {
    PathsSwap(m.dst, n.dst);
    PathsSwap(m.src, n.src);
  }

  lemma MountsEqual(m: Mount, n: Mount)
    ensures CompareMounts(m, n) == 0 <==> m == n
  {
    PathsEqual(m.dst, n.dst);
    PathsEqual(m.src, n.src);
  }

  lemma MountsTransitive(m: Mount, n: Mount, o: Mount)
    requires CompareMounts(m, n) < 0 && CompareMounts(n, o) < 0
    ensures CompareMounts(m, o) < 0
  {
    PathsEqual(m.dst, n.dst);
    PathsEqual(n.dst, o.dst);
    PathsEqual(m.src, n.src);
    PathsEqual(n.src, o.src);
    if ComparePaths(m.dst, n.dst) < 0 && ComparePaths(n.dst, o.dst) < 0 {
      PathsTransitive(m.dst, n.dst, o.dst);
    }
    if ComparePaths(m.src, n.src) < 0 && ComparePaths(n.src, o.src) < 0 {
      PathsTransitive(m.src, n.src, o.src);
    }
  }

  // ----- The function

  ghost predicate Distinct(ms: seq<Mount>) {
    ms == [] || (ms[0] !in ms[1..] && Distinct(ms[1..]))
  }

  /** `list(set(mounts))`, in some order. */
  function Dedup(ms: seq<Mount>): (r: seq<Mount>)
    ensures forall m :: m in r <==> m in ms
    ensures Distinct(r)
  {
    if ms == [] then []
    else
      var rest := Dedup(ms[1..]);
      if ms[0] in rest then rest else [ms[0]] + rest
  }

  function KeepMinimal(ms: seq<Mount>, all: seq<Mount>): (r: seq<Mount>)
    ensures forall m :: m in r <==> m in ms && forall n :: n in all ==> !Subsumes(n, m)
    ensures Distinct(ms) ==> Distinct(r)
  {
    if ms == [] then []
    else
      var rest := KeepMinimal(ms[1..], all);
      if exists n :: n in all && Subsumes(n, ms[0]) then rest else [ms[0]] + rest
  }

  ghost predicate Sorted(ms: seq<Mount>) {
    forall i, j :: 0 <= i < j < |ms| ==> CompareMounts(ms[i], ms[j]) < 0
  }

  function Insert(m: Mount, ms: seq<Mount>): (r: seq<Mount>)
    ensures forall n :: n in r <==> n == m || n in ms
  {
    if ms == [] || CompareMounts(m, ms[0]) <= 0 then [m] + ms
    else
      var r := [ms[0]] + Insert(m, ms[1..]);
      assert ms == [ms[0]] + ms[1..];
      r
  }

  function Sort(ms: seq<Mount>): (r: seq<Mount>)
    ensures forall n :: n in r <==> n in ms
  {
    if ms == [] then [] else Insert(ms[0], Sort(ms[1..]))
  }

  function Finalize(mounts: seq<Mount>): seq<Mount> {
    var ms := Dedup(mounts);
    Sort(KeepMinimal(ms, ms))
  }

  /** What the sandbox would get if nothing were dropped. */
  function Unminimized(mounts: seq<Mount>): seq<Mount> {
    Sort(Dedup(mounts))
  }

  lemma {:induction false} InsertSorted(m: Mount, ms: seq<Mount>)
    requires Sorted(ms) && m !in ms
    ensures Sorted(Insert(m, ms))
    decreases |ms|
  {
    var r := Insert(m, ms);
    if ms == [] {
    } else {
      MountsEqual(m, ms[0]);
      if CompareMounts(m, ms[0]) < 0 {
        forall j | 0 < j < |ms| ensures CompareMounts(m, ms[j]) < 0 {
          MountsTransitive(m, ms[0], ms[j]);
        }
      } else {
        InsertSorted(m, ms[1..]);
        MountsSwap(m, ms[0]);
        var rest := Insert(m, ms[1..]);
        forall j | 0 <= j < |rest| ensures CompareMounts(ms[0], rest[j]) < 0 {
          assert rest[j] in rest;
        }
      }
    }
  }

  lemma {:induction false} SortSorts(ms: seq<Mount>)
    requires Distinct(ms)
    ensures Sorted(Sort(ms))
    decreases |ms|
  {
    if ms == [] {
    } else {
      SortSorts(ms[1..]);
      InsertSorted(ms[0], Sort(ms[1..]));
    }
  }

  /** The output is the kept mounts, each once, in the order of the sort key. */
  lemma FinalizeKeeps(mounts: seq<Mount>)
    ensures Sorted(Finalize(mounts)) && Sorted(Unminimized(mounts))
    ensures forall m :: m in Unminimized(mounts) <==> m in mounts
    ensures forall m :: m in Finalize(mounts) <==> m in mounts && forall n :: n in mounts ==> !Subsumes(n, m)
  {
    var ms := Dedup(mounts);
    SortSorts(ms);
    SortSorts(KeepMinimal(ms, ms));
  }

  // ----- The output in terms of the fields

  /** `a` ends inside `b`, or has the smaller component where they first differ. */
  ghost predicate PathBelow(a: Path, b: Path) {
    a < b || exists i :: 0 <= i < |a| && i < |b| && a[..i] == b[..i] && TextBelow(a[i], b[i])
  }

  /** By destination; there plain before device, read-only before writable, optional before required. */
  ghost predicate Precedes(m: Mount, n: Mount) {
    PathBelow(m.dst, n.dst) || (m.dst == n.dst && PrecedesThere(m, n))
  }

  ghost predicate PrecedesThere(m: Mount, n: Mount) {
    if m.devices != n.devices then n.devices
    else if m.ro != n.ro then m.ro
    else if m.required != n.required then n.required
    else PathBelow(m.src, n.src)
  }

  lemma {:induction false} PathOrder(a: Path, b: Path)
    ensures ComparePaths(a, b) == -1 <==> PathBelow(a, b)
    decreases |a|
  {
    if a == [] || b == [] {
    } else {
      TextOrder(a[0], b[0]);
      CompareTextEqual(a[0], b[0]);
      PathOrder(a[1..], b[1..]);
      if a[0] == b[0] {
        PathBelowCons(a, b);
      } else {
        PathBelowFirst(a, b);
      }
    }
  }

  lemma PathBelowFirst(a: Path, b: Path)
    requires a != [] && b != [] && a[0] != b[0]
    ensures PathBelow(a, b) <==> TextBelow(a[0], b[0])
  {
    hide TextBelow;
    assert a[..0] == b[..0];
    forall i | 0 < i <= |a| && i <= |b| ensures a[..i] != b[..i] {
      assert a[..i][0] != b[..i][0];
    }
  }

  lemma PathBelowCons(a: Path, b: Path)
    requires a != [] && b != [] && a[0] == b[0]
    ensures PathBelow(a, b) <==> PathBelow(a[1..], b[1..])
  {
    hide TextBelow;
    TextNotBelowItself(a[0]);
    var x, y := a[1..], b[1..];
    assert a == [a[0]] + x && b == [b[0]] + y;
    if i :| 0 <= i < |a| && i < |b| && a[..i] == b[..i] && TextBelow(a[i], b[i]) {
      assert x[..i - 1] == a[..i][1..] && y[..i - 1] == b[..i][1..];
      assert TextBelow(x[i - 1], y[i - 1]);
    }
    if i :| 0 <= i < |x| && i < |y| && x[..i] == y[..i] && TextBelow(x[i], y[i]) {
      assert a[..i + 1] == [a[0]] + x[..i] && b[..i + 1] == [b[0]] + y[..i];
      assert TextBelow(a[i + 1], b[i + 1]);
    }
  }

  lemma TextNotBelowItself(a: string)
    ensures !TextBelow(a, a)
  {
    TextOrder(a, a);
    CompareTextEqual(a, a);
  }

  lemma KeyOrder(m: Mount, n: Mount)
    ensures CompareMounts(m, n) == -1 <==> Precedes(m, n)
  {
    hide PathBelow, ComparePaths;
    PathOrder(m.dst, n.dst);
    PathOrder(m.src, n.src);
    PathsEqual(m.dst, n.dst);
  }

  /** `n` mounts the same at `m`'s place, with the same flags: both paths go on alike from its own. */
  ghost predicate Repeats(n: Mount, m: Mount) {
    && m != n && m.devices == n.devices && m.ro == n.ro && m.required == n.required
    && exists rest :: m.src == n.src + rest && m.dst == n.dst + rest
  }

  lemma SubsumesIsRepeats(n: Mount, m: Mount)
    ensures Subsumes(n, m) <==> Repeats(n, m)
  {
    if Subsumes(n, m) {
      var rest := m.src[|n.src|..];
      assert m.src == n.src + rest && m.dst == n.dst + rest;
    }
  }

  /** The output: the given mounts that repeat no other, each once, in the order of their fields. */
  lemma FinalizeExactly(mounts: seq<Mount>)
    ensures forall m :: m in Finalize(mounts) <==> m in mounts && forall n :: n in mounts ==> !Repeats(n, m)
    ensures forall i, j :: 0 <= i < j < |Finalize(mounts)| ==> Precedes(Finalize(mounts)[i], Finalize(mounts)[j])
  {
    hide Finalize, Unminimized, Subsumes, Repeats, CompareMounts, Precedes;
    FinalizeKeeps(mounts);
    var kept := Finalize(mounts);
    forall n, m ensures Subsumes(n, m) <==> Repeats(n, m) {
      SubsumesIsRepeats(n, m);
    }
    forall i, j | 0 <= i < j < |kept| ensures Precedes(kept[i], kept[j]) {
      KeyOrder(kept[i], kept[j]);
    }
  }

  /** The option says what kind of mount it is. */
  lemma OptionTells(m: Mount)
    ensures m.Opt() == (if m.devices then "--dev-bind" else if m.ro then "--ro-bind" else "--bind")
                       + (if m.required then "" else "-try")
  {
  }

  // ----- Every dropped mount is subsumed by one that is kept

  lemma SubsumesTransitive(a: Mount, b: Mount, c: Mount)
    requires Subsumes(a, b) && Subsumes(b, c)
    ensures Subsumes(a, c)
  {
  }

  lemma SubsumesShorter(n: Mount, m: Mount)
    requires Subsumes(n, m)
    ensures |n.dst| < |m.dst|
  {
    assert |n.dst| == |m.dst| ==> m.dst == n.dst;
    assert |n.src| == |m.src| ==> m.src == n.src;
  }

  /** The test is made against mounts that may be dropped themselves; that loses nothing. */
  lemma {:induction false} DroppedIsSubsumed(mounts: seq<Mount>, m: Mount)
    requires m in mounts && m !in Finalize(mounts)
    ensures exists n :: n in Finalize(mounts) && Subsumes(n, m)
    decreases |m.dst|
  {
    FinalizeKeeps(mounts);
    var n :| n in mounts && Subsumes(n, m);
    if n in Finalize(mounts) {
    } else {
      SubsumesShorter(n, m);
      DroppedIsSubsumed(mounts, n);
      var k :| k in Finalize(mounts) && Subsumes(k, n);
      SubsumesTransitive(k, n, m);
    }
  }

  // ----- Resolution of a path

  /** Binds are applied in order; the last one at or above a path is the one it resolves through. */
  ghost function Winner(ms: seq<Mount>, p: Path): (r: Option<Mount>)
    ensures r.Some? ==> r.value in ms && r.value.dst <= p
    ensures r.None? ==> forall m :: m in ms ==> !(m.dst <= p)
  {
    if ms == [] then None
    else
      var last := ms[|ms| - 1];
      assert ms == ms[..|ms| - 1] + [last];
      if last.dst <= p then Some(last) else Winner(ms[..|ms| - 1], p)
  }

  /** The host path and the bind option behind a sandbox path. */
  ghost function Resolve(ms: seq<Mount>, p: Path): Option<(Path, string)> {
    match Winner(ms, p)
    case None => None
    case Some(m) => Some((m.src + p[|m.dst|..], m.Opt()))
  }

  /** Among the mounts at or above a path, the winner is the last in the sort order. */
  lemma {:induction false} WinnerIsLast(ms: seq<Mount>, p: Path, m: Mount)
    requires Sorted(ms) && m in ms && m.dst <= p
    ensures Winner(ms, p).Some? && (Winner(ms, p).value == m || CompareMounts(m, Winner(ms, p).value) < 0)
    decreases |ms|
  {
    hide CompareMounts;
    var n := |ms| - 1;
    if ms[n].dst <= p {
    } else {
      assert ms == ms[..n] + [ms[n]];
      WinnerIsLast(ms[..n], p, m);
    }
  }

  lemma WinnerUnique(ms: seq<Mount>, p: Path, w: Mount)
    requires Sorted(ms) && w in ms && w.dst <= p
    requires forall m :: m in ms && m.dst <= p && m != w ==> CompareMounts(m, w) < 0
    ensures Winner(ms, p) == Some(w)
  {
    WinnerIsLast(ms, p, w);
    var v := Winner(ms, p).value;
    MountsSwap(v, w);
  }

  /** The winner has the deepest destination. */
  lemma WinnerIsDeepest(ms: seq<Mount>, p: Path, m: Mount)
    requires Sorted(ms) && m in ms && m.dst <= p
    ensures m.dst <= Winner(ms, p).value.dst
  {
    WinnerIsLast(ms, p, m);
    var w := Winner(ms, p).value;
    if |w.dst| < |m.dst| {
      assert w.dst < m.dst;
      PrefixFirst(w.dst, m.dst);
      PathsSwap(w.dst, m.dst);
      PathsEqual(w.dst, m.dst);
    }
  }

  /** A winner at `p` also wins at its own destination. */
  lemma WinsAtOwn(ms: seq<Mount>, p: Path)
    requires Sorted(ms) && Winner(ms, p).Some?
    ensures Winner(ms, Winner(ms, p).value.dst) == Winner(ms, p)
  {
  }

  /** A path resolves into the source of a kept mount above it that no other kept mount comes after. */
  lemma PathResolves(mounts: seq<Mount>, m: Mount, rest: Path)
    requires m in Finalize(mounts)
    requires forall n :: n in Finalize(mounts) && n.dst <= m.dst + rest && n != m ==>
               n.dst < m.dst || (n.dst == m.dst && PrecedesThere(n, m))
    ensures Resolve(Finalize(mounts), m.dst + rest) == Some((m.src + rest, m.Opt()))
  {
    hide Finalize, Winner, CompareMounts, PathBelow;
    FinalizeKeeps(mounts);
    var p := m.dst + rest;
    forall n | n in Finalize(mounts) && n.dst <= p && n != m ensures CompareMounts(n, m) < 0 {
      if n.dst == m.dst {
        KeyOrder(n, m);
      } else {
        DeeperIsLater(n, m);
      }
    }
    WinnerUnique(Finalize(mounts), p, m);
    assert p[|m.dst|..] == rest;
  }

  /**
   What a destination resolves to: the kept mount there that comes after all others there,
   so a device rather than a plain bind, a writable one rather than a read-only one, a
   required one rather than an optional one.
   */
  lemma DestinationResolves(mounts: seq<Mount>, m: Mount)
    requires m in Finalize(mounts)
    requires forall n :: n in Finalize(mounts) && n.dst == m.dst && n != m ==> PrecedesThere(n, m)
    ensures Resolve(Finalize(mounts), m.dst) == Some((m.src, m.Opt()))
  {
    forall n | n in Finalize(mounts) && n.dst <= m.dst && n != m
      ensures n.dst < m.dst || (n.dst == m.dst && PrecedesThere(n, m))
    {
      assert n.dst != m.dst ==> n.dst < m.dst;
    }
    assert m.dst + [] == m.dst && m.src + [] == m.src;
    PathResolves(mounts, m, []);
  }

  /** `k` gives the destination of `w` the same source and option as `w` itself. */
  ghost predicate Covers(k: Mount, w: Mount) {
    k.dst <= w.dst && k.Opt() == w.Opt() && k.src + w.dst[|k.dst|..] == w.src
  }

  lemma SubsumesCovers(k: Mount, w: Mount)
    requires Subsumes(k, w)
    ensures Covers(k, w)
  {
  }

  /** Wherever a dropped mount would have won, a kept one wins, and the same one as at its destination. */
  lemma KeptWinner(mounts: seq<Mount>, p: Path, w: Mount)
    requires Winner(Unminimized(mounts), p) == Some(w) && w !in Finalize(mounts)
    ensures Winner(Finalize(mounts), w.dst).Some?
    ensures Winner(Finalize(mounts), p) == Winner(Finalize(mounts), w.dst)
  {
    FinalizeKeeps(mounts);
    DroppedIsSubsumed(mounts, w);
    var kept := Finalize(mounts);
    var n :| n in kept && Subsumes(n, w);
    WinnerIsLast(kept, w.dst, n);
    var k := Winner(kept, w.dst).value;
    forall m | m in kept && m.dst <= p && m != k ensures CompareMounts(m, k) < 0 {
      WinnerIsDeepest(Unminimized(mounts), p, m);
      WinnerIsLast(kept, w.dst, m);
    }
    WinnerUnique(kept, p, k);
  }

  lemma KeptStays(mounts: seq<Mount>, p: Path, w: Mount)
    requires Winner(Unminimized(mounts), p) == Some(w) && w in Finalize(mounts)
    ensures Winner(Finalize(mounts), p) == Some(w)
  {
    FinalizeKeeps(mounts);
    forall m | m in Finalize(mounts) && m.dst <= p && m != w ensures CompareMounts(m, w) < 0 {
      WinnerIsLast(Unminimized(mounts), p, m);
    }
    WinnerUnique(Finalize(mounts), p, w);
  }

  /** Two mounts above `p` resolve it alike exactly when the upper one covers the lower one. */
  lemma ResolvesAlike(k: Mount, w: Mount, p: Path)
    requires k.dst <= w.dst <= p
    ensures (k.src + p[|k.dst|..], k.Opt()) == (w.src + p[|w.dst|..], w.Opt()) <==> Covers(k, w)
  {
    var q, mid := p[|w.dst|..], w.dst[|k.dst|..];
    assert p[|k.dst|..] == mid + q;
    assert k.src + p[|k.dst|..] == (k.src + mid) + q;
    if (k.src + mid) + q == w.src + q {
      assert |k.src + mid| == |w.src|;
      assert k.src + mid == ((k.src + mid) + q)[..|w.src|];
      assert w.src == (w.src + q)[..|w.src|];
    }
  }

  ghost predicate SameEverywhere(mounts: seq<Mount>) {
    forall p :: Resolve(Finalize(mounts), p) == Resolve(Unminimized(mounts), p)
  }

  /** Each dropped mount that wins at its destination is covered by the kept winner there. */
  ghost predicate WinnersCover(mounts: seq<Mount>) {
    forall w :: w in mounts && w !in Finalize(mounts) && Winner(Unminimized(mounts), w.dst) == Some(w) ==>
      Winner(Finalize(mounts), w.dst).Some? && Covers(Winner(Finalize(mounts), w.dst).value, w)
  }

  lemma SameByWinners(mounts: seq<Mount>)
    ensures SameEverywhere(mounts) <==> WinnersCover(mounts)
  {
    FinalizeKeeps(mounts);
    var all, kept := Unminimized(mounts), Finalize(mounts);
    if WinnersCover(mounts) {
      forall p ensures Resolve(kept, p) == Resolve(all, p) {
        PathSame(mounts, p);
      }
    }
    if SameEverywhere(mounts) {
      forall w | w in mounts && w !in kept && Winner(all, w.dst) == Some(w)
        ensures Winner(kept, w.dst).Some? && Covers(Winner(kept, w.dst).value, w)
      {
        KeptWinner(mounts, w.dst, w);
        assert Resolve(kept, w.dst) == Resolve(all, w.dst);
        ResolvesAlike(Winner(kept, w.dst).value, w, w.dst);
      }
    }
  }

  lemma PathSame(mounts: seq<Mount>, p: Path)
    requires WinnersCover(mounts)
    ensures Resolve(Finalize(mounts), p) == Resolve(Unminimized(mounts), p)
  {
    FinalizeKeeps(mounts);
    var all, kept := Unminimized(mounts), Finalize(mounts);
    match Winner(all, p)
    case None =>
      assert forall m :: m in kept ==> m in all;
    case Some(w) =>
      if w in kept {
        KeptStays(mounts, p, w);
      } else {
        KeptWinner(mounts, p, w);
        WinsAtOwn(all, p);
        ResolvesAlike(Winner(kept, w.dst).value, w, p);
      }
  }

  // ----- The same condition, on the list that is passed in

  ghost predicate Subsumed(mounts: seq<Mount>, m: Mount) {
    exists n :: n in mounts && Subsumes(n, m)
  }

  /** `w` is the last in key order of the mounts with its destination. */
  ghost predicate LastAtOwn(mounts: seq<Mount>, w: Mount) {
    w in mounts && forall m :: m in mounts && m.dst == w.dst && m != w ==> CompareMounts(m, w) < 0
  }

  /** `k` is the last in key order of the mounts at or above `p` that no mount subsumes. */
  ghost predicate LastKept(mounts: seq<Mount>, p: Path, k: Mount) {
    && k in mounts && !Subsumed(mounts, k) && k.dst <= p
    && forall m :: m in mounts && !Subsumed(mounts, m) && m.dst <= p && m != k ==> CompareMounts(m, k) < 0
  }

  /** A check over pairs of given mounts: what is last at its destination but subsumed is covered. */
  ghost predicate DropsAreCovered(mounts: seq<Mount>) {
    forall w, k :: Subsumed(mounts, w) && LastAtOwn(mounts, w) && LastKept(mounts, w.dst, k) ==> Covers(k, w)
  }

  lemma WinsIfLastAtOwn(mounts: seq<Mount>, w: Mount)
    requires w in mounts
    ensures Winner(Unminimized(mounts), w.dst) == Some(w) <==> LastAtOwn(mounts, w)
  {
    hide Unminimized, Winner, CompareMounts;
    FinalizeKeeps(mounts);
    var all := Unminimized(mounts);
    forall m | m in mounts && m.dst <= w.dst && m.dst != w.dst ensures CompareMounts(m, w) < 0 {
      DeeperIsLater(m, w);
    }
    if LastAtOwn(mounts, w) {
      WinnerUnique(all, w.dst, w);
    }
    if Winner(all, w.dst) == Some(w) {
      forall m | m in mounts && m.dst == w.dst && m != w ensures CompareMounts(m, w) < 0 {
        WinnerIsLast(all, w.dst, m);
      }
    }
  }

  lemma WinsIfLastKept(mounts: seq<Mount>, p: Path, k: Mount)
    ensures Winner(Finalize(mounts), p) == Some(k) <==> LastKept(mounts, p, k)
  {
    hide Finalize, CompareMounts, Winner;
    FinalizeKeeps(mounts);
    var kept := Finalize(mounts);
    assert forall m :: m in kept <==> m in mounts && !Subsumed(mounts, m);
    if LastKept(mounts, p, k) {
      WinnerUnique(kept, p, k);
    }
    if Winner(kept, p) == Some(k) {
      forall m | m in kept && m.dst <= p && m != k ensures CompareMounts(m, k) < 0 {
        WinnerIsLast(kept, p, m);
      }
    }
  }

  /**
   Dropping mounts leaves every sandbox path as it was exactly when, in the list passed in,
   each mount that is last at its destination but subsumed is covered by the last of the
   others above it.
   */
  lemma SameExactly(mounts: seq<Mount>)
    ensures SameEverywhere(mounts) <==> DropsAreCovered(mounts)
  {
    hide SameEverywhere, Finalize, Unminimized, Winner, LastAtOwn, LastKept, Covers;
    SameByWinners(mounts);
    FinalizeKeeps(mounts);
    var all, kept := Unminimized(mounts), Finalize(mounts);
    forall w | w in mounts ensures Winner(all, w.dst) == Some(w) <==> LastAtOwn(mounts, w) {
      WinsIfLastAtOwn(mounts, w);
    }
    if WinnersCover(mounts) {
      forall w, k | Subsumed(mounts, w) && LastAtOwn(mounts, w) && LastKept(mounts, w.dst, k) ensures Covers(k, w) {
        LastAtOwnIsGiven(mounts, w);
        WinsIfLastKept(mounts, w.dst, k);
      }
    }
    if DropsAreCovered(mounts) {
      forall w | w in mounts && w !in kept && Winner(all, w.dst) == Some(w)
        ensures Winner(kept, w.dst).Some? && Covers(Winner(kept, w.dst).value, w)
      {
        KeptWinner(mounts, w.dst, w);
        WinsIfLastKept(mounts, w.dst, Winner(kept, w.dst).value);
      }
    }
  }

  lemma LastAtOwnIsGiven(mounts: seq<Mount>, w: Mount)
    requires LastAtOwn(mounts, w)
    ensures w in mounts
  {
  }

  /** Enough: at each dropped destination the last kept mount subsumes the dropped one. */
  lemma SameIfWinnersSubsume(mounts: seq<Mount>)
    requires forall w, k :: w in mounts && Subsumed(mounts, w) && LastKept(mounts, w.dst, k) ==> Subsumes(k, w)
    ensures SameEverywhere(mounts)
  {
    hide SameEverywhere;
    forall w, k | w in mounts && Subsumed(mounts, w) && LastKept(mounts, w.dst, k) ensures Covers(k, w) {
      SubsumesCovers(k, w);
    }
    SameExactly(mounts);
  }

  /**
   The check can fail: a nested mount that repeats its grandparent is dropped although
   another mount in between hides the grandparent there.
   */
  lemma HiddenDrop(outer: Mount, between: Mount, inner: Mount)
    requires outer.dst < between.dst < inner.dst
    requires Subsumes(outer, inner) && !Subsumes(outer, between) && !Covers(between, inner)
    ensures
      var mounts := [outer, between, inner];
      && Winner(Unminimized(mounts), inner.dst) == Some(inner)
      && Winner(Finalize(mounts), inner.dst) == Some(between)
      && !SameEverywhere(mounts)
  {
    hide Finalize, Unminimized, CompareMounts, Winner, SameEverywhere;
    var mounts := [outer, between, inner];
    FinalizeKeeps(mounts);
    assert outer in mounts && between in mounts && inner in mounts;
    DeeperIsLater(outer, between);
    DeeperIsLater(outer, inner);
    DeeperIsLater(between, inner);
    assert !Subsumes(inner, between);
    WinnerUnique(Unminimized(mounts), inner.dst, inner);
    WinnerUnique(Finalize(mounts), inner.dst, between);
    SameByWinners(mounts);
  }

  lemma DeeperIsLater(m: Mount, n: Mount)
    requires m.dst < n.dst
    ensures CompareMounts(m, n) == -1
  {
    PrefixFirst(m.dst, n.dst);
  }

  lemma DroppingCanChangeAPath()
    ensures exists mounts :: !SameEverywhere(mounts)
  {
    hide SameEverywhere;
    var outer := Mount(["a"], ["x"], false, false, true);
    var between := Mount(["b"], ["x", "y"], false, false, true);
    var inner := Mount(["a", "y", "z"], ["x", "y", "z"], false, false, true);
    assert inner.src[1..] == inner.dst[1..];
    assert (between.src + inner.dst[2..])[0] == "b";
    HiddenDrop(outer, between, inner);
  }
}
