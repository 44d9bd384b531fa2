/**
 Passing file descriptors to a child in `spawn`: the relocation loop that runs in the
 child before it executes the command, and the place chosen for the pid pipe. A process's
 descriptor table is a map from numbers to open files.
 */
module FdTable {
  import opened Basics

  /** An open file description. */
  datatype File = File(id: nat)

  type Table = map<nat, File>

  /** `SD_LISTEN_FDS_START`. */
  const START: nat := 3

  /** The descriptors at or above `k` that are open. */
  function OpenFrom(t: Table, k: nat): set<nat> {
    set fd | fd in t && fd >= k
  }

  /** The lowest free number at or above `k`, which `F_DUPFD` picks. */
  function LowestFree(t: Table, k: nat): (r: nat)
    ensures r >= k && r !in t
    ensures forall fd :: k <= fd < r ==> fd in t
    decreases |OpenFrom(t, k)|
  {
    if k !in t then k
    else
      assert OpenFrom(t, k + 1) == OpenFrom(t, k) - {k};
      LowestFree(t, k + 1)
  }

  function Close(t: Table, fd: nat): Table {
    t - {fd}
  }

  /** One round of the loop: close the wanted number, duplicate into it. `None` is `EBADF`. */
  function Move(t: Table, fd: nat, slot: nat): Option<Table> {
    if fd == slot then Some(t)
    else
      var t' := Close(t, slot);
      if fd !in t' then None else Some(t'[LowestFree(t', slot) := t'[fd]])
  }

  function Relocate(t: Table, fds: seq<nat>, i: nat): Option<Table>
    requires i <= |fds|
    decreases |fds| - i
  {
    if i == |fds| then Some(t)
    else
      match Move(t, fds[i], START + i)
      case None => None
      case Some(t') => Relocate(t', fds, i + 1)
  }

  /** `None` for a raised error; the assertion on the new number is part of the contract. */
  method RelocateFds(t: Table, fds: seq<nat>) returns (r: Option<Table>)
    ensures r == Relocate(t, fds, 0)
  {
    var table := t;
    for i := 0 to |fds|
      invariant Relocate(table, fds, i) == Relocate(t, fds, 0)
    {
      if fds[i] != START + i {
        table := Close(table, START + i);
        if fds[i] !in table {
          return None;
        }
        var nfd := LowestFree(table, START + i);
        assert nfd == START + i;
        table := table[nfd := table[fds[i]]];
      }
    }
    return Some(table);
  }

  // ----- When it is right

  /** `assert sorted(set(pass_fds)) == list(pass_fds)`. */
  ghost predicate Increasing(fds: seq<nat>) {
    forall i, j :: 0 <= i < j < |fds| ==> fds[i] < fds[j]
  }

  ghost predicate AllOpen(t: Table, fds: seq<nat>) {
    forall i :: 0 <= i < |fds| ==> fds[i] in t
  }

  /** Every passed descriptor refers to a file of its own. */
  ghost predicate DistinctFiles(t: Table, fds: seq<nat>)
    requires AllOpen(t, fds)
  {
    forall i, j :: 0 <= i < j < |fds| ==> t[fds[i]] != t[fds[j]]
  }

  /** Each number from 3 on holds the file of the corresponding descriptor. */
  ghost predicate Placed(t: Table, fds: seq<nat>, r: Table)
    requires AllOpen(t, fds)
  {
    forall i :: 0 <= i < |fds| ==> Holds(r, START + i, t[fds[i]])
  }

  ghost predicate Holds(t: Table, fd: nat, file: File) {
    fd in t && t[fd] == file
  }

  /** A round closes a descriptor that a later round still has to move. */
  ghost predicate Clobbers(fds: seq<nat>) {
    exists i, j :: 0 <= i < j < |fds| && fds[i] != START + i && fds[j] == START + i
  }

  /** A round closes a descriptor still to be moved and puts a different file in its place. */
  ghost predicate Loses(t: Table, fds: seq<nat>)
    requires AllOpen(t, fds)
  {
    exists i, j :: 0 <= i < j < |fds| && fds[j] == START + i && t[fds[i]] != t[fds[j]]
  }

  lemma MoveIs(t: Table, fd: nat, slot: nat)
    requires fd in t
    ensures Move(t, fd, slot) == Some(t[slot := t[fd]])
  {
    if fd != slot {
      assert Close(t, slot)[slot := t[fd]] == t[slot := t[fd]];
    } else {
      assert t[slot := t[fd]] == t;
    }
  }

  /** What the rounds from `i` on leave: later numbers filled, everything else as it was. */
  lemma {:induction false} RelocateFrom(t: Table, fds: seq<nat>, i: nat)
    requires i <= |fds| && AllOpen(t, fds)
    ensures Relocate(t, fds, i).Some?
    ensures
      var r := Relocate(t, fds, i).value;
      && (forall fd :: fd in t ==> fd in r)
      && (forall fd :: fd in t && !(START + i <= fd < START + |fds|) ==> r[fd] == t[fd])
    decreases |fds| - i
  {
    if i == |fds| {
    } else {
      MoveIs(t, fds[i], START + i);
      RelocateFrom(t[START + i := t[fds[i]]], fds, i + 1);
    }
  }

  /** The table before round `i`. */
  ghost function Before(t: Table, fds: seq<nat>, i: nat): (r: Table)
    requires i <= |fds| && AllOpen(t, fds)
    ensures AllOpen(r, fds) && Relocate(r, fds, i) == Relocate(t, fds, 0)
  {
    if i == 0 then t
    else
      var r := Before(t, fds, i - 1);
      MoveIs(r, fds[i - 1], START + (i - 1));
      r[START + (i - 1) := r[fds[i - 1]]]
  }

  lemma {:induction false} BeforeKeeps(t: Table, fds: seq<nat>, i: nat, j: nat)
    requires i < j <= |fds| && AllOpen(t, fds)
    ensures START + i in Before(t, fds, j) && Before(t, fds, j)[START + i] == Before(t, fds, i)[fds[i]]
    decreases j
  {
    if i == j - 1 {
    } else {
      BeforeKeeps(t, fds, i, j - 1);
    }
  }

  /** Unless a file is lost, a descriptor still to be moved has its own file. */
  lemma {:induction false} BeforePending(t: Table, fds: seq<nat>, i: nat, j: nat)
    requires i <= j < |fds| && AllOpen(t, fds) && !Loses(t, fds)
    ensures Before(t, fds, i)[fds[j]] == t[fds[j]]
    decreases i
  {
    if i == 0 {
    } else {
      BeforePending(t, fds, i - 1, j);
      BeforePending(t, fds, i - 1, i - 1);
      assert fds[j] == START + (i - 1) ==> t[fds[i - 1]] == t[fds[j]];
    }
  }

  /** A closed descriptor's number already holds an earlier file, which is then passed twice. */
  lemma PassedTwice(t: Table, fds: seq<nat>, i: nat, j: nat)
    requires AllOpen(t, fds) && i < j < |fds| && fds[j] == START + i
    ensures
      var r := Before(t, fds, |fds|);
      START + i in r && START + j in r && r[START + i] == r[START + j]
  {
    BeforeKeeps(t, fds, i, j);
    BeforeKeeps(t, fds, i, |fds|);
    BeforeKeeps(t, fds, j, |fds|);
  }

  /**
   The loop hands every file to its number exactly when no round replaces the file of a
   descriptor that is still to be moved. The descriptors may share files, in any order.
   */
  lemma PlacedExactly(t: Table, fds: seq<nat>)
    requires AllOpen(t, fds)
    ensures Relocate(t, fds, 0).Some?
    ensures Placed(t, fds, Relocate(t, fds, 0).value) <==> !Loses(t, fds)
  {
    var r := Before(t, fds, |fds|);
    assert Relocate(r, fds, |fds|) == Some(r);
    if Loses(t, fds) {
      var i, j :| 0 <= i < j < |fds| && fds[j] == START + i && t[fds[i]] != t[fds[j]];
      PassedTwice(t, fds, i, j);
      assert !(Holds(r, START + i, t[fds[i]]) && Holds(r, START + j, t[fds[j]]));
    } else {
      forall k | 0 <= k < |fds| ensures Holds(r, START + k, t[fds[k]]) {
        BeforeKeeps(t, fds, k, |fds|);
        BeforePending(t, fds, k, k);
      }
    }
  }

  /** Where every descriptor has a file of its own, the numbers alone decide. */
  lemma DistinctPlacedExactly(t: Table, fds: seq<nat>)
    requires AllOpen(t, fds) && DistinctFiles(t, fds)
    ensures Relocate(t, fds, 0).Some?
    ensures Placed(t, fds, Relocate(t, fds, 0).value) <==> !Clobbers(fds)
  {
    PlacedExactly(t, fds);
    if Clobbers(fds) {
      var i, j :| 0 <= i < j < |fds| && fds[i] != START + i && fds[j] == START + i;
      assert t[fds[i]] != t[fds[j]];
    }
  }

  // ----- When it raises

  /** Round `j` finds its descriptor closed: it was not open, and no round from `i` on opened it. */
  ghost predicate Missing(t: Table, fds: seq<nat>, i: nat, j: int) {
    i <= j < |fds| && fds[j] !in t && !(START + i <= fds[j] <= START + j)
  }

  lemma {:induction false} RaisesFrom(t: Table, fds: seq<nat>, i: nat)
    requires Increasing(fds) && i <= |fds|
    ensures Relocate(t, fds, i).None? <==> exists j :: Missing(t, fds, i, j)
    decreases |fds| - i
  {
    if i == |fds| {
    } else if fds[i] != START + i && fds[i] !in t {
      assert Missing(t, fds, i, i);
    } else {
      var t' := if fds[i] == START + i then t else t[START + i := t[fds[i]]];
      if fds[i] != START + i {
        MoveIs(t, fds[i], START + i);
      }
      RaisesFrom(t', fds, i + 1);
      if Relocate(t', fds, i + 1).None? {
        var j :| Missing(t', fds, i + 1, j);
        SameMissing(t, t', fds, i, j);
      } else if j :| Missing(t, fds, i, j) {
        SameMissing(t, t', fds, i, j);
      }
    }
  }

  lemma SameMissing(t: Table, t': Table, fds: seq<nat>, i: nat, j: int)
    requires Increasing(fds) && i < |fds|
    requires fds[i] == START + i || fds[i] in t
    requires t'.Keys == if fds[i] == START + i then t.Keys else t.Keys + {START + i}
    ensures Missing(t', fds, i + 1, j) <==> Missing(t, fds, i, j)
  {
    if i < j < |fds| {
      assert fds[i] < fds[j];
    }
  }

  /** An error is raised exactly for a descriptor that is neither open nor a number filled by then. */
  lemma RaisesExactly(t: Table, fds: seq<nat>)
    requires Increasing(fds)
    ensures Relocate(t, fds, 0).None? <==> exists j :: Missing(t, fds, 0, j)
  {
    RaisesFrom(t, fds, 0);
  }

  lemma {:induction false} AtLeast(fds: seq<nat>, i: nat)
    requires Increasing(fds) && i < |fds| && fds[0] >= START
    ensures fds[i] >= START + i
    decreases i
  {
    if i == 0 {
    } else {
      AtLeast(fds, i - 1);
    }
  }

  /** Descriptors that are all at least 3 are never clobbered. */
  lemma NoClobberFromThree(fds: seq<nat>)
    requires Increasing(fds) && forall i :: 0 <= i < |fds| ==> fds[i] >= START
    ensures !Clobbers(fds)
  {
    forall i, j | 0 <= i < j < |fds| && fds[i] != START + i ensures fds[j] != START + i {
      AtLeast(fds, i);
    }
  }

  /** So their files arrive, shared or not. */
  lemma PlacedFromThree(t: Table, fds: seq<nat>)
    requires Increasing(fds) && AllOpen(t, fds) && forall i :: 0 <= i < |fds| ==> fds[i] >= START
    ensures Relocate(t, fds, 0).Some? && Placed(t, fds, Relocate(t, fds, 0).value)
  {
    NoClobberFromThree(fds);
    PlacedExactly(t, fds);
  }

  /** Standard input passed along with number 3: that is closed before it is moved, and lost. */
  lemma StandardInputClobbers(stdin: File, other: File)
    requires stdin != other
    ensures
      var t: Table := map[0 := stdin, 3 := other];
      Relocate(t, [0, 3], 0).Some? && !Placed(t, [0, 3], Relocate(t, [0, 3], 0).value)
  {
    var t: Table, fds: seq<nat> := map[0 := stdin, 3 := other], [0, 3];
    assert fds[0] != START + 0 && fds[1] == START + 0;
    PlacedExactly(t, fds);
  }

  // ----- The pid pipe

  /** The write end is duplicated above all numbers the loop will use, and the original closed. */
  function PlacePipe(t: Table, w: nat, n: nat): (r: (Table, nat))
    requires w in t
  {
    var q := LowestFree(t, START + n + 1);
    (Close(t[q := t[w]], w), q)
  }

  /** What the command sees: the standard streams, the passed numbers and the pipe. */
  function Inherited(t: Table, n: nat, q: nat): Table {
    map fd | fd in t && (fd < START + n || fd == q) :: t[fd]
  }

  /**
   The whole hand-over, for open descriptors in any order: the pipe's write end is found at
   its own number, the standard streams are untouched and nothing else is passed; the
   files are found at 3, 4, ... exactly when none is lost.
   */
  lemma ChildTable(t: Table, fds: seq<nat>, w: nat)
    requires w in t && w !in fds && AllOpen(t, fds)
    ensures
      var (t1, q) := PlacePipe(t, w, |fds|);
      && Relocate(t1, fds, 0).Some?
      && var r := Inherited(Relocate(t1, fds, 0).value, |fds|, q);
         && (Placed(t, fds, r) <==> !Loses(t, fds))
         && 3 + |fds| < q && (forall fd :: 3 + |fds| < fd < q ==> fd in t)
         && q in r && r[q] == t[w]
         && (forall fd :: 0 <= fd < START && fd in t && fd != w ==> fd in r && r[fd] == t[fd])
         && (forall fd :: fd in r ==> fd < START + |fds| || fd == q)
  {
    var (t1, q) := PlacePipe(t, w, |fds|);
    assert AllOpen(t1, fds);
    PlacedExactly(t1, fds);
    RelocateFrom(t1, fds, 0);
    SameFiles(t, t1, fds);
    var all := Relocate(t1, fds, 0).value;
    var r := Inherited(all, |fds|, q);
    forall k | 0 <= k < |fds| ensures Holds(r, START + k, t[fds[k]]) <==> Holds(all, START + k, t1[fds[k]]) {
    }
  }

  lemma SameFiles(t: Table, t1: Table, fds: seq<nat>)
    requires AllOpen(t, fds) && AllOpen(t1, fds) && forall i :: 0 <= i < |fds| ==> t1[fds[i]] == t[fds[i]]
    ensures Loses(t1, fds) <==> Loses(t, fds)
  {
  }
}
