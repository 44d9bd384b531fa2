/**
 `devices::Bus`: an interval map kept as an ordered map from range starts. The map is the
 sequence of its entries in key order; addresses are 64-bit and `base + len` wraps as in a
 release build.
 */
module Bus {
  import opened Basics

  datatype Slot<D> = Slot(base: Word, len: Word, device: D) {
    ghost predicate Holds(addr: int) { base <= addr < base + len }
  }

  ghost predicate Meets<D>(s: Slot<D>, base: int, len: int) {
    exists addr :: s.Holds(addr) && base <= addr < base + len
  }

  /** Entries in key order, non-empty, and no two with an address in common. */
  ghost predicate Disjoint<D>(slots: seq<Slot<D>>) {
    && (forall i :: 0 <= i < |slots| ==> slots[i].len > 0)
    && (forall i, j :: 0 <= i < j < |slots| ==> slots[i].base + slots[i].len <= slots[j].base)
  }

  /** No address of the new range belongs to a device. */
  ghost predicate Free<D>(slots: seq<Slot<D>>, base: int, len: int) {
    forall i :: 0 <= i < |slots| ==> !Meets(slots[i], base, len)
  }

  ghost predicate FreeAt<D>(slots: seq<Slot<D>>, addr: int) {
    forall i :: 0 <= i < |slots| ==> !slots[i].Holds(addr)
  }

  /** The map after a new key is entered at index `k`. */
  function EnterAt<D>(slots: seq<Slot<D>>, k: nat, s: Slot<D>): seq<Slot<D>>
    requires k <= |slots|
  {
    slots[..k] + [s] + slots[k..]
  }

  /** `s` was entered at index `k`, in key order and under a new key. */
  ghost predicate Entered<D>(slots: seq<Slot<D>>, k: int, s: Slot<D>, slots': seq<Slot<D>>) {
    && 0 <= k <= |slots| && slots' == EnterAt(slots, k, s)
    && forall i :: 0 <= i < |slots| ==> slots[i].base != s.base && (i < k <==> slots[i].base < s.base)
  }

  ghost predicate FoundAt<D>(s: Slot<D>, addr: int, r: (Word, D)) {
    s.Holds(addr) && r.0 == addr - s.base && r.1 == s.device
  }

  /** A range with no address in common fits between its neighbours. */
  lemma FreeFits<D>(slots: seq<Slot<D>>, k: nat, s: Slot<D>)
    requires Disjoint(slots) && k <= |slots| && s.len > 0 && Free(slots, s.base, s.len)
    requires forall i :: 0 <= i < |slots| ==> (i < k <==> slots[i].base < s.base)
    ensures Disjoint(EnterAt(slots, k, s))
  {
    var r := EnterAt(slots, k, s);
    forall i | 0 <= i < |slots| ensures i < k ==> slots[i].base + slots[i].len <= s.base
      ensures i >= k ==> s.base + s.len <= slots[i].base
    {
      var t := slots[i];
      assert !Meets(t, s.base, s.len);
      assert t.Holds(t.base);
      if i < k {
        assert !t.Holds(s.base);
      } else {
        assert s.base <= t.base;
      }
    }
    forall i, j | 0 <= i < j < |r| ensures r[i].base + r[i].len <= r[j].base {
      var i', j' := if i < k then i else i - 1, if j < k then j else j - 1;
      if i != k && j != k {
        assert slots[i'].base + slots[i'].len <= slots[j'].base;
      }
    }
  }

  class Bus<D> {
    var devices: seq<Slot<D>>

    constructor ()
      ensures devices == [] && Disjoint(devices)
    {
      devices := [];
    }

    /** The last entry that starts at or before the address. */
    method FirstBefore(addr: Word) returns (k: int)
      requires Disjoint(devices)
      ensures -1 <= k < |devices|
      ensures forall i :: 0 <= i < |devices| ==> (i <= k <==> devices[i].base <= addr)
    {
      k := |devices| - 1;
      while k >= 0
        invariant -1 <= k < |devices|
        invariant forall i :: k < i < |devices| ==> devices[i].base > addr
      {
        if devices[k].base <= addr {
          return;
        }
        k := k - 1;
      }
    }

    /** Finds the device whose range holds the address, as a search over all ranges would. */
    method GetDevice(addr: Word) returns (r: Option<(Word, D)>)
      requires Disjoint(devices)
      ensures r.None? <==> FreeAt(devices, addr)
      ensures r.Some? ==> exists i :: 0 <= i < |devices| && FoundAt(devices[i], addr, r.value)
    {
      var k := FirstBefore(addr);
      if k >= 0 {
        var offset := addr - devices[k].base;
        if offset < devices[k].len {
          assert FoundAt(devices[k], addr, (offset, devices[k].device));
          return Some((offset, devices[k].device));
        }
      }
      forall i | 0 <= i < |devices| ensures !devices[i].Holds(addr) {
        if i < k {
          assert devices[i].base + devices[i].len <= devices[k].base;
        }
      }
      return None;
    }

    /**
     Succeeds exactly when the range is non-empty and meets no device, provided it does not
     run past the end of the address space. One that does is accepted whenever its first
     address is free, so the ranges stay disjoint only if all addresses from there on are.
     A failure changes nothing; the key is never already present.
     */
    method Insert(device: D, base: Word, len: Word) returns (ok: bool)
      requires Disjoint(devices)
      modifies this
      ensures !ok ==> devices == old(devices)
      ensures ok ==> exists k :: Entered(old(devices), k, Slot(base, len, device), devices)
      ensures base + len <= WORD ==> (ok <==> len > 0 && Free(old(devices), base, len)) && Disjoint(devices)
      ensures base + len > WORD ==> (ok <==> FreeAt(old(devices), base))
      ensures base + len > WORD && ok ==> (Disjoint(devices) <==> Free(old(devices), base, WORD - base))
    {
      hide Disjoint, Free, FreeAt, Meets, EnterAt, Entered;
      if len == 0 {
        return false;
      }
      var there := GetDevice(base);
      if there.Some? {
        FirstAddressTaken(devices, base, len);
        return false;
      }
      var last := (base + len - 1) % WORD;
      var k := FirstBefore(last);
      if k >= 0 && devices[k].base >= base {
        LaterDeviceMeets(devices, k, base, len, last);
        return false;
      }
      var at := FirstBefore(base);
      ghost var before := devices;
      devices := EnterAt(devices, at + 1, Slot(base, len, device));
      Accepted(before, k, at, Slot(base, len, device));
      return true;
    }
  }

  lemma FirstAddressTaken<D>(slots: seq<Slot<D>>, base: Word, len: Word)
    requires len > 0 && !FreeAt(slots, base)
    ensures !Free(slots, base, len)
  {
  }

  /** What holds once both searches have found nothing in the way. */
  lemma Accepted<D>(slots: seq<Slot<D>>, k: int, at: int, s: Slot<D>)
    requires Disjoint(slots) && s.len > 0 && FreeAt(slots, s.base)
    requires -1 <= k < |slots| && -1 <= at < |slots|
    requires forall i :: 0 <= i < |slots| ==> (i <= k <==> slots[i].base <= (s.base + s.len - 1) % WORD)
    requires forall i :: 0 <= i < |slots| ==> (i <= at <==> slots[i].base <= s.base)
    requires k >= 0 ==> slots[k].base < s.base
    ensures Entered(slots, at + 1, s, EnterAt(slots, at + 1, s))
    ensures s.base + s.len <= WORD ==> Free(slots, s.base, s.len) && Disjoint(EnterAt(slots, at + 1, s))
    ensures s.base + s.len > WORD ==> (Disjoint(EnterAt(slots, at + 1, s)) <==> Free(slots, s.base, WORD - s.base))
  {
    // No entry starts at the new base: it would hold it.
    forall i | 0 <= i < |slots| ensures slots[i].base != s.base {
      assert !slots[i].Holds(s.base);
    }
    if s.base + s.len <= WORD {
      EarlierIsFree(slots, k, s.base, s.len);
      FreeFits(slots, at + 1, s);
    } else {
      WrappedDisjoint(slots, at + 1, s);
    }
  }

  lemma LaterDeviceMeets<D>(slots: seq<Slot<D>>, k: nat, base: Word, len: Word, last: Word)
    requires Disjoint(slots) && k < |slots| && len > 0 && last == (base + len - 1) % WORD
    requires base <= slots[k].base <= last
    ensures base + len <= WORD && !Free(slots, base, len)
  {
    assert slots[k].Holds(slots[k].base);
    assert Meets(slots[k], base, len);
  }

  lemma EarlierIsFree<D>(slots: seq<Slot<D>>, k: int, base: Word, len: Word)
    requires Disjoint(slots) && -1 <= k < |slots| && len > 0 && base + len <= WORD && FreeAt(slots, base)
    requires forall i :: 0 <= i < |slots| ==> (i <= k <==> slots[i].base <= base + len - 1)
    requires k >= 0 ==> slots[k].base < base
    ensures Free(slots, base, len)
  {
  }

  lemma WrappedDisjoint<D>(slots: seq<Slot<D>>, k: nat, s: Slot<D>)
    requires Disjoint(slots) && k <= |slots| && s.base + s.len > WORD && FreeAt(slots, s.base)
    requires forall i :: 0 <= i < |slots| ==> (i < k <==> slots[i].base < s.base)
    ensures Disjoint(EnterAt(slots, k, s)) <==> Free(slots, s.base, WORD - s.base)
  {
    var r := EnterAt(slots, k, s);
    if Free(slots, s.base, WORD - s.base) {
      forall i | 0 <= i < |slots| ensures !Meets(slots[i], s.base, s.len) {
        assert !Meets(slots[i], s.base, WORD - s.base);
        assert slots[i].Holds(slots[i].base);
        assert !slots[i].Holds(s.base);
      }
      FreeFits(slots, k, s);
    } else {
      var i :| 0 <= i < |slots| && Meets(slots[i], s.base, WORD - s.base);
      assert !slots[i].Holds(s.base);
      assert r[k] == s && r[i + 1] == slots[i];
    }
  }

  /** Such a range does occur: accepted, and sharing addresses with the device above it. */
  lemma WrappedRangeCanSwallow()
    ensures
      var above := Slot(0x10, 0x10, 0);
      FreeAt([above], 0x5) && !Disjoint(EnterAt([above], 0, Slot(0x5, 0xffff_ffff_ffff_ffff, 1)))
  {
    var above, s := Slot(0x10, 0x10, 0), Slot(0x5, 0xffff_ffff_ffff_ffff, 1);
    assert above.Holds(0x10);
    assert Meets(above, s.base, WORD - s.base);
    assert [above][0] == above;
    WrappedDisjoint([above], 0, s);
  }

  // ----- Every bus that inserts can reach

  datatype Request<D> = Request(device: D, base: Word, len: Word) {
    function ToSlot(): Slot<D> { Slot(base, len, device) }
  }

  /** A request is accepted exactly if it is not empty and meets no request accepted before it. */
  ghost predicate Greedy<D>(requests: seq<Request<D>>, accepted: seq<bool>, i: nat)
    requires i < |requests| && i < |accepted|
  {
    accepted[i] <==>
      && requests[i].len > 0
      && forall j :: 0 <= j < i && accepted[j] ==> !Meets(requests[j].ToSlot(), requests[i].base, requests[i].len)
  }

  /** The devices are those of the accepted requests. */
  ghost predicate HoldsAccepted<D>(devices: seq<Slot<D>>, requests: seq<Request<D>>, accepted: seq<bool>)
    requires |accepted| <= |requests|
  {
    && (forall i :: 0 <= i < |accepted| && accepted[i] ==> requests[i].ToSlot() in devices)
    && (forall s :: s in devices ==> exists i :: 0 <= i < |accepted| && accepted[i] && s == requests[i].ToSlot())
  }

  /**
   Ranges inserted one after the other into an empty bus never come to share an address.
   The bus holds exactly the accepted ones, and each answer is exact at its turn.
   */
  method InsertAll<D>(requests: seq<Request<D>>) returns (bus: Bus<D>, accepted: seq<bool>)
    requires forall i :: 0 <= i < |requests| ==> requests[i].base + requests[i].len <= WORD
    ensures fresh(bus) && Disjoint(bus.devices)
    ensures |accepted| == |requests|
    ensures HoldsAccepted(bus.devices, requests, accepted)
    ensures forall i :: 0 <= i < |requests| ==> Greedy(requests, accepted, i)
    ensures forall i :: 0 <= i < |requests| && !accepted[i] && requests[i].len > 0 ==>
              !Free(bus.devices, requests[i].base, requests[i].len)
  {
    hide Disjoint, Free, Meets;
    bus := new Bus<D>();
    accepted := [];
    for n := 0 to |requests|
      invariant fresh(bus) && Disjoint(bus.devices) && |accepted| == n
      invariant HoldsAccepted(bus.devices, requests, accepted)
      invariant forall i :: 0 <= i < n ==> Greedy(requests, accepted, i)
    {
      ghost var before := bus.devices;
      var ok := bus.Insert(requests[n].device, requests[n].base, requests[n].len);
      FreeOfAccepted(before, requests, accepted, requests[n].base, requests[n].len);
      if ok {
        ghost var k :| Entered(before, k, requests[n].ToSlot(), bus.devices);
        AcceptedEntered(before, k, requests, accepted, bus.devices);
      } else {
        RejectedKeeps(before, requests, accepted);
      }
      GreedyExtends(requests, accepted, ok);
      accepted := accepted + [ok];
    }
    forall i | 0 <= i < |requests| && !accepted[i] && requests[i].len > 0
      ensures !Free(bus.devices, requests[i].base, requests[i].len)
    {
      assert Greedy(requests, accepted, i);
      FreeOfAccepted(bus.devices, requests, accepted, requests[i].base, requests[i].len);
    }
  }

  lemma FreeOfAccepted<D>(devices: seq<Slot<D>>, requests: seq<Request<D>>, accepted: seq<bool>, base: int, len: int)
    requires |accepted| <= |requests| && HoldsAccepted(devices, requests, accepted)
    ensures Free(devices, base, len) <==>
            forall j :: 0 <= j < |accepted| && accepted[j] ==> !Meets(requests[j].ToSlot(), base, len)
  {
    hide Meets;
    forall i | 0 <= i < |devices|
      ensures exists j :: 0 <= j < |accepted| && accepted[j] && devices[i] == requests[j].ToSlot()
    {
      assert devices[i] in devices;
    }
  }

  lemma AcceptedEntered<D>(devices: seq<Slot<D>>, k: int, requests: seq<Request<D>>, accepted: seq<bool>,
                        devices': seq<Slot<D>>)
    requires |accepted| < |requests| && HoldsAccepted(devices, requests, accepted)
    requires Entered(devices, k, requests[|accepted|].ToSlot(), devices')
    ensures HoldsAccepted(devices', requests, accepted + [true])
  {
    var s, accepted' := requests[|accepted|].ToSlot(), accepted + [true];
    assert forall x :: x in devices' <==> x in devices || x == s;
    forall x | x in devices' ensures exists i :: 0 <= i < |accepted'| && accepted'[i] && x == requests[i].ToSlot() {
      if x in devices {
        var i :| 0 <= i < |accepted| && accepted[i] && x == requests[i].ToSlot();
        assert accepted'[i];
      } else {
        assert accepted'[|accepted|];
      }
    }
  }

  lemma RejectedKeeps<D>(devices: seq<Slot<D>>, requests: seq<Request<D>>, accepted: seq<bool>)
    requires |accepted| < |requests| && HoldsAccepted(devices, requests, accepted)
    ensures HoldsAccepted(devices, requests, accepted + [false])
  {
    var accepted' := accepted + [false];
    forall x | x in devices ensures exists i :: 0 <= i < |accepted'| && accepted'[i] && x == requests[i].ToSlot() {
      var i :| 0 <= i < |accepted| && accepted[i] && x == requests[i].ToSlot();
      assert accepted'[i];
    }
  }

  lemma GreedyExtends<D>(requests: seq<Request<D>>, accepted: seq<bool>, ok: bool)
    requires |accepted| <= |requests| && forall i :: 0 <= i < |accepted| ==> Greedy(requests, accepted, i)
    ensures forall i :: 0 <= i < |accepted| ==> Greedy(requests, accepted + [ok], i)
  {
    hide Meets;
    forall i | 0 <= i < |accepted| ensures Greedy(requests, accepted + [ok], i) {
      assert Greedy(requests, accepted, i);
    }
  }
}
