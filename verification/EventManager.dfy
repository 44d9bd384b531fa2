/**
 `polly::EventManager`: the table of subscribers beside the kernel's interest set, and the
 dispatch loop whose callbacks change the table while it runs. The kernel may refuse any
 control call (`granted` is its answer), and refuses to add what is there or delete what
 is not.
 */
module EventManager {

  type Fd = int

  /** A subscriber, by identity. */
  type Subscriber = nat

  datatype Event = Event(fd: Fd, mask: nat)

  datatype Result = Ok | AlreadyExists | NotFound | PollError | Panicked

  datatype State = State(subscribers: map<Fd, Subscriber>, interest: set<Fd>)

  /** The calls a callback or another client can make. */
  datatype Op =
    | Register(fd: Fd, subscriber: Subscriber, granted: bool)
    | Unregister(fd: Fd, granted: bool)
    | Modify(fd: Fd, granted: bool)
    | IsPollable(fd: Fd, granted: bool, deleted: bool)

  function Apply(s: State, op: Op): (State, Result) {
    match op
    case Register(fd, subscriber, granted) =>
      if fd in s.subscribers then (s, AlreadyExists)
      else if !granted || fd in s.interest then (s, PollError)
      else (State(s.subscribers[fd := subscriber], s.interest + {fd}), Ok)
    case Unregister(fd, granted) =>
      if fd !in s.subscribers then (s, NotFound)
      else if !granted || fd !in s.interest then (State(s.subscribers - {fd}, s.interest), PollError)
      else (State(s.subscribers - {fd}, s.interest - {fd}), Ok)
    case Modify(fd, granted) =>
      if fd !in s.subscribers then (s, NotFound)
      else if !granted || fd !in s.interest then (s, PollError)
      else (s, Ok)
    case IsPollable(fd, granted, deleted) =>
      if !granted || fd in s.interest then (s, PollError)
      else if !deleted then (s.(interest := s.interest + {fd}), Panicked)
      else (s, Ok)
  }

  function ApplyAll(s: State, ops: seq<Op>): State
    decreases |ops|
  {
    if ops == [] then s else ApplyAll(Apply(s, ops[0]).0, ops[1..])
  }

  // ----- What every sequence of calls keeps

  const FRESH := State(map[], {})

  /** What one call leaves in the interest set because the kernel refuses its delete. */
  ghost function Leak(s: State, op: Op): set<Fd> {
    if op.Unregister? && op.fd in s.subscribers && !op.granted then {op.fd}
    else if op.IsPollable? && op.fd !in s.interest && op.granted && !op.deleted then {op.fd}
    else {}
  }

  /** The descriptors whose removal the kernel refused, along a sequence of calls. */
  ghost function Leaked(s: State, ops: seq<Op>): set<Fd>
    decreases |ops|
  {
    if ops == [] then {} else Leak(s, ops[0]) + Leaked(Apply(s, ops[0]).0, ops[1..])
  }

  /** The interest set is the subscribed descriptors and the leaked ones, and these are apart. */
  ghost predicate Accounted(s: State, leaked: set<Fd>) {
    s.interest == s.subscribers.Keys + leaked && s.subscribers.Keys !! leaked
  }

  lemma {:induction false} ApplyAccounts(s: State, leaked: set<Fd>, ops: seq<Op>)
    requires Accounted(s, leaked)
    ensures Accounted(ApplyAll(s, ops), leaked + Leaked(s, ops))
    decreases |ops|
  {
    if ops == [] {
      assert leaked + {} == leaked;
    } else {
      var op := ops[0];
      StepAccounts(s, leaked, op);
      ApplyAccounts(Apply(s, op).0, leaked + Leak(s, op), ops[1..]);
      assert leaked + Leak(s, op) + Leaked(Apply(s, op).0, ops[1..]) == leaked + Leaked(s, ops);
    }
  }

  lemma StepAccounts(s: State, leaked: set<Fd>, op: Op)
    requires Accounted(s, leaked)
    ensures Accounted(Apply(s, op).0, leaked + Leak(s, op))
  {
  }

  /**
   Whatever is called and whatever the kernel refuses: every subscribed descriptor is in
   the interest set, and what is there beyond them is exactly what refused deletes left.
   */
  lemma InterestIsAccounted(ops: seq<Op>)
    ensures
      var s, leaked := ApplyAll(FRESH, ops), Leaked(FRESH, ops);
      s.subscribers.Keys <= s.interest && s.interest - s.subscribers.Keys == leaked
  {
    ApplyAccounts(FRESH, {}, ops);
    assert {} + Leaked(FRESH, ops) == Leaked(FRESH, ops);
  }

  /**
   After any calls, a descriptor that has no subscriber can be registered, with a willing
   kernel, exactly if no refused delete left it behind.
   */
  lemma RegistersExactly(ops: seq<Op>, fd: Fd, subscriber: Subscriber)
    ensures
      var s := ApplyAll(FRESH, ops);
      Apply(s, Register(fd, subscriber, true)).1 == Ok <==> fd !in s.subscribers && fd !in Leaked(FRESH, ops)
  {
    InterestIsAccounted(ops);
  }

  /** The answers to the other calls, after any calls before them. */
  lemma AnswersExactly(ops: seq<Op>, fd: Fd, granted: bool, deleted: bool)
    ensures
      var s, leaked := ApplyAll(FRESH, ops), Leaked(FRESH, ops);
      var removed, modified := Apply(s, Unregister(fd, granted)).1, Apply(s, Modify(fd, granted)).1;
      var pollable, free := Apply(s, IsPollable(fd, granted, deleted)).1, fd !in s.subscribers && fd !in leaked;
      && removed == modified == (if fd !in s.subscribers then NotFound else if granted then Ok else PollError)
      && (pollable == PollError <==> !granted || !free)
      && (pollable == Panicked <==> granted && free && !deleted)
      && (pollable == Ok <==> granted && free && deleted)
  {
    InterestIsAccounted(ops);
  }

  /** Call `i` registers the descriptor, and no later call takes it away. */
  ghost predicate RegisteredAt(ops: seq<Op>, fd: Fd, subscriber: Subscriber, i: int) {
    && 0 <= i < |ops| && ops[i].Register? && ops[i].fd == fd && ops[i].subscriber == subscriber
    && Apply(ApplyAll(FRESH, ops[..i]), ops[i]).1 == Ok
    && Stays(ops, fd, i)
  }

  ghost predicate Stays(ops: seq<Op>, fd: Fd, i: int)
    requires 0 <= i < |ops|
  {
    forall j :: i < j < |ops| ==> !Takes(ops[j], fd)
  }

  ghost predicate Takes(op: Op, fd: Fd) {
    op.Unregister? && op.fd == fd
  }

  lemma StaysExtends(front: seq<Op>, op: Op, fd: Fd, i: nat)
    requires i < |front|
    ensures Stays(front + [op], fd, i) <==> Stays(front, fd, i) && !Takes(op, fd)
  {
    var ops := front + [op];
    assert ops[|front|] == op && ops[..|front|] == front;
    if Stays(ops, fd, i) {
      forall j | i < j < |front| ensures !Takes(front[j], fd) {
        assert front[j] == ops[j];
      }
    }
  }

  /** What one more call does to these registrations. */
  lemma RegisteredExtends(front: seq<Op>, op: Op, fd: Fd, subscriber: Subscriber, i: int)
    ensures i < |front| ==>
              (RegisteredAt(front + [op], fd, subscriber, i) <==>
               RegisteredAt(front, fd, subscriber, i) && !Takes(op, fd))
    ensures i == |front| ==>
              (RegisteredAt(front + [op], fd, subscriber, i) <==>
               op.Register? && op.fd == fd && op.subscriber == subscriber && Apply(ApplyAll(FRESH, front), op).1 == Ok)
  {
    hide ApplyAll, Apply, Takes;
    var ops := front + [op];
    if 0 <= i < |front| {
      hide Stays;
      StaysExtends(front, op, fd, i);
      assert ops[..i] == front[..i] && ops[i] == front[i];
    } else if i == |front| {
      assert ops[..i] == front;
    }
  }

  /** Who is subscribed: whoever registered last, unless unregistered since, with or without success. */
  lemma {:induction false} SubscribedExactly(ops: seq<Op>, fd: Fd, subscriber: Subscriber)
    ensures
      var s := ApplyAll(FRESH, ops);
      fd in s.subscribers && s.subscribers[fd] == subscriber <==> exists i :: RegisteredAt(ops, fd, subscriber, i)
    decreases |ops|
  {
    if ops == [] {
    } else {
      hide ApplyAll, RegisteredAt;
      var n := |ops| - 1;
      var front, op := ops[..n], ops[n];
      assert ops == front + [op];
      ApplyLast(FRESH, front, op);
      SubscribedExactly(front, fd, subscriber);
      RegisteredExtends(front, op, fd, subscriber, n);
      if i :| RegisteredAt(front, fd, subscriber, i) {
        RegisteredInside(front, fd, subscriber, i);
        RegisteredExtends(front, op, fd, subscriber, i);
      }
      if i :| RegisteredAt(ops, fd, subscriber, i) {
        RegisteredInside(ops, fd, subscriber, i);
        RegisteredExtends(front, op, fd, subscriber, i);
      }
    }
  }

  lemma RegisteredInside(ops: seq<Op>, fd: Fd, subscriber: Subscriber, i: int)
    requires RegisteredAt(ops, fd, subscriber, i)
    ensures 0 <= i < |ops|
  {
  }

  /** One refused delete is enough. */
  lemma DeleteCanLeak()
    ensures
      var ops := [Register(5, 1, true), Unregister(5, false)];
      var s := ApplyAll(FRESH, ops);
      5 !in s.subscribers && Apply(s, Register(5, 1, true)).1 == PollError
  {
    var ops := [Register(5, 1, true), Unregister(5, false)];
    assert ops[1..] == [ops[1]] && ops[1..][1..] == [];
  }

  /** A leaked descriptor can never be registered again. */
  lemma {:induction false} LeakIsForEver(s: State, fd: Fd, ops: seq<Op>)
    requires fd in s.interest && fd !in s.subscribers
    ensures fd in ApplyAll(s, ops).interest && fd !in ApplyAll(s, ops).subscribers
    ensures forall sub, granted :: Apply(ApplyAll(s, ops), Register(fd, sub, granted)).1 == PollError
    decreases |ops|
  {
    if ops == [] {
    } else {
      LeakIsForEver(Apply(s, ops[0]).0, fd, ops[1..]);
    }
  }

  // ----- Dispatch

  /** How a callback reacts: any calls, depending on anything it can see. */
  type Reaction = (nat, Subscriber, Event, State) -> seq<Op>

  datatype Delivery = Delivery(turn: nat, subscriber: Subscriber, event: Event)

  /** The state in which the event with index `n` gets its turn. */
  ghost function AtTurn(s: State, ready: seq<Event>, react: Reaction, n: nat): State
    requires n <= |ready|
  {
    if n == 0 then s
    else
      var before := AtTurn(s, ready, react, n - 1);
      var e := ready[n - 1];
      if e.fd in before.subscribers then ApplyAll(before, react(n - 1, before.subscribers[e.fd], e, before)) else before
  }

  /** A delivery is right: made at its turn to the subscriber its descriptor then had. */
  ghost predicate Right(s: State, ready: seq<Event>, react: Reaction, d: Delivery) {
    && d.turn < |ready| && d.event == ready[d.turn]
    && var before := AtTurn(s, ready, react, d.turn);
       d.event.fd in before.subscribers && before.subscribers[d.event.fd] == d.subscriber
  }

  /** Dispatching keeps the account, too. */
  lemma {:induction false} DispatchAccounts(s: State, leaked: set<Fd>, ready: seq<Event>, react: Reaction, n: nat)
    returns (leaked': set<Fd>)
    requires n <= |ready| && Accounted(s, leaked)
    ensures leaked <= leaked' && Accounted(AtTurn(s, ready, react, n), leaked')
    decreases n
  {
    if n == 0 {
      leaked' := leaked;
    } else {
      leaked' := DispatchAccounts(s, leaked, ready, react, n - 1);
      var before, e := AtTurn(s, ready, react, n - 1), ready[n - 1];
      if e.fd in before.subscribers {
        var ops := react(n - 1, before.subscribers[e.fd], e, before);
        ApplyAccounts(before, leaked', ops);
        leaked' := leaked' + Leaked(before, ops);
      }
    }
  }

  ghost predicate InOrder(log: seq<Delivery>) {
    forall i, j :: 0 <= i < j < |log| ==> log[i].turn < log[j].turn
  }

  /** Nothing is missing: each of the first `n` turns with a subscriber was used. */
  ghost predicate Complete(s: State, ready: seq<Event>, react: Reaction, n: nat, log: seq<Delivery>)
    requires n <= |ready|
  {
    forall k :: 0 <= k < n && ready[k].fd in AtTurn(s, ready, react, k).subscribers ==>
      exists i :: 0 <= i < |log| && log[i].turn == k
  }

  /** The calls that register a whole interest list. */
  ghost function Registrations(subscriber: Subscriber, fds: seq<Fd>, granted: nat -> bool): seq<Op> {
    seq(|fds|, i requires 0 <= i < |fds| => Register(fds[i], subscriber, granted(i)))
  }

  class Manager {
    var subscribers: map<Fd, Subscriber>
    var interest: set<Fd>

    constructor ()
      ensures View() == FRESH
    {
      subscribers, interest := map[], {};
    }

    ghost function View(): State
      reads this
    {
      State(subscribers, interest)
    }

    method Ctl(op: Op) returns (ok: bool)
      requires op.Register? || op.Unregister? || op.Modify?
      modifies this`interest
      ensures op.Register? ==> ok == (op.granted && op.fd !in old(interest))
      ensures !op.Register? ==> ok == (op.granted && op.fd in old(interest))
      ensures interest == if !ok then old(interest)
                          else if op.Register? then old(interest) + {op.fd}
                          else if op.Unregister? then old(interest) - {op.fd}
                          else old(interest)
    {
      ok := op.granted && (op.fd in interest) != op.Register?;
      if ok && op.Register? {
        interest := interest + {op.fd};
      } else if ok && op.Unregister? {
        interest := interest - {op.fd};
      }
    }

    method DoRegister(fd: Fd, subscriber: Subscriber, granted: bool) returns (r: Result)
      modifies this
      ensures (View(), r) == Apply(old(View()), Register(fd, subscriber, granted))
    {
      if fd in subscribers {
        return AlreadyExists;
      }
      var ok := Ctl(Register(fd, subscriber, granted));
      if !ok {
        return PollError;
      }
      subscribers := subscribers[fd := subscriber];
      return Ok;
    }

    /** The subscriber is gone even if the kernel refuses. */
    method DoUnregister(fd: Fd, granted: bool) returns (r: Result)
      modifies this
      ensures (View(), r) == Apply(old(View()), Unregister(fd, granted))
    {
      if fd !in subscribers {
        return NotFound;
      }
      subscribers := subscribers - {fd};
      var ok := Ctl(Unregister(fd, granted));
      return if ok then Ok else PollError;
    }

    method DoModify(fd: Fd, granted: bool) returns (r: Result)
      modifies this
      ensures (View(), r) == Apply(old(View()), Modify(fd, granted))
    {
      if fd !in subscribers {
        return NotFound;
      }
      var ok := Ctl(Modify(fd, granted));
      return if ok then Ok else PollError;
    }

    /** Adds and deletes again; the source unwraps the answer to the delete, so a refusal panics. */
    method DoIsPollable(fd: Fd, granted: bool, deleted: bool) returns (r: Result)
      modifies this
      ensures (View(), r) == Apply(old(View()), IsPollable(fd, granted, deleted))
    {
      var ok := Ctl(Register(fd, 0, granted));
      if !ok {
        return PollError;
      }
      ok := Ctl(Unregister(fd, deleted));
      return if ok then Ok else Panicked;
    }

    method Call(op: Op) returns (r: Result)
      modifies this
      ensures (View(), r) == Apply(old(View()), op)
    {
      match op
      case Register(fd, subscriber, granted) => r := DoRegister(fd, subscriber, granted);
      case Unregister(fd, granted) => r := DoUnregister(fd, granted);
      case Modify(fd, granted) => r := DoModify(fd, granted);
      case IsPollable(fd, granted, deleted) => r := DoIsPollable(fd, granted, deleted);
    }

    /** Registers each event of the interest list, up to the first failure. */
    method AddSubscriber(subscriber: Subscriber, fds: seq<Fd>, granted: nat -> bool) returns (r: Result, done: nat)
      modifies this
      ensures done <= |fds| && (r == Ok <==> done == |fds|)
      ensures View() == ApplyAll(old(View()), Registrations(subscriber, fds[..done], granted))
      ensures forall i :: 0 <= i < done ==>
                fds[i] in subscribers && subscribers[fds[i]] == subscriber && fds[i] !in old(subscribers)
    {
      done := 0;
      ghost var ops: seq<Op> := [];
      while done < |fds|
        invariant done <= |fds|
        invariant ops == Registrations(subscriber, fds[..done], granted)
        invariant View() == ApplyAll(old(View()), ops)
        invariant old(subscribers).Keys <= subscribers.Keys
        invariant forall i :: 0 <= i < done ==>
                    fds[i] in subscribers && subscribers[fds[i]] == subscriber && fds[i] !in old(subscribers)
      {
        ghost var op := Register(fds[done], subscriber, granted(done));
        r := DoRegister(fds[done], subscriber, granted(done));
        if r != Ok {
          return;
        }
        ApplyLast(old(View()), ops, op);
        ops := ops + [op];
        done := done + 1;
      }
      r := Ok;
    }

    method Perform(ops: seq<Op>)
      modifies this
      ensures View() == ApplyAll(old(View()), ops)
    {
      for i := 0 to |ops|
        invariant ApplyAll(View(), ops[i..]) == ApplyAll(old(View()), ops)
      {
        assert ops[i..][1..] == ops[i + 1..];
        var _ := Call(ops[i]);
      }
    }

    /**
     Each ready event is delivered at most once, in order, to whoever is registered for its
     descriptor when its turn comes, whatever earlier callbacks registered or unregistered.
     */
    method Dispatch(ready: seq<Event>, react: Reaction) returns (log: seq<Delivery>)
      modifies this
      ensures View() == AtTurn(old(View()), ready, react, |ready|)
      ensures forall d :: d in log ==> Right(old(View()), ready, react, d)
      ensures InOrder(log)
      ensures Complete(old(View()), ready, react, |ready|, log)
    {
      hide ApplyAll;
      log := [];
      for n := 0 to |ready|
        invariant View() == AtTurn(old(View()), ready, react, n)
        invariant forall d :: d in log ==> Right(old(View()), ready, react, d)
        invariant InOrder(log) && forall i :: 0 <= i < |log| ==> log[i].turn < n
        invariant Complete(old(View()), ready, react, n, log)
      {
        var e := ready[n];
        if e.fd in subscribers {
          var who := subscribers[e.fd];
          var d := Delivery(n, who, e);
          assert Right(old(View()), ready, react, d);
          CompleteAdd(old(View()), ready, react, n, log, d);
          var ops := react(n, who, e, State(subscribers, interest));
          Perform(ops);
          log := log + [d];
        }
      }
    }
  }

  lemma {:induction false} ApplyLast(s: State, ops: seq<Op>, op: Op)
    ensures ApplyAll(s, ops + [op]) == Apply(ApplyAll(s, ops), op).0
    decreases |ops|
  {
    if ops == [] {
      assert ops + [op] == [op] && [op][1..] == [];
    } else {
      assert (ops + [op])[1..] == ops[1..] + [op];
      ApplyLast(Apply(s, ops[0]).0, ops[1..], op);
    }
  }

  lemma CompleteAdd(s: State, ready: seq<Event>, react: Reaction, n: nat, log: seq<Delivery>, d: Delivery)
    requires n < |ready| && Complete(s, ready, react, n, log) && d.turn == n
    ensures Complete(s, ready, react, n + 1, log + [d])
  {
    var log' := log + [d];
    forall k | 0 <= k < n + 1 && ready[k].fd in AtTurn(s, ready, react, k).subscribers
      ensures exists i :: 0 <= i < |log'| && log'[i].turn == k
    {
      if k < n {
        var i :| 0 <= i < |log| && log[i].turn == k;
        assert log'[i].turn == k;
      } else {
        assert log'[|log|].turn == k;
      }
    }
  }
}
