/** `TryAsyncStream`: a generator future that hands its values to a stream through a shared slot. */
module AsyncStream {
  import opened Basics

  /** What the generator does next: yield a value, or await something that is pending for `polls` polls. */
  datatype Act<T> = Yield(value: T) | Await(polls: nat)

  datatype Item<T, E> = Value(value: T) | Error(error: E)

  /** What a poll of the stream returns. */
  datatype Poll<T, E> = Pending | Next(item: Item<T, E>) | End

  /** `rest` is what the future has still to do, `error` how it ends; `terminated` is `Fuse`'s state. */
  datatype Stream<T, E> = Stream(rest: seq<Act<T>>, error: Option<E>, slot: Option<T>, terminated: bool)

  datatype Polled = Ready | NotReady | Overwrote

  /** Resuming the future: it runs until it is pending, or to its end. */
  function PollFuture<T, E>(s: Stream<T, E>): (Stream<T, E>, Polled)
    decreases |s.rest|
  {
    if s.rest == [] then (s.(terminated := true), Ready)
    else
      match s.rest[0]
      case Yield(v) => (s.(rest := s.rest[1..], slot := Some(v)), if s.slot.None? then NotReady else Overwrote)
      case Await(n) =>
        if n == 0 then PollFuture(s.(rest := s.rest[1..]))
        else (s.(rest := [Await(n - 1)] + s.rest[1..]), NotReady)
  }

  /** `poll_next` */
  function PollNext<T, E>(s: Stream<T, E>): (Stream<T, E>, Poll<T, E>) {
    if s.terminated then (s, End)
    else
      var (s1, polled) := PollFuture(s);
      if polled.Ready? then (s1, if s1.error.Some? then Next(Error(s1.error.value)) else End)
      else (s1.(slot := None), if s1.slot.Some? then Next(Value(s1.slot.value)) else Pending)
  }

  // ------------------------------------------------------------------ the code

  class TryAsyncStream<T, E> {
    var rest: seq<Act<T>>
    const error: Option<E>
    var slot: Option<T>
    var terminated: bool

    constructor (program: seq<Act<T>>, error: Option<E>)
      ensures State() == Stream(program, error, None, false)
    {
      rest, this.error, slot, terminated := program, error, None, false;
    }

    ghost function State(): Stream<T, E>
      reads this
    {
      Stream(rest, error, slot, terminated)
    }

    /** Drives the generator; `Yielder::yield` must find the slot empty. */
    method Resume() returns (ready: bool)
      requires slot.None?
      modifies this
      ensures PollFuture(old(State())) == (State(), if ready then Ready else NotReady)
    {
      while rest != []
        invariant slot.None? && !terminated == !old(terminated)
        invariant PollFuture(State()) == PollFuture(old(State()))
        decreases |rest|
      {
        match rest[0]
        case Yield(v) =>
          assert slot.None?;
          slot, rest := Some(v), rest[1..];
          return false;
        case Await(n) =>
          if n > 0 {
            rest := [Await(n - 1)] + rest[1..];
            return false;
          }
          rest := rest[1..];
      }
      terminated := true;
      return true;
    }

    method PollStream() returns (r: Poll<T, E>)
      requires slot.None?
      modifies this
      ensures slot.None?
      ensures (State(), r) == PollNext(old(State()))
    {
      if terminated {
        return End;
      }
      var ready := Resume();
      if ready {
        ReadyKeepsSlot(old(State()));
        return if error.Some? then Next(Error(error.value)) else End;
      }
      r := if slot.Some? then Next(Value(slot.value)) else Pending;
      slot := None;
    }
  }

  // ------------------------------------------------------------------ what the polls produce

  /** The values still to be yielded, then the error if there is one. */
  function Remaining<T, E>(s: Stream<T, E>): seq<Item<T, E>> {
    if s.terminated then [] else Yields(s.rest) + if s.error.Some? then [Error(s.error.value)] else []
  }

  function Yields<T, E>(acts: seq<Act<T>>): seq<Item<T, E>> {
    if acts == [] then []
    else (if acts[0].Yield? then [Value(acts[0].value)] else []) + Yields(acts[1..])
  }

  /** Polls until the end, at most. */
  function Cost<T, E>(s: Stream<T, E>): nat {
    if s.terminated then 0 else 1 + Waits(s.rest)
  }

  function Waits<T>(acts: seq<Act<T>>): nat {
    if acts == [] then 0
    else (if acts[0].Yield? then 1 else acts[0].polls) + Waits(acts[1..])
  }

  lemma {:induction false} ReadyKeepsSlot<T, E>(s: Stream<T, E>)
    ensures PollFuture(s).1.Ready? ==> PollFuture(s).0.slot == s.slot
    decreases |s.rest|
  {
    if s.rest != [] && s.rest[0] == Await(0) {
      ReadyKeepsSlot(s.(rest := s.rest[1..]));
    }
  }

  /** Resuming never finds the slot full, and moves at most one value into it. */
  lemma {:induction false} FutureStep<T, E>(s: Stream<T, E>)
    requires s.slot.None? && !s.terminated
    ensures var (s1, polled) := PollFuture(s);
            && !polled.Overwrote?
            && s1.error == s.error
            && s1.terminated == polled.Ready?
            && (polled.Ready? ==> s1.slot.None? && Yields<T, E>(s.rest) == [])
            && (!polled.Ready? ==>
                  && Yields<T, E>(s.rest) == (if s1.slot.Some? then [Value(s1.slot.value)] else [])
                      + Yields<T, E>(s1.rest)
                  && Waits(s1.rest) < Waits(s.rest))
    decreases |s.rest|
  {
    if s.rest != [] {
      match s.rest[0]
      case Yield(_) =>
      case Await(n) =>
        if n == 0 {
          FutureStep(s.(rest := s.rest[1..]));
        } else {
          assert ([Await(n - 1)] + s.rest[1..])[1..] == s.rest[1..];
        }
    }
  }

  /**
   * One poll: the yielded value comes out of the slot at once, nothing else changes what is to come,
   * and every poll of an unfinished stream makes progress.
   */
  lemma PollStep<T, E>(s: Stream<T, E>)
    requires s.slot.None?
    ensures var (s1, r) := PollNext(s);
            && s1.slot.None?
            && (s.terminated ==> s1 == s && r.End?)
            && (!s.terminated ==> Cost(s1) < Cost(s))
            && Remaining(s) == (if r.Next? then [r.item] else []) + Remaining(s1)
            && (r.End? ==> Remaining(s) == [] && s1.terminated)
            && (r.Pending? ==> !s1.terminated)
            && (r.Next? && r.item.Error? ==> s1.terminated)
  {
    if !s.terminated {
      FutureStep(s);
    }
  }

  /** The stream after `n` polls, and the items that they returned. */
  function PollTimes<T, E>(s: Stream<T, E>, n: nat): (Stream<T, E>, seq<Item<T, E>>)
    decreases n
  {
    if n == 0 then (s, [])
    else
      var (s1, r) := PollNext(s);
      var (s2, items) := PollTimes(s1, n - 1);
      (s2, (if r.Next? then [r.item] else []) + items)
  }

  lemma {:induction false} Conserved<T, E>(s: Stream<T, E>, n: nat)
    requires s.slot.None?
    ensures PollTimes(s, n).0.slot.None?
    ensures PollTimes(s, n).1 + Remaining(PollTimes(s, n).0) == Remaining(s)
    decreases n
  {
    if n > 0 {
      PollStep(s);
      Conserved(PollNext(s).0, n - 1);
    }
  }

  lemma {:induction false} Finishes<T, E>(s: Stream<T, E>, n: nat)
    requires s.slot.None? && n >= Cost(s)
    ensures PollTimes(s, n).0.terminated
    decreases n
  {
    if n > 0 {
      PollStep(s);
      Finishes(PollNext(s).0, n - 1);
    }
  }

  /**
   * Under any schedule of polls, what has come out and what is still to come make up exactly the
   * yielded values in order and then the error; after enough polls everything has come out and
   * the stream has ended for good.
   */
  lemma NothingLostOrRepeated<T, E>(s: Stream<T, E>, n: nat)
    requires s.slot.None?
    ensures var (s1, items) := PollTimes(s, n);
            && s1.slot.None?
            && items + Remaining(s1) == Remaining(s)
            && (n >= Cost(s) ==> items == Remaining(s) && PollNext(s1) == (s1, End))
  {
    Conserved(s, n);
    if n >= Cost(s) {
      Finishes(s, n);
    }
  }
}
